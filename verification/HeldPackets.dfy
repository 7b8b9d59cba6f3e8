/** Packets as the protocol object holds them: values with the allocation they live in. */
module HeldPackets {
  import opened Bits
  import opened Options
  import opened Packets
  import opened SiblingBodies
  import opened Endpoints
  import opened Network

  datatype Held = Held(handle: nat, packet: Packet)

  /** Who holds an allocated packet. */
  datatype Owner = InHand | Available | Unacknowledged | Queued | InSlot(id: u32, pos: nat)

  type Slots = seq<Option<Held>>

  function Values(s: seq<Held>): (r: seq<Packet>)
    ensures |r| == |s|
  {
    seq(|s|, i requires 0 <= i < |s| => s[i].packet)
  }

  function SlotValues(s: Slots): (r: Storage)
    ensures |r| == |s|
  {
    seq(|s|, i requires 0 <= i < |s| => if s[i].Some? then Some(s[i].value.packet) else None)
  }

  /** Each element is a distinct allocation held by o. */
  ghost predicate Owned(s: seq<Held>, o: Owner, owner: map<nat, Owner>) {
    && (forall i :: 0 <= i < |s| ==> s[i].handle in owner && owner[s[i].handle] == o)
    && (forall i, j :: 0 <= i < j < |s| ==> s[i].handle != s[j].handle)
  }

  /** Each part is a live allocation in a slot of the group whose id it carries. */
  ghost predicate SlotsOwned(siblings: map<u32, Slots>, owner: map<nat, Owner>) {
    forall id, pos: nat :: id in siblings && pos < |siblings[id]| && siblings[id][pos].Some? ==>
      siblings[id][pos].value.handle in owner && owner[siblings[id][pos].value.handle] == InSlot(id, pos)
      && siblings[id][pos].value.packet.sibId == id
  }

  ghost predicate Distinct(s: seq<Held>) {
    forall i, j :: 0 <= i < j < |s| ==> s[i] != s[j]
  }

  /** Changing what others own does not matter. */
  lemma OwnedKept(s: seq<Held>, o: Owner, owner: map<nat, Owner>, owner': map<nat, Owner>)
    requires Owned(s, o, owner)
    requires forall h :: h in owner && owner[h] == o ==> h in owner' && owner'[h] == o
    ensures Owned(s, o, owner')
  {
  }

  function UnackedHeld(s: seq<Held>, ids: set<u32>): (r: seq<Held>)
    ensures forall h :: h in r <==> h in s && h.packet.seqNo !in ids
  {
    if s == [] then []
    else if s[0].packet.seqNo in ids then UnackedHeld(s[1..], ids)
    else [s[0]] + UnackedHeld(s[1..], ids)
  }

  lemma {:induction false} UnackedHeldValues(s: seq<Held>, ids: set<u32>)
    ensures Values(UnackedHeld(s, ids)) == Unacked(Values(s), ids)
  {
    hide Values;
    if s == [] {
      assert Values(s) == [];
    } else {
      assert s == [s[0]] + s[1..];
      ValuesConcat([s[0]], s[1..]);
      UnackedHeldValues(s[1..], ids);
      ValuesConcat([s[0]], UnackedHeld(s[1..], ids));
    }
  }

  lemma ValuesConcat(a: seq<Held>, b: seq<Held>)
    ensures Values(a + b) == Values(a) + Values(b)
    ensures |a| == 1 ==> Values(a) == [a[0].packet]
  {
  }

  lemma OwnedConcat(a: seq<Held>, b: seq<Held>, o: Owner, owner: map<nat, Owner>)
    requires Owned(a, o, owner) && Owned(b, o, owner)
    requires forall i, j :: 0 <= i < |a| && 0 <= j < |b| ==> a[i].handle != b[j].handle
    ensures Owned(a + b, o, owner)
  {
  }

  lemma OwnedTail(s: seq<Held>, o: Owner, owner: map<nat, Owner>)
    requires Owned(s, o, owner) && s != []
    ensures Owned(s[1..], o, owner) && Owned(s[..1], o, owner)
    ensures forall h :: h in s[1..] ==> h.handle != s[0].handle
  {
    assert forall i :: 0 <= i < |s[1..]| ==> s[1..][i] == s[i + 1];
  }

  lemma {:induction false} UnackedHeldOwned(s: seq<Held>, ids: set<u32>, o: Owner, owner: map<nat, Owner>)
    requires Owned(s, o, owner)
    ensures Owned(UnackedHeld(s, ids), o, owner)
  {
    hide Owned;
    if s != [] {
      OwnedTail(s, o, owner);
      UnackedHeldOwned(s[1..], ids, o, owner);
      var r := UnackedHeld(s[1..], ids);
      forall i | 0 <= i < |r|
        ensures r[i].handle != s[0].handle
      {
        assert r[i] in s[1..];
      }
      assert s[..1] == [s[0]];
      OwnedConcat([s[0]], r, o, owner);
    }
  }

  lemma {:induction false} UnackedHeldDistinct(s: seq<Held>, ids: set<u32>)
    requires Distinct(s)
    ensures Distinct(UnackedHeld(s, ids))
  {
    if s != [] {
      assert forall i :: 0 <= i < |s[1..]| ==> s[1..][i] == s[i + 1];
      UnackedHeldDistinct(s[1..], ids);
      var r := UnackedHeld(s[1..], ids);
      forall i | 0 <= i < |r|
        ensures r[i] != s[0]
      {
        assert r[i] in s[1..];
      }
    }
  }

  lemma {:induction false} UnackedHeldMore(s: seq<Held>, ids: set<u32>, id: u32)
    ensures UnackedHeld(UnackedHeld(s, ids), {id}) == UnackedHeld(s, ids + {id})
  {
    if s != [] { UnackedHeldMore(s[1..], ids, id); }
  }

  lemma {:induction false} UnackedHeldNone(s: seq<Held>, ids: set<u32>)
    requires forall h :: h in s ==> h.packet.seqNo !in ids
    ensures UnackedHeld(s, ids) == s
  {
    if s != [] {
      UnackedHeldNone(s[1..], ids);
      assert s == [s[0]] + s[1..];
    }
  }

  /** Erasing the one entry of a packet is the same as filtering by its number. */
  lemma {:induction false} EraseOne(s: seq<Held>, i: nat)
    requires i < |s| && forall j :: 0 <= j < |s| && j != i ==> s[j].packet.seqNo != s[i].packet.seqNo
    ensures UnackedHeld(s, {s[i].packet.seqNo}) == s[..i] + s[i + 1..]
  {
    if i == 0 {
      UnackedHeldNone(s[1..], {s[0].packet.seqNo});
    } else {
      EraseOne(s[1..], i - 1);
      WithoutLater(s, s[1..], i);
    }
  }

  lemma WithoutLater<T>(s: seq<T>, t: seq<T>, i: nat)
    requires 0 < i < |s| && t == s[1..]
    ensures s[..i] + s[i + 1..] == [s[0]] + (t[..i - 1] + t[i..])
  {
    assert s == [s[0]] + t;
  }
}
