/** The client's numbered control-state changes, resent until acknowledged, and their consumption by the server. */
module ControlChanges {
  import opened Options

  const IDS: nat := 0x1_0000
  const FARTHEST_RESEND: nat := 0x8000

  type u16 = n: nat | n < IDS

  datatype Change = Change(controlId: nat, timeSincePrev: nat, value: int)

  datatype InputChange = InputChange(first: u16, changes: seq<Change>)

  /** How much newer b is than a.  The corrections are by one less than the number of ids. */
  function CscIdDelta(a: u16, b: u16): int {
    var diff := b - a;
    if diff > 0x8000 then diff - 0xffff
    else if diff < -0x7fff then diff + 0xffff
    else diff
  }

  /** The distance is right, modulo the number of ids, exactly when no correction is made; otherwise it is one off. */
  lemma DeltaExact(a: u16, b: u16)
    ensures (CscIdDelta(a, b) - (b - a)) % IDS == 0 <==> -0x7fff <= b - a <= 0x8000
    ensures b - a > 0x8000 ==> (CscIdDelta(a, b) - 1 - (b - a)) % IDS == 0 && -0x7fff <= CscIdDelta(a, b) <= 0
    ensures b - a < -0x7fff ==> (CscIdDelta(a, b) + 1 - (b - a)) % IDS == 0 && 0 <= CscIdDelta(a, b) <= 0x7fff
  {
  }

  datatype Progress = Progress(next: u16, processed: seq<Change>)

  /** One queued input change; None stands for the failed assertion on a gap. */
  function Consume(p: Progress, c: InputChange): Option<Progress> {
    if c.changes == [] then Some(p)
    else
      var delta := CscIdDelta(c.first, p.next);
      if delta < 0 then None
      else if delta < |c.changes| then
        Some(Progress((p.next + (|c.changes| - delta) % IDS) % IDS, p.processed + c.changes[delta..]))
      else Some(p)
  }

  function ConsumeAll(p: Progress, queue: seq<InputChange>): Option<Progress>
    decreases |queue|
  {
    if queue == [] then Some(p)
    else
      var q := Consume(p, queue[0]);
      if q.None? then None else ConsumeAll(q.value, queue[1..])
  }

  class InputState {
    var queuedChanges: seq<InputChange>
    var nextExpected: u16
    /** The changes acted upon, in order. */
    var processed: seq<Change>

    constructor ()
      ensures queuedChanges == [] && nextExpected == 0 && processed == []
    {
      queuedChanges, nextExpected, processed := [], 0, [];
    }

    /** Acts on the changes of one input change that were not seen before. */
    method ConsumeOne(inputChange: InputChange)
      requires Consume(Progress(nextExpected, processed), inputChange).Some?
      modifies this`nextExpected, this`processed
      ensures Some(Progress(nextExpected, processed)) == Consume(old(Progress(nextExpected, processed)), inputChange)
    {
      hide CscIdDelta;
      var changes := inputChange.changes;
      if changes != [] {
        var delta := CscIdDelta(inputChange.first, nextExpected);
        assert delta >= 0;
        if delta < |changes| {
          ghost var before := processed;
          for k := delta to |changes|
            invariant processed == before + changes[delta..k] && nextExpected == old(nextExpected)
          {
            processed := processed + [changes[k]];
          }
          assert changes[delta..|changes|] == changes[delta..];
          var newCount := (|changes| - delta) % IDS;
          nextExpected := (nextExpected + newCount) % IDS;
        }
      }
    }

    /** Acts on every change of the queue that was not seen before, and empties the queue. */
    method ProcessNewInputs()
      requires ConsumeAll(Progress(nextExpected, processed), queuedChanges).Some?
      modifies this
      ensures queuedChanges == []
      ensures Some(Progress(nextExpected, processed))
              == ConsumeAll(old(Progress(nextExpected, processed)), old(queuedChanges))
    {
      hide Consume;
      ghost var whole := ConsumeAll(Progress(nextExpected, processed), queuedChanges);
      assert queuedChanges[0..] == queuedChanges;
      for i := 0 to |queuedChanges|
        invariant queuedChanges == old(queuedChanges)
        invariant ConsumeAll(Progress(nextExpected, processed), queuedChanges[i..]) == whole
      {
        assert queuedChanges[i..][0] == queuedChanges[i] && queuedChanges[i..][1..] == queuedChanges[i + 1..];
        ConsumeOne(queuedChanges[i]);
      }
      queuedChanges := [];
    }
  }

  // ---- resending ----

  /** A stretch of the client's stream. */
  datatype Batch = Batch(start: nat, len: nat)

  predicate InStream(stream: seq<Change>, b: Batch) {
    b.start + b.len <= |stream|
  }

  function Sent(stream: seq<Change>, b: Batch): InputChange
    requires InStream(stream, b)
  {
    InputChange(b.start % IDS, stream[b.start..b.start + b.len])
  }

  /** Progress after the first n changes of the stream, each acted upon once and in order. */
  function After(stream: seq<Change>, n: nat): Progress
    requires n <= |stream|
  {
    Progress(n % IDS, stream[..n])
  }

  /** How far the stream has been sent after one more batch; an empty one sends nothing. */
  function Further(n: nat, b: Batch): nat {
    if b.len > 0 && b.start + b.len > n then b.start + b.len else n
  }

  lemma ModStep(start: nat, n: nat)
    requires start <= n <= start + FARTHEST_RESEND
    ensures if start % IDS <= n % IDS then n % IDS - start % IDS == n - start
            else n % IDS - start % IDS == n - start - IDS
  {
  }

  lemma NextId(n: nat, k: nat)
    ensures (n % IDS + k % IDS) % IDS == (n + k) % IDS
  {
  }

  /**
   * One resend that starts at most 0x8000 changes back: the server acts on exactly the changes it has not seen, if and
   * only if the ids do not wrap between its start and the next expected change, or it is too short to reach that one.
   */
  lemma ConsumeExact(stream: seq<Change>, n: nat, b: Batch)
    requires n <= |stream| && InStream(stream, b) && b.len > 0 && b.start <= n <= b.start + FARTHEST_RESEND
    ensures Consume(After(stream, n), Sent(stream, b)) == Some(After(stream, Further(n, b)))
            <==> b.start % IDS <= n % IDS || b.len < n - b.start
  {
    ModStep(b.start, n);
    var c, d, end := Sent(stream, b), n - b.start, b.start + b.len;
    var delta := CscIdDelta(c.first, n % IDS);
    if b.start % IDS <= n % IDS {
      assert delta == d;
      if d < b.len {
        NextId(n, b.len - d);
        assert stream[..n] + c.changes[d..] == stream[..end];
      }
    } else {
      assert delta == d - 1;
      if d - 1 < b.len {
        assert |stream[..n] + c.changes[d - 1..]| == end + 1;
      }
    }
  }

  /**
   * Changes that leave a gap behind the next expected one fail the assertion, unless the ids wrap within a gap of one:
   * then they are acted upon as if nothing were missing.
   */
  lemma GapNoticed(stream: seq<Change>, n: nat, b: Batch)
    requires n <= |stream| && InStream(stream, b) && b.len > 0 && n < b.start < n + FARTHEST_RESEND
    ensures Consume(After(stream, n), Sent(stream, b)) == None <==> n % IDS < b.start % IDS || b.start > n + 1
    ensures b.start == n + 1 && b.start % IDS == 0 ==>
            Consume(After(stream, n), Sent(stream, b))
            == Some(Progress((n + b.len) % IDS, stream[..n] + stream[n + 1..n + 1 + b.len]))
  {
    ModStep(n, b.start);
    if b.start == n + 1 && b.start % IDS == 0 {
      NextId(n, b.len);
      assert Sent(stream, b).changes[0..] == stream[n + 1..n + 1 + b.len];
    }
  }

  /** Resends that neither leave a gap nor reach back too far. */
  ghost predicate Reaching(stream: seq<Change>, n: nat, batches: seq<Batch>)
    requires n <= |stream|
    decreases |batches|
  {
    batches == []
    || (var b := batches[0];
        && InStream(stream, b) && (b.len > 0 ==> b.start <= n <= b.start + FARTHEST_RESEND)
        && Reaching(stream, Further(n, b), batches[1..]))
  }

  /** No resend straddles a wrap of the ids and still reaches the next expected change. */
  predicate Unwrapped(n: nat, batches: seq<Batch>)
    decreases |batches|
  {
    batches == []
    || (var b := batches[0];
        && (b.len == 0 || b.start % IDS <= n % IDS || b.len < n - b.start)
        && Unwrapped(Further(n, b), batches[1..]))
  }

  /** The end of everything sent so far. */
  function Farthest(n: nat, batches: seq<Batch>): (r: nat)
    ensures r >= n
    ensures forall b :: b in batches && b.len > 0 ==> b.start + b.len <= r
    decreases |batches|
  {
    if batches == [] then n else Farthest(Further(n, batches[0]), batches[1..])
  }

  function SentAll(stream: seq<Change>, batches: seq<Batch>): (r: seq<InputChange>)
    requires forall b :: b in batches ==> InStream(stream, b)
    ensures |r| == |batches|
  {
    seq(|batches|, i requires 0 <= i < |batches| => Sent(stream, batches[i]))
  }

  lemma {:induction false} StaysInStream(stream: seq<Change>, n: nat, batches: seq<Batch>)
    requires n <= |stream| && Reaching(stream, n, batches)
    ensures (forall b :: b in batches ==> InStream(stream, b)) && Farthest(n, batches) <= |stream|
    decreases |batches|
  {
    if batches != [] {
      var b := batches[0];
      assert batches == [b] + batches[1..];
      StaysInStream(stream, Further(n, b), batches[1..]);
    }
  }

  /** After these resends the server has acted, once and in order, on everything sent so far, and on nothing else. */
  ghost predicate InStep(stream: seq<Change>, n: nat, batches: seq<Batch>)
    requires n <= |stream| && forall b :: b in batches ==> InStream(stream, b)
  {
    Farthest(n, batches) <= |stream|
    && ConsumeAll(After(stream, n), SentAll(stream, batches)) == Some(After(stream, Farthest(n, batches)))
  }

  /** In step after each of the resends. */
  ghost predicate AlwaysInStep(stream: seq<Change>, n: nat, batches: seq<Batch>)
    requires n <= |stream| && forall b :: b in batches ==> InStream(stream, b)
  {
    forall i :: 0 <= i <= |batches| ==> InStep(stream, n, batches[..i])
  }

  /**
   * However the resends overlap, every change is consumed once and in order throughout, exactly if none straddles a
   * wrap.
   */
  lemma {:induction false} ExactlyOnce(stream: seq<Change>, n: nat, batches: seq<Batch>)
    requires n <= |stream| && Reaching(stream, n, batches)
    ensures forall b :: b in batches ==> InStream(stream, b)
    ensures AlwaysInStep(stream, n, batches) <==> Unwrapped(n, batches)
    decreases |batches|
  {
    hide Consume, After, InStep;
    StaysInStream(stream, n, batches);
    if batches == [] {
      NothingYet(stream, n);
      assert batches[..0] == [];
    } else {
      var b, rest := batches[0], batches[1..];
      var n' := Further(n, b);
      ExactlyOnce(stream, n', rest);
      if b.len > 0 { ConsumeExact(stream, n, b); } else { NothingSent(stream, n, b); }
      FirstThenRest(stream, n, batches, n');
    }
  }

  lemma NothingYet(stream: seq<Change>, n: nat)
    requires n <= |stream|
    ensures InStep(stream, n, [])
  {
  }

  lemma FirstOfPrefix<T>(s: seq<T>, i: nat)
    requires i < |s|
    ensures s[..i + 1] == [s[0]] + s[1..][..i]
  {
  }

  /** In step after one resend, and from there on after each of the others. */
  lemma FirstThenRest(stream: seq<Change>, n: nat, batches: seq<Batch>, n': nat)
    requires batches != [] && n <= |stream| && n' <= |stream| && n' == Further(n, batches[0])
    requires forall b :: b in batches ==> InStream(stream, b)
    ensures AlwaysInStep(stream, n, batches)
            <==>
            && Consume(After(stream, n), Sent(stream, batches[0])) == Some(After(stream, n'))
            && AlwaysInStep(stream, n', batches[1..])
  {
    hide Consume, After, InStep;
    var b, rest := batches[0], batches[1..];
    var first := Consume(After(stream, n), Sent(stream, b)) == Some(After(stream, n'));
    NothingYet(stream, n);
    assert batches[..0] == [];
    OneStep(stream, n, b, [], n');
    assert batches[..1] == [b] + [];
    forall i | 0 <= i <= |rest|
      ensures first ==> (InStep(stream, n, batches[..i + 1]) <==> InStep(stream, n', rest[..i]))
    {
      FirstOfPrefix(batches, i);
      OneStep(stream, n, b, rest[..i], n');
    }
    NothingYet(stream, n');
    if AlwaysInStep(stream, n, batches) {
      assert InStep(stream, n, batches[..1]);
      forall i | 0 <= i <= |rest|
        ensures InStep(stream, n', rest[..i])
      {
        assert InStep(stream, n, batches[..i + 1]);
      }
    }
    if first && AlwaysInStep(stream, n', rest) {
      forall i | 0 <= i <= |batches|
        ensures InStep(stream, n, batches[..i])
      {
        if i > 0 { assert InStep(stream, n', rest[..i - 1]); }
      }
    }
  }

  lemma OneStep(stream: seq<Change>, n: nat, b: Batch, rest: seq<Batch>, n': nat)
    requires n <= |stream| && n' <= |stream| && n' == Further(n, b)
    requires InStream(stream, b) && forall c :: c in rest ==> InStream(stream, c)
    ensures forall c :: c in [b] + rest ==> InStream(stream, c)
    ensures var q := Consume(After(stream, n), Sent(stream, b));
            && (q == Some(After(stream, n')) ==> (InStep(stream, n, [b] + rest) <==> InStep(stream, n', rest)))
            && (rest == [] ==> (InStep(stream, n, [b] + rest) <==> q == Some(After(stream, n'))))
  {
    hide Consume, After;
    assert ([b] + rest)[1..] == rest;
    assert SentAll(stream, [b] + rest)[1..] == SentAll(stream, rest);
    var all, q := SentAll(stream, [b] + rest), Consume(After(stream, n), Sent(stream, b));
    assert all[0] == Sent(stream, b);
    assert ConsumeAll(After(stream, n), all) == if q.None? then None else ConsumeAll(q.value, SentAll(stream, rest));
    if rest == [] {
      assert SentAll(stream, rest) == [];
      assert q.Some? ==> ConsumeAll(q.value, []) == q;
      assert Farthest(n, [b]) == Farthest(n', []) == n' by { assert [b][1..] == []; }
    }
  }

  lemma NothingSent(stream: seq<Change>, n: nat, b: Batch)
    requires n <= |stream| && InStream(stream, b) && b.len == 0
    ensures Consume(After(stream, n), Sent(stream, b)) == Some(After(stream, n))
  {
  }

  /** With fewer changes than ids no wrap can happen, so only gaps and very late resends matter. */
  lemma {:induction false} NoWrapNeeded(stream: seq<Change>, n: nat, batches: seq<Batch>)
    requires n <= |stream| < IDS && Reaching(stream, n, batches)
    ensures Unwrapped(n, batches)
    decreases |batches|
  {
    if batches != [] {
      var b := batches[0];
      NoWrapNeeded(stream, Further(n, b), batches[1..]);
    }
  }
}
