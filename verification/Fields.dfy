/** Messages as lists of stream fields: whatever was stored is read back, field for field. */
module MessageFields {
  import opened Bits
  import opened BitStreams
  import Packed = PackedCode

  /** What StoreBits, StorePackedBits and StoreString append. */
  datatype Field = Plain(width: nat, value: u32) | PackedInt(minWidth: nat, packed: u32) | Text(chars: seq<byte>) {
    predicate Valid() {
      match this
      case Plain(w, _) => 1 <= w <= UINT32_BITS
      case PackedInt(w, _) => 1 <= w <= UINT32_BITS
      case Text(s) => 0 !in s
    }

    function Stored(): seq<bool>
      requires Valid()
    {
      match this
      case Plain(w, v) => ToBits(v, w)
      case PackedInt(w, v) => Packed.Encode(v, w)
      case Text(s) => BytesBits(s + [0])
    }

    /** The high bits of a plain field never reach the stream. */
    function Kept(): Field {
      if Plain? then Plain(width, LowBits(value, width)) else this
    }
  }

  function LowBits(v: u32, w: nat): u32 {
    LowBound(v, Pow2(w));
    v % Pow2(w)
  }

  lemma LowBound(v: nat, m: nat)
    requires m >= 1
    ensures v % m <= v
  {
    DivMod(v, m);
    MulMono(0, v / m, m);
  }

  datatype Read = Read(field: Field, consumed: nat)

  /** What GetBits, GetPackedBits and GetString return for a field of the same kind. */
  function ReadField(kind: Field, b: seq<bool>): Read
    requires kind.Valid()
  {
    match kind
    case Plain(w, _) =>
      var g := Packed.ReadGroup(b, w);
      Read(Plain(w, g.value), g.consumed)
    case PackedInt(w, _) =>
      var d := Packed.Decode(b, w, 0);
      Read(PackedInt(w, d.value), d.consumed)
    case Text(_) =>
      var r := ReadChars(b);
      Read(Text(r.chars), r.consumed)
  }

  lemma FieldBack(f: Field, rest: seq<bool>)
    requires f.Valid()
    ensures ReadField(f, f.Stored() + rest) == Read(f.Kept(), |f.Stored()|)
  {
    hide ToBits, FromBits, Packed.Encode, Packed.Decode, Packed.ReadGroup, BytesBits, ReadChars, Pow2;
    match f
    case Plain(w, v) => PlainBack(v, w, rest);
    case PackedInt(w, v) => Packed.RoundTrip(v, w, 0, rest);
    case Text(s) => StringRoundTrip(s, rest);
  }

  lemma PlainBack(v: u32, w: nat, rest: seq<bool>)
    requires 1 <= w <= UINT32_BITS
    ensures v % Pow2(w) < 0x1_0000_0000 && Packed.ReadGroup(ToBits(v, w) + rest, w) == Packed.Decoded(v % Pow2(w), w)
  {
    hide ToBits, FromBits, Pow2;
    Packed.Pow2Limit(w);
    ToBitsMod(v, w);
    Packed.GroupReadBack(v % Pow2(w), w, rest);
  }

  function StoredAll(fs: seq<Field>): seq<bool>
    requires forall f :: f in fs ==> f.Valid()
    decreases |fs|
  {
    if fs == [] then [] else fs[0].Stored() + StoredAll(fs[1..])
  }

  function KeptAll(fs: seq<Field>): seq<Field>
    decreases |fs|
  {
    if fs == [] then [] else [fs[0].Kept()] + KeptAll(fs[1..])
  }

  datatype ReadList = ReadList(fields: seq<Field>, rest: seq<bool>)

  function ReadAll(kinds: seq<Field>, b: seq<bool>): ReadList
    requires forall f :: f in kinds ==> f.Valid()
    decreases |kinds|
  {
    if kinds == [] then ReadList([], b)
    else
      var r := ReadField(kinds[0], b);
      var more := ReadAll(kinds[1..], if r.consumed <= |b| then b[r.consumed..] else []);
      ReadList([r.field] + more.fields, more.rest)
  }

  /** Reading the same kinds of fields gives the stored values in order and stops where storing stopped. */
  lemma {:induction false} ReadBack(fs: seq<Field>, rest: seq<bool>)
    requires forall f :: f in fs ==> f.Valid()
    ensures ReadAll(fs, StoredAll(fs) + rest) == ReadList(KeptAll(fs), rest)
    decreases |fs|
  {
    if fs == [] {
      assert [] + rest == rest;
    } else {
      var first, others := fs[0].Stored(), StoredAll(fs[1..]);
      ConcatAssoc(first, others, rest);
      FieldBack(fs[0], others + rest);
      assert (first + (others + rest))[|first|..] == others + rest;
      hide ReadField;
      ReadBack(fs[1..], rest);
    }
  }

  /** The characters of a text and its terminator, each as a plain field of eight bits. */
  function Characters(t: seq<byte>): (r: seq<Field>)
    ensures forall f :: f in r ==> f.Valid()
  {
    if t == [] then [] else [Plain(OCTET, t[0])] + Characters(t[1..])
  }

  /** Storing a text is the same as storing its characters and a zero one after the other. */
  lemma TextIsCharacters(s: seq<byte>)
    requires 0 !in s
    ensures Text(s).Stored() == StoredAll(Characters(s + [0]))
  {
    CharactersStored(s + [0]);
  }

  lemma {:induction false} CharactersStored(t: seq<byte>)
    ensures StoredAll(Characters(t)) == BytesBits(t)
  {
    hide BytesBits;
    if t == [] {
      assert BytesBits([]) == [];
    } else {
      BytesBitsFirst(t);
      CharactersStored(t[1..]);
      assert Characters(t)[1..] == Characters(t[1..]);
    }
  }
}
