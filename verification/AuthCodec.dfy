/** The codec of the authentication link: chained XOR with rolling keys, and DES on parts of a message. */
module AuthCodecs {
  import opened Des
  import opened DesKeys
  import opened DesTables

  // ---- chained XOR ----

  function XorOctet(a: Octet, b: Octet): Octet {
    Octet(a.bits ^ b.bits)
  }

  /** An XOR key is a number of 64 bits. */
  const KEY_SPACE: nat := 0x1_0000_0000_0000_0000

  type XorKey = k: nat | k < KEY_SPACE

  function ToOctet(d: nat): Octet
    requires d < 256
  {
    Octet(d as bv8)
  }

  function Digits(k: nat, n: nat): (r: seq<Octet>)
    ensures |r| == n
  {
    if n == 0 then [] else [ToOctet(k % 256)] + Digits(k / 256, n - 1)
  }

  /** The eight bytes of a key on a little-endian host. */
  function KeyBytes(k: XorKey): (r: seq<Octet>)
    ensures |r| == 8
  {
    Digits(k, 8)
  }

  /** The number with these digits to base 256, the lowest first. */
  function Number(d: seq<nat>): nat {
    if d == [] then 0 else d[0] + 256 * Number(d[1..])
  }

  /** The bytes of a key are its digits to base 256. */
  lemma KeyDigits(d: seq<nat>)
    requires |d| == 8 && forall i :: 0 <= i < |d| ==> d[i] < 256
    ensures Number(d) < KEY_SPACE
    ensures forall i :: 0 <= i < 8 ==> KeyBytes(Number(d))[i] == ToOctet(d[i])
  {
    hide Digits, Number;
    NumberBelow(d);
    assert Powers(8) == KEY_SPACE;
    DigitsOf(d);
  }

  function Powers(n: nat): nat {
    if n == 0 then 1 else 256 * Powers(n - 1)
  }

  lemma {:induction false} NumberBelow(d: seq<nat>)
    requires forall i :: 0 <= i < |d| ==> d[i] < 256
    ensures Number(d) < Powers(|d|)
  {
    if d != [] { NumberBelow(d[1..]); }
  }

  lemma {:induction false} DigitsOf(d: seq<nat>)
    requires forall i :: 0 <= i < |d| ==> d[i] < 256
    ensures forall i :: 0 <= i < |d| ==> Digits(Number(d), |d|)[i] == ToOctet(d[i])
  {
    hide ToOctet;
    if d != [] {
      var k := Number(d);
      assert k % 256 == d[0] && k / 256 == Number(d[1..]);
      hide Number;
      DigitsOf(d[1..]);
      forall i | 0 <= i < |d|
        ensures Digits(k, |d|)[i] == ToOctet(d[i])
      {
        if i > 0 { assert d[i] == d[1..][i - 1]; }
      }
    }
  }

  /** Each byte is combined with the coded byte before it and a key byte. */
  function Chain(s: seq<Octet>, kb: seq<Octet>): (r: seq<Octet>)
    requires |kb| == 8
    ensures |r| == |s|
    decreases |s|
  {
    if s == [] then []
    else
      var n := |s| - 1;
      var front := Chain(s[..n], kb);
      front + [if n == 0 then XorOctet(s[0], kb[0]) else XorOctet(s[n], XorOctet(front[n - 1], kb[n % 8]))]
  }

  function Unchain(c: seq<Octet>, kb: seq<Octet>): (r: seq<Octet>)
    requires |kb| == 8
    ensures |r| == |c|
  {
    seq(|c|, i requires 0 <= i < |c| =>
        if i == 0 then XorOctet(c[0], kb[0]) else XorOctet(XorOctet(c[i], c[i - 1]), kb[i % 8]))
  }

  lemma XorOctetLaws(a: Octet, b: Octet, c: Octet)
    ensures XorOctet(XorOctet(a, b), b) == a
    ensures XorOctet(XorOctet(XorOctet(a, XorOctet(b, c)), b), c) == a
  {
  }

  /** Coded byte i depends on the byte and the coded byte before it. */
  lemma {:induction false} ChainAt(s: seq<Octet>, kb: seq<Octet>, i: nat)
    requires |kb| == 8 && i < |s|
    ensures Chain(s, kb)[i] ==
            if i == 0 then XorOctet(s[0], kb[0]) else XorOctet(s[i], XorOctet(Chain(s, kb)[i - 1], kb[i % 8]))
    decreases |s|
  {
    hide XorOctet;
    var n := |s| - 1;
    if i < n {
      ChainAt(s[..n], kb, i);
      assert forall k :: 0 <= k < n ==> Chain(s, kb)[k] == Chain(s[..n], kb)[k];
    }
  }

  lemma UnchainChain(s: seq<Octet>, kb: seq<Octet>)
    requires |kb| == 8
    ensures Unchain(Chain(s, kb), kb) == s
  {
    hide XorOctet, Chain;
    var c := Chain(s, kb);
    forall i | 0 <= i < |s|
      ensures Unchain(c, kb)[i] == s[i]
    {
      ChainAt(s, kb, i);
      XorOctetLaws(s[i], if i == 0 then kb[0] else c[i - 1], kb[i % 8]);
    }
  }

  const NO_KEY: XorKey := 0

  function CodeMessage(key: XorKey, s: seq<Octet>): (r: seq<Octet>)
    ensures |r| == |s|
  {
    if key == NO_KEY then s else Chain(s, KeyBytes(key))
  }

  function DecodeMessage(key: XorKey, c: seq<Octet>): (r: seq<Octet>)
    ensures |r| == |c|
  {
    if key == NO_KEY then c else Unchain(c, KeyBytes(key))
  }

  /** A key rolls by the message length; a key that is, or has become, zero switches the coding off. */
  function NextKey(key: XorKey, n: nat): XorKey {
    if key == NO_KEY then key else (key + n) % KEY_SPACE
  }

  /** A key that is set grows by exactly the length, modulo 2^64. */
  lemma NextKeyGrows(key: XorKey, n: nat)
    ensures key != NO_KEY ==> (NextKey(key, n) - key - n) % KEY_SPACE == 0
    ensures NextKey(NO_KEY, n) == NO_KEY
  {
    var q := (key + n) / KEY_SPACE;
    if key != NO_KEY { assert NextKey(key, n) - key - n == KEY_SPACE * -q; }
  }

  lemma DecodeCode(key: XorKey, s: seq<Octet>)
    ensures DecodeMessage(key, CodeMessage(key, s)) == s
  {
    hide KeyBytes, Chain, Unchain;
    UnchainChain(s, KeyBytes(key));
  }

  datatype Coded = Coded(key: XorKey, messages: seq<seq<Octet>>)

  function CodeAll(key: XorKey, msgs: seq<seq<Octet>>): Coded
    decreases |msgs|
  {
    if msgs == [] then Coded(key, [])
    else
      var rest := CodeAll(NextKey(key, |msgs[0]|), msgs[1..]);
      Coded(rest.key, [CodeMessage(key, msgs[0])] + rest.messages)
  }

  function DecodeAll(key: XorKey, msgs: seq<seq<Octet>>): Coded
    decreases |msgs|
  {
    if msgs == [] then Coded(key, [])
    else
      var rest := DecodeAll(NextKey(key, |msgs[0]|), msgs[1..]);
      Coded(rest.key, [DecodeMessage(key, msgs[0])] + rest.messages)
  }

  /** From equal keys every message of a run is restored, and the keys stay equal. */
  lemma {:induction false} RunRestored(key: XorKey, msgs: seq<seq<Octet>>)
    ensures DecodeAll(key, CodeAll(key, msgs).messages) == Coded(CodeAll(key, msgs).key, msgs)
    decreases |msgs|
  {
    hide CodeMessage, DecodeMessage, NextKey;
    if msgs != [] {
      DecodeCode(key, msgs[0]);
      RunRestored(NextKey(key, |msgs[0]|), msgs[1..]);
      var c := CodeAll(key, msgs).messages;
      assert c[1..] == CodeAll(NextKey(key, |msgs[0]|), msgs[1..]).messages;
    }
  }

  /** The length of all messages together. */
  function Total(msgs: seq<seq<Octet>>): nat
    decreases |msgs|
  {
    if msgs == [] then 0 else |msgs[0]| + Total(msgs[1..])
  }

  /** The key has become zero after some of the messages. */
  predicate Zeroed(key: XorKey, msgs: seq<seq<Octet>>) {
    exists k :: 0 <= k <= |msgs| && (key + Total(msgs[..k])) % KEY_SPACE == 0
  }

  /** The key before message i. */
  function KeyAt(key: XorKey, msgs: seq<seq<Octet>>, i: nat): XorKey
    requires i <= |msgs|
  {
    if Zeroed(key, msgs[..i]) then NO_KEY else (key + Total(msgs[..i])) % KEY_SPACE
  }

  /** Over a run the key grows by the bytes coded until it becomes zero, which ends the coding for good. */
  lemma {:induction false} RunKeys(key: XorKey, msgs: seq<seq<Octet>>)
    ensures CodeAll(key, msgs).key == KeyAt(key, msgs, |msgs|) && |CodeAll(key, msgs).messages| == |msgs|
    ensures forall i :: 0 <= i < |msgs| ==> CodeAll(key, msgs).messages[i] == CodeMessage(KeyAt(key, msgs, i), msgs[i])
    decreases |msgs|
  {
    hide CodeMessage, KeyAt;
    if msgs == [] {
      FirstKey(key, msgs);
    } else {
      var next, rest := NextKey(key, |msgs[0]|), msgs[1..];
      RunKeys(next, rest);
      FirstKey(key, msgs);
      forall i | 0 <= i <= |rest|
        ensures KeyAt(next, rest, i) == KeyAt(key, msgs, i + 1)
      {
        LaterKey(key, msgs, i);
      }
      var c := CodeAll(key, msgs).messages;
      forall i | 0 <= i < |msgs|
        ensures c[i] == CodeMessage(KeyAt(key, msgs, i), msgs[i])
      {
        if i > 0 { assert c[i] == CodeAll(next, rest).messages[i - 1] && msgs[i] == rest[i - 1]; }
      }
    }
  }

  lemma FirstKey(key: XorKey, msgs: seq<seq<Octet>>)
    ensures KeyAt(key, msgs, 0) == key
  {
    assert msgs[..0] == [];
    var none := msgs[..0];
    if Zeroed(key, none) {
      var k :| 0 <= k <= 0 && (key + Total(none[..k])) % KEY_SPACE == 0;
      assert none[..k] == [];
    }
  }

  lemma LaterKey(key: XorKey, msgs: seq<seq<Octet>>, i: nat)
    requires msgs != [] && i < |msgs|
    ensures KeyAt(NextKey(key, |msgs[0]|), msgs[1..], i) == KeyAt(key, msgs, i + 1)
  {
    var next, front, rest := NextKey(key, |msgs[0]|), msgs[..i + 1], msgs[1..][..i];
    assert front[1..] == rest && front[0] == msgs[0];
    assert front[..0] == [] && rest[..0] == [] && front[..i + 1] == front && rest[..i] == rest;
    hide Total;
    NoTotal();
    if key != NO_KEY {
      forall k: nat | k <= i
        ensures (next + Total(rest[..k])) % KEY_SPACE == (key + Total(front[..k + 1])) % KEY_SPACE
      {
        ShiftedTotal(key, front, k);
      }
      ZeroedLater(key, front, next, rest);
    }
  }

  lemma NoTotal()
    ensures Total([]) == 0
  {
  }

  lemma ShiftedTotal(key: XorKey, msgs: seq<seq<Octet>>, k: nat)
    requires key != NO_KEY && msgs != [] && k < |msgs|
    ensures (NextKey(key, |msgs[0]|) + Total(msgs[1..][..k])) % KEY_SPACE == (key + Total(msgs[..k + 1])) % KEY_SPACE
  {
    assert msgs[..k + 1][1..] == msgs[1..][..k];
    SumModulo(key + |msgs[0]|, Total(msgs[1..][..k]));
  }

  lemma ZeroedLater(key: XorKey, msgs: seq<seq<Octet>>, next: XorKey, rest: seq<seq<Octet>>)
    requires |msgs| == |rest| + 1 && key != NO_KEY
    requires forall k: nat :: k <= |rest| ==>
               (next + Total(rest[..k])) % KEY_SPACE == (key + Total(msgs[..k + 1])) % KEY_SPACE
    ensures Zeroed(key, msgs) <==> Zeroed(next, rest)
  {
    assert msgs[..0] == [];
    if Zeroed(key, msgs) {
      var k :| 0 <= k <= |msgs| && (key + Total(msgs[..k])) % KEY_SPACE == 0;
      assert k > 0;
      assert (next + Total(rest[..k - 1])) % KEY_SPACE == 0;
    }
    if Zeroed(next, rest) {
      var k :| 0 <= k <= |rest| && (next + Total(rest[..k])) % KEY_SPACE == 0;
      assert (key + Total(msgs[..k + 1])) % KEY_SPACE == 0;
    }
  }

  lemma SumModulo(x: nat, y: nat)
    ensures (x % KEY_SPACE + y) % KEY_SPACE == (x + y) % KEY_SPACE
  {
    assert x + y == x % KEY_SPACE + y + KEY_SPACE * (x / KEY_SPACE);
  }

  // ---- DES on part of a message ----

  function Within(s: seq<Octet>, at: nat, size: nat, part: seq<Octet>): (r: seq<Octet>)
    requires at + size <= |s| && |part| == size
    ensures |r| == |s|
  {
    s[..at] + part + s[at + size..]
  }

  lemma WithinTwice(s: seq<Octet>, at: nat, size: nat, part: seq<Octet>)
    requires at + size <= |s| && |part| == size
    ensures Within(s, at, size, part)[at..at + size] == part
    ensures Within(Within(s, at, size, part), at, size, s[at..at + size]) == s
  {
  }

  const LOGIN_START: nat := 1
  const LOGIN_SIZE: nat := 30

  function SendLogin(t: Tables, s: seq<Octet>, desKey: seq<Octet>, xorKey: XorKey): seq<Octet>
    requires |s| >= LOGIN_START + LOGIN_SIZE && |desKey| == BLOCK_BYTES
  {
    var part := Blocks(t, s[LOGIN_START..LOGIN_START + LOGIN_SIZE], Schedule(desKey, Encipher));
    CodeMessage(xorKey, Within(s, LOGIN_START, LOGIN_SIZE, part))
  }

  function ReceiveLogin(t: Tables, c: seq<Octet>, desKey: seq<Octet>, xorKey: XorKey): seq<Octet>
    requires |c| >= LOGIN_START + LOGIN_SIZE && |desKey| == BLOCK_BYTES
  {
    var m := DecodeMessage(xorKey, c);
    Within(m, LOGIN_START, LOGIN_SIZE, Blocks(t, m[LOGIN_START..LOGIN_START + LOGIN_SIZE], Schedule(desKey, Decipher)))
  }

  /**
   * Of a login request three blocks behind the first byte are enciphered; the last six of the thirty bytes meant to be
   * are not.
   */
  lemma LoginEnciphered(t: Tables, s: seq<Octet>, desKey: seq<Octet>, xorKey: XorKey)
    requires |s| >= LOGIN_START + LOGIN_SIZE && |desKey| == BLOCK_BYTES
    ensures var keys := Schedule(desKey, Encipher);
            SendLogin(t, s, desKey, xorKey)
            == CodeMessage(xorKey, s[..1] + (Block(t, s[1..9], keys) + Block(t, s[9..17], keys)
                                             + Block(t, s[17..25], keys)) + s[25..])
  {
    hide Schedule, Block, CodeMessage, Blocks;
    var keys, mid := Schedule(desKey, Encipher), s[LOGIN_START..LOGIN_START + LOGIN_SIZE];
    ThreeBlocks(t, mid, keys);
    SliceOfSlice(s, LOGIN_START, LOGIN_START + LOGIN_SIZE, 0, 8);
    SliceOfSlice(s, LOGIN_START, LOGIN_START + LOGIN_SIZE, 8, 16);
    SliceOfSlice(s, LOGIN_START, LOGIN_START + LOGIN_SIZE, 16, 24);
    SliceOfSlice(s, LOGIN_START, LOGIN_START + LOGIN_SIZE, 24, LOGIN_SIZE);
    assert mid[0..8] == mid[..8] && mid[24..LOGIN_SIZE] == mid[24..];
    assert s[25..31] + s[31..] == s[25..];
    var three := Block(t, s[1..9], keys) + Block(t, s[9..17], keys) + Block(t, s[17..25], keys);
    assert Within(s, LOGIN_START, LOGIN_SIZE, three + s[25..31]) == s[..1] + three + s[25..];
  }

  lemma SliceOfSlice(s: seq<Octet>, from: nat, to: nat, lo: nat, hi: nat)
    requires from <= to <= |s| && lo <= hi <= to - from
    ensures s[from..to][lo..hi] == s[from + lo..from + hi]
  {
    var mid, a, b := s[from..to], s[from..to][lo..hi], s[from + lo..from + hi];
    forall k | 0 <= k < hi - lo
      ensures a[k] == b[k]
    {
      assert a[k] == mid[lo + k] == s[from + (lo + k)];
    }
  }

  lemma ThreeBlocks(t: Tables, s: seq<Octet>, keys: seq<Word>)
    requires |s| == LOGIN_SIZE && |keys| % 2 == 0
    ensures Blocks(t, s, keys)
            == Block(t, s[..8], keys) + Block(t, s[8..16], keys) + Block(t, s[16..24], keys) + s[24..]
  {
    hide Block;
    var s1, s2, s3 := s[8..], s[16..], s[24..];
    assert s1[..8] == s[8..16] && s1[8..] == s2 && s2[..8] == s[16..24] && s2[8..] == s3;
    assert Blocks(t, s3, keys) == s3;
    assert Blocks(t, s2, keys) == Block(t, s[16..24], keys) + s3;
    assert Blocks(t, s1, keys) == Block(t, s[8..16], keys) + (Block(t, s[16..24], keys) + s3);
  }

  /** The links decode in the reverse order of coding, so a login request comes back. */
  lemma LoginRestored(t: Tables, s: seq<Octet>, desKey: seq<Octet>, xorKey: XorKey)
    requires |s| >= LOGIN_START + LOGIN_SIZE && |desKey| == BLOCK_BYTES
    ensures ReceiveLogin(t, SendLogin(t, s, desKey, xorKey), desKey, xorKey) == s
  {
    hide Blocks, Schedule, CodeMessage, DecodeMessage, Within;
    var mid := s[LOGIN_START..LOGIN_START + LOGIN_SIZE];
    var part := Blocks(t, mid, Schedule(desKey, Encipher));
    DecodeCode(xorKey, Within(s, LOGIN_START, LOGIN_SIZE, part));
    WithinTwice(s, LOGIN_START, LOGIN_SIZE, part);
    DecipherUndoesEncipher(t, mid, desKey);
  }

  // ---- both, over a whole buffer ----

  function CodeWhole(t: Tables, s: seq<Octet>, desKey: seq<Octet>, xorKey: XorKey): seq<Octet>
    requires |desKey| == BLOCK_BYTES
  {
    CodeMessage(xorKey, Blocks(t, s, Schedule(desKey, Encipher)))
  }

  /** The same order again: DES first, then XOR. */
  function DecodeWhole(t: Tables, c: seq<Octet>, desKey: seq<Octet>, xorKey: XorKey): seq<Octet>
    requires |desKey| == BLOCK_BYTES
  {
    DecodeMessage(xorKey, Blocks(t, c, Schedule(desKey, Decipher)))
  }

  /** All bytes together. */
  function Fold(s: seq<Octet>): Octet
    decreases |s|
  {
    if s == [] then Octet(0) else XorOctet(Fold(s[..|s| - 1]), s[|s| - 1])
  }

  function KeyFold(kb: seq<Octet>, n: nat): Octet
    requires |kb| == 8
  {
    if n == 0 then Octet(0) else XorOctet(KeyFold(kb, n - 1), kb[(n - 1) % 8])
  }

  lemma XorRegroup(f: Octet, k: Octet, s: Octet, b: Octet)
    ensures XorOctet(s, XorOctet(XorOctet(f, k), b)) == XorOctet(XorOctet(f, s), XorOctet(k, b))
    ensures XorOctet(s, b) == XorOctet(XorOctet(Octet(0), s), XorOctet(Octet(0), b))
  {
  }

  lemma XorCancels(a: Octet, b: Octet, c: Octet)
    ensures XorOctet(a, c) == XorOctet(b, c) <==> a == b
  {
    XorBack(a, c);
    XorBack(b, c);
  }

  lemma XorBack(a: Octet, c: Octet)
    ensures XorOctet(XorOctet(a, c), c) == a
  {
  }

  lemma XorSwaps(a: Octet, b: Octet, c: Octet)
    ensures XorOctet(c, XorOctet(a, b)) == XorOctet(a, XorOctet(c, b))
    ensures XorOctet(XorOctet(XorOctet(a, b), c), XorOctet(b, c)) == a
  {
  }

  /** The last coded byte combines all bytes and all key bytes used. */
  lemma {:induction false} ChainFold(s: seq<Octet>, kb: seq<Octet>)
    requires |kb| == 8 && s != []
    ensures Chain(s, kb)[|s| - 1] == XorOctet(Fold(s), KeyFold(kb, |s|))
    decreases |s|
  {
    hide XorOctet, Chain;
    var n := |s| - 1;
    ChainAt(s, kb, n);
    if n == 0 {
      assert s[..0] == [] && Fold([]) == Octet(0) && KeyFold(kb, 0) == Octet(0);
      XorRegroup(Octet(0), Octet(0), s[0], kb[0]);
    } else {
      ChainFold(s[..n], kb);
      ChainPrefix(s, kb, n);
      XorRegroup(Fold(s[..n]), KeyFold(kb, n), s[n], kb[n % 8]);
    }
  }

  lemma {:induction false} ChainPrefix(s: seq<Octet>, kb: seq<Octet>, k: nat)
    requires |kb| == 8 && k <= |s|
    ensures Chain(s, kb)[..k] == Chain(s[..k], kb)
    decreases |s|
  {
    hide XorOctet;
    if k < |s| {
      var n := |s| - 1;
      ChainPrefix(s[..n], kb, k);
      assert s[..n][..k] == s[..k] && Chain(s, kb)[..n] == Chain(s[..n], kb);
    } else {
      assert s[..k] == s;
    }
  }

  /** Coding undoes decoding, too. */
  lemma ChainUnchain(c: seq<Octet>, kb: seq<Octet>)
    requires |kb| == 8
    ensures Chain(Unchain(c, kb), kb) == c
  {
    hide Chain, Unchain;
    forall i: nat | i < |c|
      ensures Chain(Unchain(c, kb), kb)[i] == c[i]
    {
      ChainUnchainAt(c, kb, i);
    }
  }

  lemma {:induction false} ChainUnchainAt(c: seq<Octet>, kb: seq<Octet>, i: nat)
    requires |kb| == 8 && i < |c|
    ensures Chain(Unchain(c, kb), kb)[i] == c[i]
  {
    hide XorOctet, Chain, Unchain;
    var p := Unchain(c, kb);
    ChainAt(p, kb, i);
    UnchainAt(c, kb, i);
    if i > 0 { ChainUnchainAt(c, kb, i - 1); }
    XorSwaps(c[i], if i == 0 then kb[0] else c[i - 1], kb[i % 8]);
    XorOctetLaws(c[0], kb[0], kb[0]);
  }

  /** Behind two fronts of equal length the same bytes are coded alike exactly if the fronts end alike. */
  lemma {:induction false} ChainTail(a: seq<Octet>, b: seq<Octet>, t: seq<Octet>, kb: seq<Octet>)
    requires |kb| == 8 && |a| == |b| > 0
    ensures Chain(a + t, kb)[|a|..] == Chain(b + t, kb)[|a|..] <==> t == [] || Fold(a) == Fold(b)
  {
    hide XorOctet, Chain, Fold, KeyFold;
    var x, y, k := Chain(a + t, kb), Chain(b + t, kb), |a|;
    ChainPrefix(a + t, kb, k);
    ChainPrefix(b + t, kb, k);
    assert (a + t)[..k] == a && (b + t)[..k] == b;
    ChainFold(a, kb);
    ChainFold(b, kb);
    assert x[k - 1] == x[..k][k - 1] && y[k - 1] == y[..k][k - 1];
    XorCancels(Fold(a), Fold(b), KeyFold(kb, k));
    if t != [] {
      ChainAt(a + t, kb, k);
      ChainAt(b + t, kb, k);
      assert (a + t)[k] == t[0] && (b + t)[k] == t[0];
      XorSwaps(x[k - 1], kb[k % 8], t[0]);
      XorSwaps(y[k - 1], kb[k % 8], t[0]);
      XorCancels(x[k - 1], y[k - 1], XorOctet(t[0], kb[k % 8]));
      assert x[k..][0] == x[k] && y[k..][0] == y[k];
      if x[k - 1] == y[k - 1] {
        forall i | 0 <= i < |t|
          ensures x[k..][i] == y[k..][i]
        {
          SameTail(a, b, t, kb, i);
        }
      }
    }
  }

  lemma {:induction false} SameTail(a: seq<Octet>, b: seq<Octet>, t: seq<Octet>, kb: seq<Octet>, i: nat)
    requires |kb| == 8 && |a| == |b| > 0 && i < |t| && Chain(a + t, kb)[|a| - 1] == Chain(b + t, kb)[|a| - 1]
    ensures Chain(a + t, kb)[|a| + i] == Chain(b + t, kb)[|a| + i]
  {
    hide XorOctet, Chain;
    ChainAt(a + t, kb, |a| + i);
    ChainAt(b + t, kb, |a| + i);
    assert (a + t)[|a| + i] == t[i] && (b + t)[|a| + i] == t[i];
    if i > 0 { SameTail(a, b, t, kb, i - 1); }
  }

  lemma {:induction false} BlocksThenTail(t: Tables, p: seq<Octet>, tail: seq<Octet>, keys: seq<Word>)
    requires |keys| % 2 == 0 && |p| % BLOCK_BYTES == 0 && |tail| < BLOCK_BYTES
    ensures Blocks(t, p + tail, keys) == Blocks(t, p, keys) + tail
    decreases |p|
  {
    hide Block;
    if p == [] {
      assert p + tail == tail && Blocks(t, p, keys) == [];
    } else {
      assert (p + tail)[..BLOCK_BYTES] == p[..BLOCK_BYTES] && (p + tail)[BLOCK_BYTES..] == p[BLOCK_BYTES..] + tail;
      BlocksThenTail(t, p[BLOCK_BYTES..], tail, keys);
    }
  }

  lemma {:induction false} ReversedTwice(keys: seq<Word>)
    requires |keys| % 2 == 0
    ensures PairsReversed(PairsReversed(keys)) == keys
    decreases |keys|
  {
    if keys != [] {
      ReversedTwice(keys[2..]);
      ReversedConcat(PairsReversed(keys[2..]), keys[..2]);
      assert PairsReversed(keys[..2]) == keys[..2];
    }
  }

  lemma {:induction false} ReversedConcat(a: seq<Word>, b: seq<Word>)
    requires |a| % 2 == 0 && |b| % 2 == 0
    ensures PairsReversed(a + b) == PairsReversed(b) + PairsReversed(a)
    decreases |a|
  {
    if a == [] {
      assert a + b == b;
    } else {
      assert (a + b)[2..] == a[2..] + b && (a + b)[..2] == a[..2];
      ReversedConcat(a[2..], b);
    }
  }

  /** Deciphering to a text means being its cipher. */
  lemma DecipheredTo(t: Tables, c: seq<Octet>, p: seq<Octet>, desKey: seq<Octet>)
    requires |desKey| == BLOCK_BYTES
    ensures Blocks(t, c, Schedule(desKey, Decipher)) == p <==> c == Blocks(t, p, Schedule(desKey, Encipher))
  {
    hide Blocks, Schedule, PairsReversed;
    ScheduleReversed(desKey);
    ReversedTwice(Schedule(desKey, Encipher));
    BlocksUndone(t, p, Schedule(desKey, Encipher));
    BlocksUndone(t, c, Schedule(desKey, Decipher));
  }

  /** The whole blocks of a buffer. */
  function WholeBlocks(s: seq<Octet>): (p: seq<Octet>)
    ensures |p| % BLOCK_BYTES == 0 && |s| - |p| < BLOCK_BYTES && |p| <= |s| && p == s[..|p|]
  {
    s[..|s| / BLOCK_BYTES * BLOCK_BYTES]
  }

  /**
   * Decoding in the order of coding restores a buffer exactly if no XOR key is set, or the buffer has no whole block,
   * or chaining and enciphering its whole blocks gives the same in either order and, if bytes follow them, enciphering
   * them does not change the XOR of all their bytes.
   */
  lemma WholeRestored(t: Tables, s: seq<Octet>, desKey: seq<Octet>, xorKey: XorKey)
    requires |desKey| == BLOCK_BYTES
    ensures var p, kb, ek := WholeBlocks(s), KeyBytes(xorKey), Schedule(desKey, Encipher);
            DecodeWhole(t, CodeWhole(t, s, desKey, xorKey), desKey, xorKey) == s
            <==> xorKey == NO_KEY || p == []
                 || (Chain(Blocks(t, p, ek), kb) == Blocks(t, Chain(p, kb), ek)
                     && (p == s || Fold(Blocks(t, p, ek)) == Fold(p)))
  {
    hide Schedule, Chain, Unchain, Blocks, Fold, KeyBytes, WholeBlocks;
    var p, ek := WholeBlocks(s), Schedule(desKey, Encipher);
    var tail := s[|p|..];
    assert s == p + tail;
    if xorKey == NO_KEY {
      DecipherUndoesEncipher(t, s, desKey);
    } else {
      var kb, dk := KeyBytes(xorKey), Schedule(desKey, Decipher);
      var e := Blocks(t, p, ek);
      BlocksThenTail(t, p, tail, ek);
      var c := Chain(e + tail, kb);
      ChainPrefix(e + tail, kb, |p|);
      assert (e + tail)[..|p|] == e;
      BlocksThenTail(t, c[..|p|], c[|p|..], dk);
      assert c == c[..|p|] + c[|p|..];
      var d := Blocks(t, Chain(e, kb), dk);
      UnchainedTo(d + c[|p|..], s, kb);
      ChainPrefix(s, kb, |p|);
      SplitEqual(d, c[|p|..], Chain(s, kb), |p|);
      DecipheredTo(t, Chain(e, kb), Chain(p, kb), desKey);
      if p != [] {
        ChainTail(e, p, tail, kb);
      } else {
        NothingToDo(t, ek, dk, kb);
      }
    }
  }

  lemma UnchainedTo(c: seq<Octet>, s: seq<Octet>, kb: seq<Octet>)
    requires |kb| == 8
    ensures Unchain(c, kb) == s <==> c == Chain(s, kb)
  {
    hide Chain, Unchain;
    ChainUnchain(c, kb);
    UnchainChain(s, kb);
  }

  lemma SplitEqual<T>(a: seq<T>, b: seq<T>, c: seq<T>, n: nat)
    requires |a| == n && n <= |c|
    ensures a + b == c <==> a == c[..n] && b == c[n..]
  {
    if a + b == c { assert (a + b)[..n] == a && (a + b)[n..] == b; }
  }

  lemma NothingToDo(t: Tables, ek: seq<Word>, dk: seq<Word>, kb: seq<Octet>)
    requires |ek| % 2 == 0 && |dk| % 2 == 0 && |kb| == 8
    ensures Blocks(t, [], ek) == [] && Chain([], kb) == [] && Blocks(t, [], dk) == []
  {
  }

  // The order matters with the tables of the codec: nine zero bytes under the zero DES key and any XOR key.

  function ZeroOctets(n: nat): (r: seq<Octet>)
    ensures |r| == n
  {
    seq(n, _ => Octet(0))
  }

  function ZeroWords(n: nat): (r: seq<Word>)
    ensures |r| == n
  {
    seq(n, _ => Word(0))
  }

  lemma {:induction false} NothingGathered(r: seq<bool>, half: nat, n: nat)
    requires |r| == KEY_BITS && half < 2 && n <= 24 && forall j :: 0 <= j < KEY_BITS ==> !r[j]
    ensures Gathered(r, half, n) == Word(0)
  {
    if n > 0 { NothingGathered(r, half, n - 1); }
  }

  lemma ZeroSchedule()
    ensures Schedule(ZeroOctets(BLOCK_BYTES), Encipher) == ZeroWords(KEY_WORDS)
  {
    hide Chosen, Rotated, Gathered;
    var key := ZeroOctets(BLOCK_BYTES);
    forall i: nat, half: nat | i < ROUNDS && half < 2
      ensures Raw(key, i, half) == Word(0)
    {
      ZeroKeyBits(key, i);
      NothingGathered(Rotated(Chosen(key), i), half, 24);
    }
    assert CookFirst(Word(0), Word(0)) == Word(0) && CookSecond(Word(0), Word(0)) == Word(0);
  }

  lemma ZeroKeyBits(key: seq<Octet>, i: nat)
    requires |key| == BLOCK_BYTES && (forall j :: 0 <= j < BLOCK_BYTES ==> key[j] == Octet(0)) && i < ROUNDS
    ensures forall j :: 0 <= j < KEY_BITS ==> !Rotated(Chosen(key), i)[j]
  {
    hide ChosenBit;
    forall l: BitOfKey
      ensures !ChosenBit(key, l)
    {
      ZeroKeyBit(key, l);
    }
  }

  lemma ZeroKeyBit(key: seq<Octet>, l: BitOfKey)
    requires |key| == BLOCK_BYTES && key[l / 8] == Octet(0)
    ensures !ChosenBit(key, l)
  {
  }

  lemma ZeroRound(l: Word, r: Word, f: Word, n: nat)
    requires n % 2 == 0 && n >= 2 && Mix(CODEC_TABLES, r, Word(0), Word(0)) == f
    ensures Rounds(CODEC_TABLES, l, r, ZeroWords(n)) == Rounds(CODEC_TABLES, r, Xor(l, f), ZeroWords(n - 2))
  {
    hide Mix, Xor;
    assert ZeroWords(n)[2..] == ZeroWords(n - 2);
  }

  // The sixteen rounds, with key words of zero.

  lemma ZeroKeyMix1()
    ensures Mix(CODEC_TABLES, Word(0x0000_0000), Word(0), Word(0)) == Word(0xb1b1_b779)
  {
  }

  lemma ZeroKeyMix2()
    ensures Mix(CODEC_TABLES, Word(0xb1b1_b779), Word(0), Word(0)) == Word(0xce75_da9f)
  {
  }

  lemma ZeroKeyMix3()
    ensures Mix(CODEC_TABLES, Word(0xce75_da9f), Word(0), Word(0)) == Word(0x0645_6035)
  {
  }

  lemma ZeroKeyMix4()
    ensures Mix(CODEC_TABLES, Word(0xb7f4_d74c), Word(0), Word(0)) == Word(0x72fe_1e31)
  {
  }

  lemma ZeroKeyMix5()
    ensures Mix(CODEC_TABLES, Word(0xbc8b_c4ae), Word(0), Word(0)) == Word(0xa1c6_208d)
  {
  }

  lemma ZeroKeyMix6()
    ensures Mix(CODEC_TABLES, Word(0x1632_f7c1), Word(0), Word(0)) == Word(0x4758_d63b)
  {
  }

  lemma ZeroKeyMix7()
    ensures Mix(CODEC_TABLES, Word(0xfbd3_1295), Word(0), Word(0)) == Word(0x258c_e179)
  {
  }

  lemma ZeroKeyMix8()
    ensures Mix(CODEC_TABLES, Word(0x33be_16b8), Word(0), Word(0)) == Word(0xdb27_3574)
  {
  }

  lemma ZeroKeyMix9()
    ensures Mix(CODEC_TABLES, Word(0x20f4_27e1), Word(0), Word(0)) == Word(0x238c_0e19)
  {
  }

  lemma ZeroKeyMix10()
    ensures Mix(CODEC_TABLES, Word(0x1032_18a1), Word(0), Word(0)) == Word(0x6b56_8519)
  {
  }

  lemma ZeroKeyMix11()
    ensures Mix(CODEC_TABLES, Word(0x4ba2_a2f8), Word(0), Word(0)) == Word(0xf7ed_3a5c)
  {
  }

  lemma ZeroKeyMix12()
    ensures Mix(CODEC_TABLES, Word(0xe7df_22fd), Word(0), Word(0)) == Word(0x6665_8cdd)
  {
  }

  lemma ZeroKeyMix13()
    ensures Mix(CODEC_TABLES, Word(0x2dc7_2e25), Word(0), Word(0)) == Word(0x5364_6469)
  {
  }

  lemma ZeroKeyMix14()
    ensures Mix(CODEC_TABLES, Word(0xb4bb_4694), Word(0), Word(0)) == Word(0x26de_7431)
  {
  }

  lemma ZeroKeyMix15()
    ensures Mix(CODEC_TABLES, Word(0x0b19_5a14), Word(0), Word(0)) == Word(0xc36f_5d11)
  {
  }

  lemma ZeroKeyMix16()
    ensures Mix(CODEC_TABLES, Word(0x77d4_1b85), Word(0), Word(0)) == Word(0x3358_55ec)
  {
  }

  lemma ZeroKeyXors()
    ensures Xor(Word(0x0000_0000), Word(0xb1b1_b779)) == Word(0xb1b1_b779)
    ensures Xor(Word(0x0000_0000), Word(0xce75_da9f)) == Word(0xce75_da9f)
    ensures Xor(Word(0xb1b1_b779), Word(0x0645_6035)) == Word(0xb7f4_d74c)
    ensures Xor(Word(0xce75_da9f), Word(0x72fe_1e31)) == Word(0xbc8b_c4ae)
    ensures Xor(Word(0xb7f4_d74c), Word(0xa1c6_208d)) == Word(0x1632_f7c1)
    ensures Xor(Word(0xbc8b_c4ae), Word(0x4758_d63b)) == Word(0xfbd3_1295)
    ensures Xor(Word(0x1632_f7c1), Word(0x258c_e179)) == Word(0x33be_16b8)
    ensures Xor(Word(0xfbd3_1295), Word(0xdb27_3574)) == Word(0x20f4_27e1)
    ensures Xor(Word(0x33be_16b8), Word(0x238c_0e19)) == Word(0x1032_18a1)
    ensures Xor(Word(0x20f4_27e1), Word(0x6b56_8519)) == Word(0x4ba2_a2f8)
    ensures Xor(Word(0x1032_18a1), Word(0xf7ed_3a5c)) == Word(0xe7df_22fd)
    ensures Xor(Word(0x4ba2_a2f8), Word(0x6665_8cdd)) == Word(0x2dc7_2e25)
    ensures Xor(Word(0xe7df_22fd), Word(0x5364_6469)) == Word(0xb4bb_4694)
    ensures Xor(Word(0x2dc7_2e25), Word(0x26de_7431)) == Word(0x0b19_5a14)
    ensures Xor(Word(0xb4bb_4694), Word(0xc36f_5d11)) == Word(0x77d4_1b85)
    ensures Xor(Word(0x0b19_5a14), Word(0x3358_55ec)) == Word(0x3841_0ff8)
  {
  }

  lemma ZeroKeyRounds()
    ensures Rounds(CODEC_TABLES, Word(0), Word(0), ZeroWords(KEY_WORDS)) == (Word(0x77d4_1b85), Word(0x3841_0ff8))
  {
    hide Mix, Xor, Rounds;
    ZeroKeyMix1();
    ZeroKeyMix2();
    ZeroKeyMix3();
    ZeroKeyMix4();
    ZeroKeyMix5();
    ZeroKeyMix6();
    ZeroKeyMix7();
    ZeroKeyMix8();
    ZeroKeyMix9();
    ZeroKeyMix10();
    ZeroKeyMix11();
    ZeroKeyMix12();
    ZeroKeyMix13();
    ZeroKeyMix14();
    ZeroKeyMix15();
    ZeroKeyMix16();
    ZeroKeyXors();
    ZeroRound(Word(0x0000_0000), Word(0x0000_0000), Word(0xb1b1_b779), 32);
    ZeroRound(Word(0x0000_0000), Word(0xb1b1_b779), Word(0xce75_da9f), 30);
    ZeroRound(Word(0xb1b1_b779), Word(0xce75_da9f), Word(0x0645_6035), 28);
    ZeroRound(Word(0xce75_da9f), Word(0xb7f4_d74c), Word(0x72fe_1e31), 26);
    ZeroRound(Word(0xb7f4_d74c), Word(0xbc8b_c4ae), Word(0xa1c6_208d), 24);
    ZeroRound(Word(0xbc8b_c4ae), Word(0x1632_f7c1), Word(0x4758_d63b), 22);
    ZeroRound(Word(0x1632_f7c1), Word(0xfbd3_1295), Word(0x258c_e179), 20);
    ZeroRound(Word(0xfbd3_1295), Word(0x33be_16b8), Word(0xdb27_3574), 18);
    ZeroRound(Word(0x33be_16b8), Word(0x20f4_27e1), Word(0x238c_0e19), 16);
    ZeroRound(Word(0x20f4_27e1), Word(0x1032_18a1), Word(0x6b56_8519), 14);
    ZeroRound(Word(0x1032_18a1), Word(0x4ba2_a2f8), Word(0xf7ed_3a5c), 12);
    ZeroRound(Word(0x4ba2_a2f8), Word(0xe7df_22fd), Word(0x6665_8cdd), 10);
    ZeroRound(Word(0xe7df_22fd), Word(0x2dc7_2e25), Word(0x5364_6469), 8);
    ZeroRound(Word(0x2dc7_2e25), Word(0xb4bb_4694), Word(0x26de_7431), 6);
    ZeroRound(Word(0xb4bb_4694), Word(0x0b19_5a14), Word(0xc36f_5d11), 4);
    ZeroRound(Word(0x0b19_5a14), Word(0x77d4_1b85), Word(0x3358_55ec), 2);
    NoRounds(CODEC_TABLES, Word(0x77d4_1b85), Word(0x3841_0ff8));
  }

  lemma NoRounds(t: Tables, l: Word, r: Word)
    ensures Rounds(t, l, r, ZeroWords(0)) == (l, r)
  {
  }

  const ZERO_CIPHER: seq<Octet> := [
    Octet(0x8c), Octet(0xa6), Octet(0x4d), Octet(0xe9), Octet(0xc1), Octet(0xb1), Octet(0x23), Octet(0xa7)]

  /** The cipher of eight zero bytes under the zero key. */
  lemma ZeroBlock()
    ensures Blocks(CODEC_TABLES, ZeroOctets(BLOCK_BYTES), ZeroWords(KEY_WORDS)) == ZERO_CIPHER
  {
    hide Rounds, ZeroWords;
    var z, keys := ZeroOctets(BLOCK_BYTES), ZeroWords(KEY_WORDS);
    assert z[..BLOCK_BYTES] == z && z[BLOCK_BYTES..] == [] && Blocks(CODEC_TABLES, [], keys) == [];
    ZeroKeyRounds();
    ZeroEnds();
  }

  lemma ZeroEnds()
    ensures Scrunch(Octet(0), Octet(0), Octet(0), Octet(0)) == Word(0)
            && Opening(Word(0), Word(0)) == (Word(0), Word(0))
    ensures var (c, d) := Closing(Word(0x77d4_1b85), Word(0x3841_0ff8));
            Unscrun(c) + Unscrun(d) == ZERO_CIPHER
  {
  }

  lemma FoldNext(s: seq<Octet>, i: nat)
    requires i < |s|
    ensures Fold(s[..0]) == Octet(0) && Fold(s[..i + 1]) == XorOctet(Fold(s[..i]), s[i])
  {
    assert s[..i + 1][..i] == s[..i];
  }

  lemma {:induction false} ZerosFold(n: nat)
    ensures Fold(ZeroOctets(n)) == Octet(0)
  {
    if n > 0 {
      assert ZeroOctets(n)[..n - 1] == ZeroOctets(n - 1);
      ZerosFold(n - 1);
    }
  }

  lemma CipherFold()
    ensures Fold(ZERO_CIPHER) == Octet(0x7a)
  {
    hide Fold;
    var s := ZERO_CIPHER;
    FoldNext(s, 0);
    FoldNext(s, 1);
    FoldNext(s, 2);
    FoldNext(s, 3);
    FoldNext(s, 4);
    FoldNext(s, 5);
    FoldNext(s, 6);
    FoldNext(s, 7);
    assert s[..8] == s;
  }

  /** Decode does not undo Code on nine zero bytes under the zero DES key, whatever XOR key is set. */
  lemma WrongOrder(xorKey: XorKey)
    requires xorKey != NO_KEY
    ensures var s, key := ZeroOctets(BLOCK_BYTES + 1), ZeroOctets(BLOCK_BYTES);
            DecodeWhole(CODEC_TABLES, CodeWhole(CODEC_TABLES, s, key, xorKey), key, xorKey) != s
  {
    hide Schedule, Chain, Blocks, Fold, KeyBytes, CodeWhole, DecodeWhole;
    var s, key := ZeroOctets(BLOCK_BYTES + 1), ZeroOctets(BLOCK_BYTES);
    WholeRestored(CODEC_TABLES, s, key, xorKey);
    assert WholeBlocks(s) == ZeroOctets(BLOCK_BYTES);
    ZeroSchedule();
    ZeroBlock();
    ZerosFold(BLOCK_BYTES);
    CipherFold();
  }

  lemma NoKeyNoCode()
    ensures forall s :: CodeMessage(NO_KEY, s) == s && DecodeMessage(NO_KEY, s) == s
  {
  }

  lemma SwitchedOff(whole: seq<Octet>, at: nat, length: nat)
    requires at + length <= |whole|
    ensures NextKey(NO_KEY, length) == NO_KEY && Within(whole, at, length, whole[at..at + length]) == whole
  {
  }

  method ChainInPlace(buffer: array<Octet>, at: nat, length: nat, key: seq<Octet>)
    requires length >= 1 && at + length <= buffer.Length && |key| == 8
    modifies buffer
    ensures buffer[..] == Within(old(buffer[..]), at, length, Chain(old(buffer[at..at + length]), key))
  {
    hide XorOctet, Chain;
    ghost var whole, s := buffer[..], buffer[at..at + length];
    ghost var done := Chain(s, key);
    ChainAt(s, key, 0);
    buffer[at] := XorOctet(buffer[at], key[0]);
    for i := 1 to length
      invariant forall k :: 0 <= k < buffer.Length && !(at <= k < at + i) ==> buffer[k] == whole[k]
      invariant forall k :: 0 <= k < i ==> buffer[at + k] == done[k]
    {
      ChainAt(s, key, i);
      assert buffer[at + i] == s[i] && buffer[at + (i - 1)] == done[i - 1];
      buffer[at + i] := XorOctet(buffer[at + i], XorOctet(buffer[at + i - 1], key[i % 8]));
    }
    Spliced(whole, buffer[..], at, length, done);
  }

  method UnchainInPlace(buffer: array<Octet>, at: nat, length: nat, key: seq<Octet>)
    requires length >= 1 && at + length <= buffer.Length && |key| == 8
    modifies buffer
    ensures buffer[..] == Within(old(buffer[..]), at, length, Unchain(old(buffer[at..at + length]), key))
  {
    hide XorOctet, Unchain;
    ghost var whole, c := buffer[..], buffer[at..at + length];
    ghost var done := Unchain(c, key);
    UnchainAt(c, key, 0);
    var prev := buffer[at];
    buffer[at] := XorOctet(buffer[at], key[0]);
    for i := 1 to length
      invariant forall k :: 0 <= k < buffer.Length && !(at <= k < at + i) ==> buffer[k] == whole[k]
      invariant prev == c[i - 1]
      invariant forall k :: 0 <= k < i ==> buffer[at + k] == done[k]
    {
      UnchainAt(c, key, i);
      assert buffer[at + i] == c[i];
      var decoded := XorOctet(XorOctet(buffer[at + i], prev), key[i % 8]);
      prev := buffer[at + i];
      buffer[at + i] := decoded;
    }
    Spliced(whole, buffer[..], at, length, done);
  }

  class AuthPacketCodec {
    const tables: Tables
    var ek: seq<Word>
    var dk: seq<Word>
    var xorEncKey: XorKey
    var xorDecKey: XorKey

    predicate Ready()
      reads this
    {
      |ek| == KEY_WORDS && |dk| == KEY_WORDS
    }

    constructor (t: Tables)
      ensures tables == t && xorEncKey == NO_KEY && xorDecKey == NO_KEY
    {
      tables := t;
      ek, dk := [], [];
      xorEncKey, xorDecKey := NO_KEY, NO_KEY;
    }

    method SetDesKey(key: seq<Octet>)
      requires |key| == BLOCK_BYTES
      modifies this`ek, this`dk
      ensures Ready() && ek == Schedule(key, Encipher) && dk == PairsReversed(ek)
    {
      hide Schedule, PairsReversed;
      ek := DesKey(key, Encipher);
      dk := DesKey(key, Decipher);
      ScheduleReversed(key);
    }

    /**
     * Any key but -1 gives both directions the same non-zero key: the constant above the key, or, as a negative key is
     * extended by its sign, ones above it.
     */
    method SetXorKey(key: int)
      requires -0x8000_0000 <= key < 0x8000_0000
      modifies this`xorEncKey, this`xorDecKey
      ensures xorEncKey == xorDecKey && (xorEncKey == NO_KEY <==> key == -1)
      ensures key >= 0 ==> xorEncKey / 0x1_0000_0000 == 0x8754_6ca1 && xorEncKey % 0x1_0000_0000 == key
      ensures key < -1 ==> xorEncKey / 0x1_0000_0000 == 0xffff_ffff && xorEncKey - KEY_SPACE == key
    {
      xorEncKey, xorDecKey := NO_KEY, NO_KEY;
      if key != -1 {
        xorEncKey := if key >= 0 then 0x8754_6ca1_0000_0000 + key else KEY_SPACE + key;
        xorDecKey := xorEncKey;
      }
    }

    method XorCodeBuf(buffer: array<Octet>, at: nat, length: nat)
      requires length >= 1 && at + length <= buffer.Length
      modifies buffer, this`xorEncKey
      ensures buffer[..]
              == Within(old(buffer[..]), at, length, CodeMessage(old(xorEncKey), old(buffer[at..at + length])))
      ensures xorEncKey == NextKey(old(xorEncKey), length)
      ensures old(xorEncKey) != NO_KEY ==> (xorEncKey - old(xorEncKey) - length) % KEY_SPACE == 0
    {
      hide KeyBytes, Chain, NextKey;
      SwitchedOff(buffer[..], at, length);
      if xorEncKey == NO_KEY {
        return;
      }
      ChainInPlace(buffer, at, length, KeyBytes(xorEncKey));
      NextKeyGrows(xorEncKey, length);
      xorEncKey := NextKey(xorEncKey, length);
    }

    method XorDecodeBuf(buffer: array<Octet>, at: nat, length: nat)
      requires length >= 1 && at + length <= buffer.Length
      modifies buffer, this`xorDecKey
      ensures buffer[..]
              == Within(old(buffer[..]), at, length, DecodeMessage(old(xorDecKey), old(buffer[at..at + length])))
      ensures xorDecKey == NextKey(old(xorDecKey), length)
      ensures old(xorDecKey) != NO_KEY ==> (xorDecKey - old(xorDecKey) - length) % KEY_SPACE == 0
    {
      hide KeyBytes, Unchain, NextKey;
      SwitchedOff(buffer[..], at, length);
      if xorDecKey == NO_KEY {
        return;
      }
      UnchainInPlace(buffer, at, length, KeyBytes(xorDecKey));
      NextKeyGrows(xorDecKey, length);
      xorDecKey := NextKey(xorDecKey, length);
    }

    method DesCode(buffer: array<Octet>, at: nat, size: nat)
      requires Ready() && at + size <= buffer.Length
      modifies buffer
      ensures buffer[..] == Within(old(buffer[..]), at, size, Blocks(tables, old(buffer[at..at + size]), ek))
    {
      hide Blocks;
      ghost var whole := buffer[..];
      CodeBlocks(tables, buffer, at, size, ek);
      assert whole[..at] == old(buffer[..at]) && whole[at + size..] == old(buffer[at + size..]);
    }

    method DesDecode(buffer: array<Octet>, at: nat, size: nat)
      requires Ready() && at + size <= buffer.Length
      modifies buffer
      ensures buffer[..] == Within(old(buffer[..]), at, size, Blocks(tables, old(buffer[at..at + size]), dk))
    {
      hide Blocks;
      ghost var whole := buffer[..];
      CodeBlocks(tables, buffer, at, size, dk);
      assert whole[..at] == old(buffer[..at]) && whole[at + size..] == old(buffer[at + size..]);
    }

    /** DES on the whole blocks, then XOR if a key is set. */
    method Code(buffer: array<Octet>, at: nat, size: nat)
      requires Ready() && size >= 1 && at + size <= buffer.Length
      modifies buffer, this`xorEncKey
      ensures buffer[..]
              == Within(old(buffer[..]), at, size,
                  CodeMessage(old(xorEncKey), Blocks(tables, old(buffer[at..at + size]), ek)))
      ensures xorEncKey == NextKey(old(xorEncKey), size)
    {
      hide Blocks, CodeMessage, NextKey, Within;
      ghost var whole, part := buffer[..], Blocks(tables, buffer[at..at + size], ek);
      DesCode(buffer, at, size);
      WithinAgain(whole, at, size, part, CodeMessage(xorEncKey, part));
      assert buffer[at..at + size] == buffer[..][at..at + size];
      if xorEncKey != NO_KEY {
        XorCodeBuf(buffer, at, size);
      } else {
        NoKeyNoCode();
        SwitchedOff(whole, at, size);
      }
    }

    /** The same two steps in the same order. */
    method Decode(buffer: array<Octet>, at: nat, size: nat)
      requires Ready() && size >= 1 && at + size <= buffer.Length
      modifies buffer, this`xorDecKey
      ensures buffer[..]
              == Within(old(buffer[..]), at, size,
                  DecodeMessage(old(xorDecKey), Blocks(tables, old(buffer[at..at + size]), dk)))
      ensures xorDecKey == NextKey(old(xorDecKey), size)
    {
      hide Blocks, DecodeMessage, NextKey, Within;
      ghost var whole, part := buffer[..], Blocks(tables, buffer[at..at + size], dk);
      DesDecode(buffer, at, size);
      WithinAgain(whole, at, size, part, DecodeMessage(xorDecKey, part));
      assert buffer[at..at + size] == buffer[..][at..at + size];
      if xorDecKey != NO_KEY {
        XorDecodeBuf(buffer, at, size);
      } else {
        NoKeyNoCode();
        SwitchedOff(whole, at, size);
      }
    }
  }

  lemma WithinAgain(s: seq<Octet>, at: nat, size: nat, part: seq<Octet>, part': seq<Octet>)
    requires at + size <= |s| && |part| == size && |part'| == size
    ensures Within(s, at, size, part)[at..at + size] == part
    ensures Within(Within(s, at, size, part), at, size, part') == Within(s, at, size, part')
  {
  }

  lemma UnchainAt(c: seq<Octet>, kb: seq<Octet>, i: nat)
    requires |kb| == 8 && i < |c|
    ensures Unchain(c, kb)[i] == if i == 0 then XorOctet(c[0], kb[0]) else XorOctet(XorOctet(c[i], c[i - 1]), kb[i % 8])
  {
    hide XorOctet;
  }

  lemma Spliced(whole: seq<Octet>, result: seq<Octet>, at: nat, length: nat, part: seq<Octet>)
    requires |whole| == |result| && at + length <= |whole| && |part| == length
    requires forall k :: 0 <= k < |whole| && !(at <= k < at + length) ==> result[k] == whole[k]
    requires forall k :: 0 <= k < length ==> result[at + k] == part[k]
    ensures result == Within(whole, at, length, part)
  {
    var w := Within(whole, at, length, part);
    forall k | 0 <= k < |whole|
      ensures result[k] == w[k]
    {
      if at <= k < at + length { assert result[at + (k - at)] == part[k - at]; }
    }
  }
}
