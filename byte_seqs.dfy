/** Byte strings as Python's `bytes` values: sequences of integers in [0, 255],
    with the two `bytes` operations the codec relies on. */
module ByteSeqs {

  /** One element of a Python `bytes` object. */
  type byte = b: int | 0 <= b < 256

  type Bytes = seq<byte>

  /** `bytes([b]) * n` and `bytes([b] * n)`: `n` copies of the byte `b`. */
  function Repeat(b: byte, n: nat): (r: Bytes)
    ensures |r| == n
    ensures forall i :: 0 <= i < n ==> r[i] == b
  {
    seq(n, _ => b)
  }

  /** `s.endswith(suffix)`: the last `|suffix|` bytes of `s` are `suffix`,
      byte for byte; false whenever `suffix` is longer than `s`. */
  predicate EndsWith(s: Bytes, suffix: Bytes): (r: bool)
    ensures r <==> |suffix| <= |s| && forall i :: 0 <= i < |suffix| ==> s[|s| - |suffix| + i] == suffix[i]
  {
    |suffix| <= |s| && s[|s| - |suffix|..] == suffix
  }

  /** The bytes of a string literal whose characters are all below 256, as in
      a Python `b"..."` literal. */
  function Latin1(s: string): (r: Bytes)
    requires forall i :: 0 <= i < |s| ==> s[i] as int < 256
    ensures |r| == |s|
    ensures forall i :: 0 <= i < |s| ==> r[i] == s[i] as int
  {
    seq(|s|, i requires 0 <= i < |s| => s[i] as int as byte)
  }

  /** `s` ends with `n` copies of `b` exactly when each of its last `n` bytes is `b`. */
  lemma EndsWithRepeat(s: Bytes, b: byte, n: nat)
    ensures EndsWith(s, Repeat(b, n)) <==> n <= |s| && forall i :: |s| - n <= i < |s| ==> s[i] == b
  {
    if n <= |s| && forall i :: |s| - n <= i < |s| ==> s[i] == b {
      assert s[|s| - n..] == Repeat(b, n);
    }
  }

  function Pow2(k: nat): nat {
    if k == 0 then 1 else 2 * Pow2(k - 1)
  }

  /** Exclusive or of the low `k` bits of `x` and `y`, bit by bit from the
      least significant one. */
  function XorBits(x: nat, y: nat, k: nat): (r: nat)
    ensures r < Pow2(k)
    decreases k
  {
    if k == 0 then 0 else (x % 2 + y % 2) % 2 + 2 * XorBits(x / 2, y / 2, k - 1)
  }

  /** Exclusive or with the same value twice gives back a `k`-bit value. */
  lemma {:induction false} XorBitsTwice(x: nat, y: nat, k: nat)
    requires x < Pow2(k)
    ensures XorBits(XorBits(x, y, k), y, k) == x
    decreases k
  {
    if k > 0 {
      var b, c := x % 2, y % 2;
      var rest := XorBits(x / 2, y / 2, k - 1);
      var r := (b + c) % 2 + 2 * rest;
      LowBit(x);
      LowBitOf((b + c) % 2, rest);
      assert x / 2 < Pow2(k - 1);
      XorBitsTwice(x / 2, y / 2, k - 1);
      ParityTwice(b, c);
    }
  }

  /** A natural number is its lowest bit plus twice the rest. */
  lemma LowBit(x: nat)
    ensures x == x % 2 + 2 * (x / 2) && x % 2 < 2
  {
  }

  lemma LowBitOf(b: nat, rest: nat)
    requires b < 2
    ensures (b + 2 * rest) % 2 == b && (b + 2 * rest) / 2 == rest
  {
  }

  lemma ParityTwice(b: nat, c: nat)
    requires b < 2 && c < 2
    ensures ((b + c) % 2 + c) % 2 == b
  {
  }

  /** Exclusive or of two bytes. */
  function XorByte(x: byte, y: byte): byte {
    XorBits(x, y, 8)
  }

  /** Exclusive or with the same byte twice is the identity. */
  lemma XorByteTwice(x: byte, y: byte)
    ensures XorByte(XorByte(x, y), y) == x
  {
    assert Pow2(8) == 256;
    XorBitsTwice(x, y, 8);
  }
}
