/** PKCS#7 padding (section 10.3 of RFC 2315) as `pkcs7_pad` applies it, and the
    lenient removal `pkcs7_unpad` performs, which leaves malformed padding in place. */
module Pkcs7 {
  import opened ByteSeqs
  import Primitives

  /** The largest padding length `pkcs7_unpad` accepts: one AES block. */
  const MaxPad: nat := 16

  /** The number of padding bytes `pkcs7_pad` appends to `len` bytes of data:
      it reaches the next multiple of the block size strictly above `len`. */
  function PadLength(len: nat, blockSize: nat): (n: nat)
    requires blockSize > 0
    ensures 1 <= n <= blockSize
    ensures len + n == (len / blockSize + 1) * blockSize
    ensures (len + n) % blockSize == 0
    ensures len % blockSize == 0 ==> n == blockSize
    ensures len % blockSize != 0 ==> n == blockSize - len % blockSize
  {
    var p := blockSize - len % blockSize;
    NextMultiple(len / blockSize, len % blockSize, blockSize);
    // `p` is never 0, so this branch of the source cannot be taken
    if p == 0 then blockSize else p
  }

  /** The arithmetic behind `PadLength`, on the quotient and remainder of the length. */
  lemma NextMultiple(q: nat, m: nat, blockSize: nat)
    requires m < blockSize
    ensures q * blockSize + m + (blockSize - m) == (q + 1) * blockSize
    ensures ((q + 1) * blockSize) % blockSize == 0
    ensures ((q + 1) * blockSize) / blockSize == q + 1
  {
    assert (q + 1) * blockSize == q * blockSize + blockSize;
    DivModUnique((q + 1) * blockSize, blockSize, q + 1, 0);
  }

  /** Euclidean division has one quotient and remainder. */
  lemma DivModUnique(x: int, b: int, q: int, m: int)
    requires b > 0 && 0 <= m < b && x == q * b + m
    ensures x / b == q && x % b == m
  {
    var q', m' := x / b, x % b;
    assert (q - q') * b == m' - m by {
      assert q * b - q' * b == (q - q') * b;
    }
    NonzeroMultiple(q - q', b);
  }

  /** A nonzero multiple of `b` is at least `b` away from zero. */
  lemma NonzeroMultiple(k: int, b: int)
    requires b > 0
    ensures k >= 1 ==> k * b >= b
    ensures k <= -1 ==> k * b <= -b
  {
    if k >= 1 {
      assert k * b == (k - 1) * b + b;
    } else if k <= -1 {
      assert k * b == (k + 1) * b - b;
    }
  }

  /** `pkcs7_pad(data, blockSize)`: `data` followed by `n` bytes of value `n`,
      where `n` brings the length to the next multiple of the block size
      (a whole block when `data` is already aligned). */
  function Pad(data: Bytes, blockSize: nat): (r: Bytes)
    requires 0 < blockSize < 256
    ensures |r| % blockSize == 0
    ensures |r| == (|data| / blockSize + 1) * blockSize
    ensures |data| < |r| <= |data| + blockSize
    ensures |data| % blockSize == 0 ==> |r| == |data| + blockSize
    ensures |data| % blockSize != 0 ==> |r| == |data| + blockSize - |data| % blockSize
    ensures r[..|data|] == data
    ensures forall i :: |data| <= i < |r| ==> r[i] == |r| - |data|
  {
    var n := PadLength(|data|, blockSize);
    var r := data + Repeat(n as byte, n);
    assert |r| == |data| + n;
    assert r[..|data|] == data;
    r
  }

  /** Well-formed padding as `pkcs7_unpad` recognises it: the last byte `n` lies
      in [1, MaxPad] and each of the last `n` bytes equals `n`. */
  predicate ValidPadding(d: Bytes) {
    && |d| > 0
    && 1 <= d[|d| - 1] <= MaxPad
    && d[|d| - 1] <= |d|
    && forall i :: |d| - d[|d| - 1] <= i < |d| ==> d[i] == d[|d| - 1]
  }

  /** `pkcs7_unpad(data)`: strips well-formed padding, and returns `data` unchanged
      when it is empty, when its last byte is 0 or above 16, or when its last `n`
      bytes are not all `n` (including when `data` is shorter than `n`). */
  function Unpad(data: Bytes): (r: Bytes)
    ensures r <= data
    ensures ValidPadding(data) ==> |r| == |data| - data[|data| - 1]
    ensures !ValidPadding(data) ==> r == data
    ensures |data| - MaxPad <= |r| <= |data|
  {
    if |data| == 0 then data
    else
      var padLen := data[|data| - 1];
      if padLen < 1 || padLen > MaxPad as int then data
      else
        EndsWithRepeat(data, padLen, padLen);
        if EndsWith(data, Repeat(padLen, padLen)) then data[..|data| - padLen]
        else data
  }

  /** Removing the padding `Pad` added gives back the data, for every block size
      up to `MaxPad`; in particular `pkcs7_unpad(pkcs7_pad(d, 16)) == d`. */
  lemma UnpadPad(data: Bytes, blockSize: nat)
    requires 0 < blockSize <= MaxPad
    ensures Unpad(Pad(data, blockSize)) == data
  {
    var padded := Pad(data, blockSize);
    assert padded[|padded| - 1] == |padded| - |data|;
    assert ValidPadding(padded);
  }

  /** Conversely, padding the result of `Unpad` with the AES block size the
      codec pads with (which equals `MaxPad`) rebuilds a block-aligned buffer
      exactly when its padding was well formed. */
  lemma PadUnpad(d: Bytes)
    requires |d| % Primitives.BlockSize == 0
    ensures ValidPadding(d) <==> Pad(Unpad(d), Primitives.BlockSize) == d
  {
    var bs := Primitives.BlockSize;
    if ValidPadding(d) {
      var n := d[|d| - 1];
      var u := Unpad(d);
      StrippedPadLength(|d|, n, bs);
      var p := Pad(u, bs);
      assert |p| == |d|;
      forall i | 0 <= i < |d| ensures p[i] == d[i] {
        if i < |u| {
          assert p[..|u|][i] == p[i];
        }
      }
    } else {
      assert Unpad(d) == d;
      assert |Pad(d, bs)| > |d|;
    }
  }

  /** Stripping `n` bytes, `1 <= n <= blockSize`, from an aligned length leaves
      a length that padding extends by exactly `n` again. */
  lemma StrippedPadLength(len: nat, n: nat, blockSize: nat)
    requires blockSize > 0 && len % blockSize == 0 && 1 <= n <= blockSize && n <= len
    ensures PadLength(len - n, blockSize) == n
  {
    var q := len / blockSize;
    assert q >= 1;
    assert len - n == (q - 1) * blockSize + (blockSize - n) by {
      assert q * blockSize == (q - 1) * blockSize + blockSize;
    }
    if n < blockSize {
      DivModUnique(len - n, blockSize, q - 1, blockSize - n);
    } else {
      DivModUnique(len - n, blockSize, q - 1, 0);
    }
  }

  /** `pkcs7_pad` takes any block size but `pkcs7_unpad` strips at most `MaxPad`
      bytes: whenever a larger block size makes `Pad` append more than that, the
      padding is left in place. */
  lemma UnpadKeepsLongPad(data: Bytes, blockSize: nat)
    requires MaxPad < blockSize < 256 && PadLength(|data|, blockSize) > MaxPad
    ensures Unpad(Pad(data, blockSize)) == Pad(data, blockSize)
  {
    var padded := Pad(data, blockSize);
    assert padded[|padded| - 1] == |padded| - |data|;
  }
}
