/** The two library primitives the codec calls: AES-256 in CBC mode (the
    cryptographic library's `AES.new(key, AES.MODE_CBC, IV=iv)` with
    `encrypt`/`decrypt`) and Base64 (section 4 of RFC 4648, `base64.b64encode`
    and `base64.b64decode`). The AES block function and Base64 are kept abstract,
    as records of functions; CBC chaining is written out as section 6.2 of NIST
    SP 800-38A defines it. What the codec relies on of the abstract parts is
    stated as "lawful" predicates that the lemmas take as preconditions. */
module Primitives {
  import opened ByteSeqs

  /** The AES block size: CBC only accepts whole blocks. */
  const BlockSize: nat := 16

  type Block = b: Bytes | |b| == BlockSize witness Repeat(0, 16)

  /** An AES-256 key. */
  type Key = k: Bytes | |k| == 32 witness Repeat(0, 32)

  datatype Option<T> = None | Some(value: T)

  /** The hard error the library raises when asked to run CBC over a buffer that
      is not a whole number of blocks. */
  datatype CipherError = BlockAlignment

  datatype Result<T> = Ok(value: T) | Err(error: CipherError)

  /** The AES-256 block function in both directions. */
  datatype Aes256 = Aes256(encryptBlock: (Key, Block) -> Block, decryptBlock: (Key, Block) -> Block)

  /** What the codec assumes of AES-256: under one key, decrypting a block
      undoes encrypting it. */
  ghost predicate Aes256Lawful(aes: Aes256) {
    forall k: Key, b: Block :: aes.decryptBlock(k, aes.encryptBlock(k, b)) == b
  }

  /** Byte-wise exclusive or of two blocks. */
  function Xor(a: Block, b: Block): (r: Block)
    ensures forall i :: 0 <= i < BlockSize ==> r[i] == XorByte(a[i], b[i])
  {
    seq(BlockSize, i requires 0 <= i < BlockSize => XorByte(a[i], b[i]))
  }

  /** Exclusive or with the same block twice is the identity. */
  lemma XorXor(a: Block, b: Block)
    ensures Xor(Xor(a, b), b) == a
  {
    forall i | 0 <= i < BlockSize ensures Xor(Xor(a, b), b)[i] == a[i] {
      XorByteTwice(a[i], b[i]);
    }
  }

  /** CBC encryption of whole blocks, chaining from `prev` (the IV, then each
      ciphertext block): every block is XORed with the previous ciphertext
      block and encrypted. */
  function CbcEncrypt(aes: Aes256, key: Key, prev: Block, plain: Bytes): (c: Bytes)
    requires |plain| % BlockSize == 0
    ensures |c| == |plain|
    decreases |plain|
  {
    if |plain| == 0 then []
    else
      var block := aes.encryptBlock(key, Xor(plain[..BlockSize], prev));
      block + CbcEncrypt(aes, key, block, plain[BlockSize..])
  }

  /** CBC decryption of whole blocks: every block is decrypted and XORed with
      the previous ciphertext block (the IV for the first). */
  function CbcDecrypt(aes: Aes256, key: Key, prev: Block, cipherText: Bytes): (p: Bytes)
    requires |cipherText| % BlockSize == 0
    ensures |p| == |cipherText|
    decreases |cipherText|
  {
    if |cipherText| == 0 then []
    else
      var block: Block := cipherText[..BlockSize];
      Xor(aes.decryptBlock(key, block), prev) + CbcDecrypt(aes, key, block, cipherText[BlockSize..])
  }

  /** CBC decryption under the same key and IV inverts CBC encryption. */
  lemma {:induction false} CbcDecryptEncrypt(aes: Aes256, key: Key, prev: Block, plain: Bytes)
    requires Aes256Lawful(aes)
    requires |plain| % BlockSize == 0
    ensures CbcDecrypt(aes, key, prev, CbcEncrypt(aes, key, prev, plain)) == plain
    decreases |plain|
  {
    if |plain| != 0 {
      var first: Block := plain[..BlockSize];
      var block := aes.encryptBlock(key, Xor(first, prev));
      var rest := CbcEncrypt(aes, key, block, plain[BlockSize..]);
      var c: Bytes := block + rest;
      assert c[..BlockSize] == block && c[BlockSize..] == rest;
      XorXor(first, prev);
      CbcDecryptEncrypt(aes, key, block, plain[BlockSize..]);
      assert plain == first + plain[BlockSize..];
    }
  }

  /** `cipher.encrypt(plain)` on a fresh CBC cipher: fails exactly when `plain`
      is not a whole number of blocks, and otherwise keeps the length. */
  function Encrypt(aes: Aes256, key: Key, iv: Block, plain: Bytes): (r: Result<Bytes>)
    ensures r.Err? <==> |plain| % BlockSize != 0
    ensures r.Ok? ==> |r.value| == |plain|
  {
    if |plain| % BlockSize != 0 then Err(BlockAlignment) else Ok(CbcEncrypt(aes, key, iv, plain))
  }

  /** `cipher.decrypt(cipherText)` on a fresh CBC cipher: fails exactly when
      `cipherText` is not a whole number of blocks, and otherwise keeps the length. */
  function Decrypt(aes: Aes256, key: Key, iv: Block, cipherText: Bytes): (r: Result<Bytes>)
    ensures r.Err? <==> |cipherText| % BlockSize != 0
    ensures r.Ok? ==> |r.value| == |cipherText|
  {
    if |cipherText| % BlockSize != 0 then Err(BlockAlignment) else Ok(CbcDecrypt(aes, key, iv, cipherText))
  }

  /** On whole blocks, decryption under the same key and IV undoes encryption. */
  lemma DecryptEncrypt(aes: Aes256, key: Key, iv: Block, plain: Bytes)
    requires Aes256Lawful(aes)
    requires |plain| % BlockSize == 0
    ensures Encrypt(aes, key, iv, plain).Ok?
    ensures Decrypt(aes, key, iv, Encrypt(aes, key, iv, plain).value) == Ok(plain)
  {
    CbcDecryptEncrypt(aes, key, iv, plain);
  }

  /** A Base64 codec: encoding (which may report an error) and decoding (which
      fails on input it rejects). */
  datatype Base64 = Base64(encode: Bytes -> Option<Bytes>, decode: Bytes -> Option<Bytes>)

  /** What the codec assumes of Base64: encoding never fails on bytes, and
      decoding the encoding gives the bytes back. Which inputs decoding rejects
      is left open. */
  ghost predicate Base64Lawful(b64: Base64) {
    forall d: Bytes :: b64.encode(d).Some? && b64.decode(b64.encode(d).value) == Some(d)
  }

  /** The laws are consistent: the identity transforms satisfy them. */
  lemma LawsAreSatisfiable()
    ensures Aes256Lawful(Aes256((k, b) => b, (k, b) => b))
    ensures Base64Lawful(Base64(d => Some(d), t => Some(t)))
  {
  }
}
