/** The MC4 cheat codec: `encrypt_data` turns a plaintext XML cheat file into the
    Base64-wrapped AES-256-CBC container (".mc4"), and `decrypt_data` turns a
    container back into plaintext, both under one fixed key and IV. */
module Mc4Codec {
  import opened ByteSeqs
  import opened Primitives
  import Pkcs7

  /** `MC4_AES256CBC_KEY`: the 32 ASCII bytes "304c6528f659c766110239a51cl5dd9c",
      used as raw key bytes. */
  const Mc4Key: Key := [
    0x33, 0x30, 0x34, 0x63, 0x36, 0x35, 0x32, 0x38, 0x66, 0x36, 0x35, 0x39, 0x63, 0x37, 0x36, 0x36,
    0x31, 0x31, 0x30, 0x32, 0x33, 0x39, 0x61, 0x35, 0x31, 0x63, 0x6c, 0x35, 0x64, 0x64, 0x39, 0x63
  ]

  /** `MC4_AES256CBC_IV`: the 16 ASCII bytes "u@}kzW2u[u(8DWar". */
  const Mc4Iv: Block := [
    0x75, 0x40, 0x7d, 0x6b, 0x7a, 0x57, 0x32, 0x75, 0x5b, 0x75, 0x28, 0x38, 0x44, 0x57, 0x61, 0x72
  ]

  /** The key and IV are the ASCII bytes of the source's two literals, and have
      the lengths AES-256 and CBC require. */
  lemma FixedKeyMaterial()
    ensures Mc4Key == Latin1("304c6528f659c766110239a51cl5dd9c") && |Mc4Key| == 32
    ensures Mc4Iv == Latin1("u@}kzW2u[u(8DWar") && |Mc4Iv| == BlockSize
  {
  }

  /** `encrypt_data(data)`: PKCS#7-pad to 16 bytes, encrypt, Base64-encode. The
      padded buffer is always whole blocks, so the cipher never fails; the result
      is the Base64 text of the CBC encryption of the padded plaintext, or, if
      Base64 encoding reports an error, the plaintext `data` unchanged. Under
      lawful primitives the container decodes to a ciphertext that ends on the
      first block boundary past the end of `data`. */
  function EncryptData(aes: Aes256, b64: Base64, data: Bytes): (r: Result<Bytes>)
    ensures r.Ok?
    ensures var cipherText := CbcEncrypt(aes, Mc4Key, Mc4Iv, Pkcs7.Pad(data, BlockSize));
      && (b64.encode(cipherText).Some? ==> r.value == b64.encode(cipherText).value)
      && (b64.encode(cipherText).None? ==> r.value == data)
    ensures Aes256Lawful(aes) && Base64Lawful(b64) ==>
      && b64.decode(r.value).Some?
      && |b64.decode(r.value).value| == (|data| / BlockSize + 1) * BlockSize
  {
    var padded := Pkcs7.Pad(data, BlockSize);
    match Encrypt(aes, Mc4Key, Mc4Iv, padded)
    case Err(e) => Err(e)
    case Ok(encrypted) =>
      match b64.encode(encrypted)
      case None => Ok(data)
      case Some(text) => Ok(text)
  }

  /** `decrypt_data(data)`: Base64-decode, decrypt, strip padding leniently.
      Input Base64 rejects comes back unchanged; a decoded buffer that is not
      whole blocks is the cipher's hard error; otherwise the decrypted buffer
      comes back without its padding when that padding is well formed, and
      whole when it is not. */
  function DecryptData(aes: Aes256, b64: Base64, data: Bytes): (r: Result<Bytes>)
    ensures b64.decode(data).None? ==> r == Ok(data)
    ensures r.Err? <==> b64.decode(data).Some? && |b64.decode(data).value| % BlockSize != 0
    ensures b64.decode(data).Some? && |b64.decode(data).value| % BlockSize == 0 ==>
      var plain := CbcDecrypt(aes, Mc4Key, Mc4Iv, b64.decode(data).value);
      && r.Ok?
      && r.value <= plain
      && (Pkcs7.ValidPadding(plain) ==> |r.value| == |plain| - plain[|plain| - 1])
      && (!Pkcs7.ValidPadding(plain) ==> r.value == plain)
  {
    match b64.decode(data)
    case None => Ok(data)
    case Some(binData) =>
      match Decrypt(aes, Mc4Key, Mc4Iv, binData)
      case Err(e) => Err(e)
      case Ok(decrypted) => Ok(Pkcs7.Unpad(decrypted))
  }

  /** The container format: under lawful primitives the container Base64-decodes
      to the CBC encryption, under the fixed key and IV, of the plaintext
      PKCS#7-padded to 16 bytes, and CBC decryption of it yields that padded
      plaintext. */
  lemma ContainerPayload(aes: Aes256, b64: Base64, data: Bytes)
    requires Aes256Lawful(aes) && Base64Lawful(b64)
    ensures b64.decode(EncryptData(aes, b64, data).value) == Some(CbcEncrypt(aes, Mc4Key, Mc4Iv, Pkcs7.Pad(data, BlockSize)))
    ensures CbcDecrypt(aes, Mc4Key, Mc4Iv, b64.decode(EncryptData(aes, b64, data).value).value) == Pkcs7.Pad(data, BlockSize)
  {
    CbcDecryptEncrypt(aes, Mc4Key, Mc4Iv, Pkcs7.Pad(data, BlockSize));
  }

  /** Decoding an encoded cheat file gives the plaintext back, for every
      plaintext, whenever the AES-256 block function and Base64 behave lawfully. */
  lemma CodecRoundTrip(aes: Aes256, b64: Base64, data: Bytes)
    requires Aes256Lawful(aes) && Base64Lawful(b64)
    ensures DecryptData(aes, b64, EncryptData(aes, b64, data).value) == Ok(data)
  {
    var padded := Pkcs7.Pad(data, BlockSize);
    Primitives.DecryptEncrypt(aes, Mc4Key, Mc4Iv, padded);
    Pkcs7.UnpadPad(data, BlockSize);
  }
}
