# MC4 cheat codec — a verified Dafny model

The MC4 cheat tool converts game-cheat files between plaintext XML and the
".mc4" distribution container: PKCS#7 padding to 16-byte blocks (section 10.3 of
RFC 2315), AES-256 in CBC mode under one fixed key and IV, and Base64 text
(section 4 of RFC 4648). This project models the codec in
`mc4_cheat_decrypter.py` as pure Dafny functions and proves its properties:

- `byte_seqs.dfy` — module `ByteSeqs`: Python `bytes` as sequences of integers
  in [0, 255], with `bytes([b]) * n` (`Repeat`) and `endswith` (`EndsWith`).
- `pkcs7.dfy` — module `Pkcs7`: `pkcs7_pad` (`Pad`) and the lenient
  `pkcs7_unpad` (`Unpad`), specified against an independent definition of
  well-formed padding (`ValidPadding`), with round-trips in both directions.
- `primitives.dfy` — module `Primitives`: AES-256 in CBC mode and Base64. The
  AES-256 block function and Base64 are abstract records of functions; CBC
  chaining over 16-byte blocks is written out as section 6.2 of NIST SP 800-38A
  defines it, so that CBC keeps the length and CBC decryption inverts CBC
  encryption are proved. What the codec assumes is stated as the predicates
  `Aes256Lawful` (under one key, block decryption undoes block encryption) and
  `Base64Lawful` (encoding never fails and decoding undoes it). The library's
  refusal of a buffer that is not a whole number of blocks is modelled as
  `Err(BlockAlignment)`.
- `mc4_codec.dfy` — module `Mc4Codec`: the fixed key and IV, `encrypt_data`
  (`EncryptData`), `decrypt_data` (`DecryptData`) and the whole-codec
  round-trip.

Python exceptions that the source lets propagate (the cipher's block-alignment
error) become `Err` results; the two `try`/`except` fallbacks become branches
that return the input. The cipher and Base64 are parameters of the pipelines,
and the laws are preconditions of the lemmas that need them, never axioms;
`Primitives.LawsAreSatisfiable` shows the laws can hold.

The fallback of `encrypt_data` when Base64 encoding fails returns the plaintext
argument `data` (`mc4_cheat_decrypter.py:101-105`), not the ciphertext about to
be encoded; the model follows the code.

## Model

| member | source | states |
|---|---|---|
| ByteSeqs.Repeat | mc4_cheat_decrypter.py:81 | `bytes([b] * n)` (and `bytes([b]) * n` at line 41) has length `n` and every element equal to `b` |
| ByteSeqs.EndsWith | mc4_cheat_decrypter.py:41 | `s.endswith(suffix)` holds exactly when `suffix` is no longer than `s` and matches the last bytes of `s` byte for byte |
| ByteSeqs.EndsWithRepeat | mc4_cheat_decrypter.py:41 | `data.endswith(bytes([n]) * n)` holds exactly when `data` has at least `n` bytes and each of its last `n` bytes is `n`; false when `data` is shorter than `n` |
| Pkcs7.PadLength | mc4_cheat_decrypter.py:78-80 | the padding length is in [1, block size], brings the length to the next multiple of the block size strictly above it, is a whole block on aligned input and `bs - len % bs` otherwise, so the `pad_len == 0` branch is never taken |
| Pkcs7.Pad | mc4_cheat_decrypter.py:73-81 | the padded length is a multiple of the block size, the next one above `len(data)`, 1 to `bs` bytes longer (exactly `bs` when aligned, `bs - len % bs` otherwise); `data` is an exact prefix and every appended byte equals the number of bytes appended |
| Pkcs7.Unpad | mc4_cheat_decrypter.py:27-44 | the result is a prefix of the input, at most 16 bytes shorter; when the padding is well formed (last byte `n` in [1, 16], last `n` bytes all `n`) exactly `n` bytes are removed; otherwise (empty input, `n` of 0 or above 16, a mismatching or too short trailing run) the input comes back unchanged |
| Pkcs7.UnpadPad | mc4_cheat_decrypter.py:27-81 | for every byte string and every block size from 1 to 16, unpadding the padded data gives the data back; in particular `pkcs7_unpad(pkcs7_pad(d, 16)) == d` |
| Pkcs7.PadUnpad | mc4_cheat_decrypter.py:27-81 | on a buffer aligned to the 16-byte AES block, padding the unpadded buffer with the block size 16 the codec uses rebuilds it exactly when its padding is well formed |
| Pkcs7.UnpadKeepsLongPad | mc4_cheat_decrypter.py:38-39 | for every input and every block size from 17 to 255, whenever `pkcs7_pad` appends more than 16 bytes `pkcs7_unpad` leaves the padding in place, since it strips at most 16 bytes |
| Primitives.CbcEncrypt | mc4_cheat_decrypter.py:97-98 | CBC encryption of whole blocks chained from the IV keeps the length |
| Primitives.CbcDecrypt | mc4_cheat_decrypter.py:64-65 | CBC decryption of whole blocks chained from the IV keeps the length |
| Primitives.CbcDecryptEncrypt | mc4_cheat_decrypter.py:64-65 | on whole blocks, CBC decryption under the key and IV used to encrypt gives the plaintext back, given only that AES block decryption inverts block encryption |
| Primitives.Encrypt | mc4_cheat_decrypter.py:97-98 | CBC encryption with a fresh cipher fails exactly when the buffer is not a whole number of 16-byte blocks, and otherwise keeps the length |
| Primitives.Decrypt | mc4_cheat_decrypter.py:64-65 | CBC decryption with a fresh cipher fails exactly when the buffer is not a whole number of 16-byte blocks, and otherwise keeps the length |
| Mc4Codec.FixedKeyMaterial | mc4_cheat_decrypter.py:13-14 | the key and IV are the ASCII bytes of the literals `304c6528f659c766110239a51cl5dd9c` and `u@}kzW2u[u(8DWar`, 32 and 16 bytes long; no proof depends on their values |
| Mc4Codec.EncryptData | mc4_cheat_decrypter.py:83-111 | encoding never fails, because the buffer handed to the cipher is always block aligned; the result is the Base64 encoding of the CBC encryption, under the fixed key and IV, of the plaintext PKCS#7-padded to 16 bytes, or the plaintext unchanged when Base64 encoding reports an error; under the laws the container decodes to a ciphertext ending on the first 16-byte boundary past the plaintext |
| Mc4Codec.DecryptData | mc4_cheat_decrypter.py:46-71 | input Base64 rejects comes back unchanged; the only error is a decoded length that is not a multiple of 16; otherwise the result is the decrypted buffer with well-formed padding removed, or the whole decrypted buffer when the padding is malformed |
| Mc4Codec.ContainerPayload | mc4_cheat_decrypter.py:92-102 | under lawful primitives the container Base64-decodes to the CBC encryption, under the fixed key and IV, of the plaintext PKCS#7-padded to 16 bytes, and CBC-decrypts to that padded plaintext |
| Mc4Codec.CodecRoundTrip | mc4_cheat_decrypter.py:46-111 | for every plaintext, decoding its encoding gives it back, given a lawful AES-256 block function and Base64 |

## Left out

- The AES-256 block function (key schedule and rounds) is not modelled; `Primitives.Aes256` is any pair of block transforms, and `Aes256Lawful` states the one property the proofs assume, that block decryption inverts block encryption under the same key.
- The library rejects keys whose length is not 16, 24 or 32 bytes; the model types the key as 32 bytes, the length of the fixed key.
- The internals of Base64 encoding and decoding are not modelled; in particular the decoder's habit of discarding characters outside the alphabet is not captured, and which inputs it rejects is left open.
- `Pkcs7.Pad` requires a block size in [1, 255]: with 0 the source divides by zero, a negative block size gives Python's floored remainder, and from 256 on `bytes([pad_len])` raises for some lengths; the codec only ever pads with 16.
- The progress messages printed by `encrypt_data` and `decrypt_data`, which do not affect the returned bytes.
- File reading and writing, argument parsing, the existence check on the input path, the exit status and the output file name (`read_buffer`, `write_buffer`, `main`).
- The concrete values of the key and IV are written out but no proof depends on them; only their lengths (32 and 16 bytes) matter.
