# switch-ldn-tool: key derivation, LDN frame codec and header repacking in Dafny

This project models the core of switch-ldn-tool, a tool for the LDN beacon frames of the
Nintendo Switch local wireless protocol. Its library decrypts a frame and can re-encrypt one
(`LdnFrameBuilder::encrypt`). Its command line only decrypts: the encrypt branch
(decrypt/src/main.rs:46-47) returns without doing anything. The model covers three parts.

- **Key derivation** (`decrypt/src/keys.rs`, module `KeyDerivation`).
  - A key file of `name = hex` lines yields three 16-byte secrets.
  - The master key unwraps a temporary key, which unwraps a key-encryption key (KEK); the KEK is handed around sealed under a fixed constant.
  - Unsealed, the KEK unwraps a source key, which unwraps the per-frame key.
  - `derive_key` first XORs a 16-byte context into the `DERIVE_WITH` constant.
- **The LDN frame codec** (`decrypt/src/ldn_frame.rs`, module `FrameCodec`).
  - A frame is a 40-byte clear header and a body of `content_length + 32` bytes. The body starts with a SHA-256 checksum.
  - The frame key is derived from the first half of SHA-256 over header bytes 0..32.
  - The body is encrypted with AES-128-CTR under a counter block made of header bytes 36..40 and twelve zero bytes.
  - `LdnFrameBuilder` skips `offset` leading bytes, transforms one frame and appends `padding` zero bytes. Encrypting also refreshes the checksum first.
- **Header repacking** (`src/header.rs`, module `Header`). Fixed-offset big- and little-endian integer reads and writes over a 32-byte block.

Supporting modules:
- `Bytes`: bytes, 16-byte blocks, XOR, and the `byteorder` reads and writes.
- `HexText`: Rust's `str::trim`, `splitn(2, "=")`, and the `hex` crate's `decode`/`encode`.
- `Wrappers`: `Option`, `Result`, `Outcome`.

The cryptographic primitives are parameters.
- AES-128 block encryption and decryption (FIPS 197) are a pair of functions in `Aes128`. The only property the proofs assume is `Inverts(aes)`: under every key, decryption undoes encryption. The key-wrapping functions (`DecryptKey`, `EncryptKey`, `SealKey`, `UnsealKey`) and the `Keys` methods built on them state their round trips as implications whose premise is `Inverts(aes)`; `GetKeyIsKeyChain` takes it as a precondition.
- SHA-256 (FIPS 180-4) is any function from byte strings to 32-byte digests.
- The AES-128-CTR keystream (NIST SP 800-38A section 6.5) is any function from (key, counter block, byte index) to a byte.

Where the Rust code changes state in place, the model is imperative.
- `Keys` and `LdnFrame` are classes. Their methods are proved equal to value-level specification functions (`ReadKeys`, `ParseFrame`, `WithChecksum`, `Transform`).
- `LdnFrameBuilder`'s `Encrypt`/`Decrypt` methods are proved equal to `EncryptedOutput`/`DecryptedOutput`.
- `derive_key` keeps its loop (`Keys.DeriveKey`).
- `aes_128_ctr_dec` hands the buffer to the `aes_ctr` crate's `apply_keystream` (decrypt/src/keys.rs:44-47). `Aes128CtrDec` writes that library call out as a loop that XORs keystream byte `i` into byte `i`.

Behaviour of the code that is easy to misread; the model follows the code:
- `get_key` builds the frame key with `generate_aes_kek(HARDCODED_SOURCE)` followed by `generate_aes_key(kek, hash)` (decrypt/src/ldn_frame.rs:80-93).
- A key-file line is split at its first `=`, so a line with several `=` is not skipped; its value is everything after the first one.
- A key value is hex-decoded before its name is looked at. An undecodable value therefore aborts loading even on a line with an unrecognised name.
- The 16-byte length check runs only after all lines, so a wrong-length value that a later line replaces is accepted.
- `LdnFrameBuilder::encrypt` and `decrypt` read the skipped prefix and write the trailing padding themselves (decrypt/src/ldn_frame.rs:34, 56-58).
- `decrypt(encrypt(frame))` gives the frame back exactly when its stored checksum is already right; otherwise the checksum comes back refreshed (`DecryptOfEncrypt`, `DecryptOfEncryptRestores`).

## Model

| member | source | states |
|---|---|---|
| Bytes.Xor | decrypt/src/keys.rs:130 | the `^` of two bytes: `x ^ 0 == x` and `x ^ x == 0` for every byte |
| Bytes.XorTwice | decrypt/src/keys.rs:129-131 | `(a ^ b) ^ b == a` for every pair of bytes |
| Bytes.XorBytes | decrypt/src/keys.rs:129-131 | byte-wise XOR: same length, byte `i` is the XOR of the inputs' bytes `i` |
| Bytes.XorZeros | decrypt/src/keys.rs:129-131 | XOR with zero bytes leaves a byte string unchanged |
| Bytes.BeToNat | src/header.rs:30-31 | a big-endian read of `k` bytes is below `256^k`, and its value modulo 256 is the last byte |
| Bytes.NatToBe | src/header.rs:55-58 | a big-endian write fills exactly `n` bytes, the value modulo 256 last |
| Bytes.LeToNat | src/header.rs:32-33 | a little-endian read of `k` bytes is below `256^k`, and its value modulo 256 is the first byte |
| Bytes.NatToLe | src/header.rs:36-39 | a little-endian write fills exactly `n` bytes, the value modulo 256 first |
| Bytes.NatToBeOfBeToNat | src/header.rs:47-58 | a big-endian read followed by a big-endian write of the same width gives the bytes back |
| Bytes.BeToNatOfNatToBe | src/header.rs:47-58 | a value that fits, written big-endian and read back, is unchanged |
| Bytes.NatToLeOfLeToNat | src/header.rs:32-39 | a little-endian read followed by a little-endian write of the same width gives the bytes back |
| Bytes.NatToLeIsReversedBe | src/header.rs:30-37 | the little-endian encoding is the big-endian encoding reversed |
| Bytes.NatToLeWiden | src/header.rs:36-37 | writing a value of `m` bytes little-endian into `m + k` bytes appends `k` zero bytes |
| Bytes.NatToBeWiden | src/header.rs:55-56 | writing a value of `m` bytes big-endian into `m + k` bytes prepends `k` zero bytes |
| Bytes.BeToNatOfZeros | src/header.rs:47-48 | zero bytes read as zero |
| HexText.TrimStart | decrypt/src/keys.rs:34 | the result is a suffix of the input, every dropped character is whitespace, and it does not start with whitespace |
| HexText.TrimEnd | decrypt/src/keys.rs:34 | the result is a prefix of the input, every dropped character is whitespace, and it does not end with whitespace |
| HexText.Trim | decrypt/src/keys.rs:103 | neither end of the trimmed string is whitespace |
| HexText.TrimOfTrimmed | decrypt/src/keys.rs:103 | a string without whitespace at either end is its own trim |
| HexText.SplitOnce | decrypt/src/keys.rs:98-101 | `None` exactly when the separator is absent; otherwise the line is name, separator, rest, and the name holds no separator |
| HexText.SplitOnceAtFirst | decrypt/src/keys.rs:98 | only the first `=` splits: everything after it, further `=` included, is the value |
| HexText.HexValue | decrypt/src/keys.rs:34 | a hexadecimal digit of either case has a value below 16 |
| HexText.HexDigit | decrypt/src/ldn_frame.rs:174 | the digit written for a value below 16 is a lower-case hexadecimal digit that reads back as that value |
| HexText.HexDigitOfValue | decrypt/src/keys.rs:34 | reading any digit, upper or lower case, and writing its value back gives that digit in lower case |
| HexText.HexDecode | decrypt/src/keys.rs:33-35 | a successful decode yields one byte per two characters |
| HexText.HexDecodeSucceeds | decrypt/src/keys.rs:33-35 | decoding succeeds exactly on even-length strings of hexadecimal digits |
| HexText.HexDecodeAt | decrypt/src/keys.rs:33-35 | decoded byte `i` is the value of digits `2i` (high nibble) and `2i + 1` |
| HexText.HexEncode | decrypt/src/ldn_frame.rs:173-175 | the encoding has two lower-case hexadecimal digits per byte |
| HexText.PairValueOfDigits | decrypt/src/ldn_frame.rs:173-175 | the two digits written for a byte read back as that byte |
| HexText.HexDecodeOfEncode | decrypt/src/ldn_frame.rs:173-175 | decoding an encoding gives the bytes back |
| KeyDerivation.Vec2Key | decrypt/src/keys.rs:20-24 | the fixed-size key holds the 16 bytes of the vector, in order |
| KeyDerivation.DecodeHexKey | decrypt/src/keys.rs:33-35 | decoding succeeds exactly when the trimmed text is a hexadecimal string, and then yields one byte per two digits |
| KeyDerivation.DecodeHexAesKey | decrypt/src/keys.rs:37-42 | succeeds exactly when the trimmed text decodes to at least 16 bytes, and then gives the first 16 |
| KeyDerivation.Aes128CtrDec | decrypt/src/keys.rs:44-47 | the buffer afterwards is its old contents with keystream byte `i` XORed into byte `i` |
| KeyDerivation.KeystreamBytes | decrypt/src/keys.rs:44-47 | the first `n` keystream bytes, byte `i` at index `i` |
| KeyDerivation.CtrApply | decrypt/src/keys.rs:44-47 | the counter-mode transform keeps the length |
| KeyDerivation.CtrApplyTwice | decrypt/src/keys.rs:44-47 | applying the counter-mode transform twice with the same key and nonce restores the data |
| KeyDerivation.DeriveWithZeroXor | decrypt/src/keys.rs:127-131 | an all-zero context leaves `DERIVE_WITH` unchanged |
| KeyDerivation.DecryptKey | decrypt/src/keys.rs:49-57 | given that AES decryption inverts encryption, a block wrapped under `key` comes back as that block |
| KeyDerivation.EncryptKey | decrypt/src/keys.rs:59-67 | given that AES decryption inverts encryption, `decrypt_key` under the same key undoes the wrapping |
| KeyDerivation.SealKey | decrypt/src/keys.rs:69-71 | given that AES decryption inverts encryption, `unseal_key(seal_key(k)) == k` for every key |
| KeyDerivation.UnsealKey | decrypt/src/keys.rs:73-75 | given that AES decryption inverts encryption, a key sealed under `SEAL_KEY_SOURCE` comes back as that key |
| KeyDerivation.ErrorMessage | decrypt/src/keys.rs:87-93 | the `check_len!` message starts with the name of the field and goes on after it; a decoding failure carries the text passed to `expect`, "Decoding failed" |
| KeyDerivation.ErrorMessagesDiffer | decrypt/src/keys.rs:87-93 | different errors carry different messages |
| KeyDerivation.Store | decrypt/src/keys.rs:103-108 | exactly the field whose entry name equals the trimmed name is replaced; any other name changes nothing |
| KeyDerivation.ApplyLine | decrypt/src/keys.rs:97-109 | a line without `=` changes nothing; the line fails exactly when its value does not decode, and then with `DecodingFailed`; otherwise a field is replaced exactly when the line names it |
| KeyDerivation.ApplyLines | decrypt/src/keys.rs:97-109 | the loop over the lines can fail only with `DecodingFailed` |
| KeyDerivation.AllDecodableSucceeds | decrypt/src/keys.rs:97-109 | a file whose every value decodes gets through the whole loop |
| KeyDerivation.ApplyLinesSucceeds | decrypt/src/keys.rs:97-109 | the loop gets through every line exactly when no line carries an undecodable value |
| KeyDerivation.CheckLengths | decrypt/src/keys.rs:110-112 | passes exactly when all three fields hold 16 bytes; a failure names a field of another length, and every field checked before it has 16 bytes |
| KeyDerivation.ReadKeys | decrypt/src/keys.rs:97-113 | the load succeeds exactly when the line loop gets through (by `ApplyLinesSucceeds`, when every line decodes) and the resulting three fields hold 16 bytes |
| KeyDerivation.ApplyLinesStopsAtFailure | decrypt/src/keys.rs:102 | after a line fails to decode, the later lines do not matter |
| KeyDerivation.UndecodableLineAborts | decrypt/src/keys.rs:102-108 | an undecodable value anywhere makes the load fail with `DecodingFailed`, whatever name its line carries |
| KeyDerivation.LastAssignmentWins | decrypt/src/keys.rs:103-108 | a field holds the decoded value of the last line that names it |
| KeyDerivation.UnassignedFieldKept | decrypt/src/keys.rs:103-108 | a field no line names keeps its previous value |
| KeyDerivation.Keys.constructor | decrypt/src/keys.rs:79-85 | a new key set holds three empty fields |
| KeyDerivation.Keys.ReadFromFile | decrypt/src/keys.rs:86-114 | the loop over the lines returns what `ReadKeys` specifies and leaves the fields it specifies; success means all three are 16 bytes |
| KeyDerivation.Keys.GenerateAesKek | decrypt/src/keys.rs:115-121 | unsealing the result gives the KEK unwrapped by the temporary key, which the master key unwrapped |
| KeyDerivation.Keys.GenerateAesKey | decrypt/src/keys.rs:122-126 | given that AES decryption inverts encryption, for an access key that is a sealed KEK, the key is `key_source` unwrapped by the source key, which the KEK unwrapped |
| KeyDerivation.Keys.KeyChain | decrypt/src/keys.rs:115-126 | given that AES decryption inverts encryption, `generate_aes_key(generate_aes_kek(w), s)` is four chained decryptions: the seal at line 120 is cancelled by the unseal at line 123 |
| KeyDerivation.Keys.DeriveKey | decrypt/src/keys.rs:127-135 | the loop XORs the context into `DERIVE_WITH` over all 16 bytes, and the key is `generate_aes_key(generate_aes_kek(DERIVE_WITH ^ xor), s)`, that is, the chain of decryptions |
| FrameCodec.ContentLength | decrypt/src/ldn_frame.rs:167-169 | `256 * h[34] + h[35]`, below 65536 |
| FrameCodec.S32_16 | decrypt/src/ldn_frame.rs:105-109 | the half holds digest bytes 0..16 |
| FrameCodec.Sha256_16 | decrypt/src/ldn_frame.rs:120-122 | the first 16 bytes of the SHA-256 of the data |
| FrameCodec.Nonce | decrypt/src/ldn_frame.rs:164-166 | the nonce is header bytes 36..40 |
| FrameCodec.CtrNonce | decrypt/src/ldn_frame.rs:212-215 | the counter block is header bytes 36..40 followed by 12 zero bytes |
| FrameCodec.SsidStr | decrypt/src/ldn_frame.rs:173-175 | 32 hexadecimal digits that decode back to header bytes 16..32 |
| FrameCodec.ParseFrame | decrypt/src/ldn_frame.rs:185-190 | parsing succeeds exactly when the input holds 40 header bytes and the `content_length + 32` body bytes they declare; otherwise it fails with `UnexpectedEof` |
| FrameCodec.ParsedFrame | decrypt/src/ldn_frame.rs:160-169 | a parsed frame is well formed, has a body of at most 65567 bytes, and is exactly the input prefix it was read from |
| FrameCodec.Serialize | decrypt/src/ldn_frame.rs:191-195 | the written bytes are the header, then the content |
| FrameCodec.ParseOfSerialize | decrypt/src/ldn_frame.rs:191-195 | parsing a written frame, whatever follows it, gives the frame back |
| FrameCodec.Checksum | decrypt/src/ldn_frame.rs:202-211 | the checksum is SHA-256 over the frame as written with its checksum field zeroed |
| FrameCodec.ChecksumIgnoresStoredField | decrypt/src/ldn_frame.rs:202-211 | the calculated checksum does not depend on content bytes 0..32 |
| FrameCodec.WithChecksum | decrypt/src/ldn_frame.rs:199-201 | setting the checksum replaces content bytes 0..32 with the hash; header, length and content bytes 32.. are unchanged |
| FrameCodec.RefreshChecksum | decrypt/src/ldn_frame.rs:46-52 | afterwards the stored checksum equals the calculated one, whichever branch ran; only bytes 0..32 can change; the frame is left as it is exactly when its checksum was already right |
| FrameCodec.RefreshChecksumIdempotent | decrypt/src/ldn_frame.rs:46-52 | repeating the checksum step changes nothing |
| FrameCodec.RefreshedInPlace | decrypt/src/ldn_frame.rs:46-58 | writing a frame back with its checksum refreshed, between the bytes before it and any trailing bytes, reproduces the input up to the frame's end exactly when the stored checksum was right |
| FrameCodec.Transform | decrypt/src/ldn_frame.rs:212-216 | the transform never changes the header or the content length |
| FrameCodec.TransformTwice | decrypt/src/ldn_frame.rs:212-219 | transforming twice with the same key restores the frame |
| FrameCodec.LdnFrame.constructor | decrypt/src/ldn_frame.rs:179-184 | a new frame has a zeroed 40-byte header and empty content |
| FrameCodec.LdnFrame.ReadFromFile | decrypt/src/ldn_frame.rs:185-190 | the read succeeds exactly when `ParseFrame` does, and the header and new content array then hold the parsed frame; a failure is `UnexpectedEof` |
| FrameCodec.LdnFrame.Sha256 | decrypt/src/ldn_frame.rs:196-198 | the stored checksum is content bytes 0..32 |
| FrameCodec.LdnFrame.CalculateSha256 | decrypt/src/ldn_frame.rs:202-211 | SHA-256 over the header array, 32 zero bytes and the content array from byte 32 on |
| FrameCodec.LdnFrame.SetSha256 | decrypt/src/ldn_frame.rs:199-201 | the content is overwritten in place as `WithChecksum` specifies |
| FrameCodec.LdnFrame.Decrypt | decrypt/src/ldn_frame.rs:212-216 | the content is transformed in place under the counter block from the header nonce |
| FrameCodec.LdnFrame.Encrypt | decrypt/src/ldn_frame.rs:217-219 | encryption has exactly the effect of decryption |
| FrameCodec.LdnFrameBuilder.constructor | decrypt/src/ldn_frame.rs:24-31 | a new builder holds the key set with zero offset and padding |
| FrameCodec.LdnFrameBuilder.GetKey | decrypt/src/ldn_frame.rs:80-93 | no contract of its own; `GetKeyIsKeyChain` and `GetKeyIgnoresLengthAndNonce` state what key it gives |
| FrameCodec.LdnFrameBuilder.GetKeyIsKeyChain | decrypt/src/ldn_frame.rs:80-93 | the frame key is the chain of decryptions for `HARDCODED_SOURCE` and the first 16 bytes of SHA-256 over header bytes 0..32 |
| FrameCodec.LdnFrameBuilder.GetKeyIgnoresLengthAndNonce | decrypt/src/ldn_frame.rs:80-84 | two headers that agree on bytes 0..32 give the same key, whatever their length and nonce fields hold |
| FrameCodec.LdnFrameBuilder.ReadOffset | decrypt/src/ldn_frame.rs:94-102 | succeeds exactly when the input has `offset` bytes, and yields exactly those bytes; otherwise `UnexpectedEof` |
| FrameCodec.LdnFrameBuilder.EncryptFrame | decrypt/src/ldn_frame.rs:44-54 | the encrypted frame is well formed with the same header |
| FrameCodec.LdnFrameBuilder.DecryptFrame | decrypt/src/ldn_frame.rs:72-73 | the decrypted frame is well formed with the same header |
| FrameCodec.LdnFrameBuilder.DecryptFrameOfEncryptFrame | decrypt/src/ldn_frame.rs:44-73 | decrypting an encrypted frame gives the frame with its checksum refreshed |
| FrameCodec.LdnFrameBuilder.EncryptedOutput | decrypt/src/ldn_frame.rs:32-60 | encryption produces output exactly when the offset and one whole frame can be read; otherwise it fails with `UnexpectedEof` |
| FrameCodec.LdnFrameBuilder.DecryptedOutput | decrypt/src/ldn_frame.rs:61-79 | decryption produces output exactly when the offset and one whole frame can be read; otherwise it fails with `UnexpectedEof` |
| FrameCodec.LdnFrameBuilder.Encrypt | decrypt/src/ldn_frame.rs:32-60 | read offset, parse, key, checksum refresh, in-place encryption, then the skipped bytes, the frame and the padding: the result `EncryptedOutput` specifies |
| FrameCodec.LdnFrameBuilder.Decrypt | decrypt/src/ldn_frame.rs:61-79 | the same pipeline without the checksum step: the result `DecryptedOutput` specifies |
| FrameCodec.LdnFrameBuilder.EncryptedOutputLayout | decrypt/src/ldn_frame.rs:56-58 | the encrypted output is the skipped bytes and the unchanged header, then a body of the declared length, then `padding` zero bytes |
| FrameCodec.LdnFrameBuilder.DecryptedOutputLayout | decrypt/src/ldn_frame.rs:75-77 | the decrypted output has the same layout |
| FrameCodec.LdnFrameBuilder.DecryptOfEncrypt | decrypt/src/ldn_frame.rs:32-79 | decrypting the encrypted output gives the skipped bytes, the input frame with its checksum refreshed, and the padding |
| FrameCodec.LdnFrameBuilder.DecryptOfEncryptRestores | decrypt/src/ldn_frame.rs:32-79 | decrypting the encrypted output gives the input back byte for byte, up to the end of the frame and then the padding, exactly when the frame's stored checksum was right |
| Header.BeReadLeWrite | src/header.rs:30-37 | a big-endian read written little-endian into a wider field is the bytes reversed, then zeros |
| Header.TransformHeader | src/header.rs:29-41 | the output buffer has 32 bytes; its per-byte content is stated by `TransformHeaderLayout` |
| Header.TransformHeaderFields | src/header.rs:30-39 | each write of `transform_header` puts back the bytes its read came from: the big-endian fields reversed and followed by zeros, the little-endian ones unchanged |
| Header.TransformHeaderLayout | src/header.rs:29-41 | `transform_header` output: 0..4 is input 0..4 reversed, 4..8 zero, 8..10 is input 9 then 8, 10..16 zero, 16..32 equal to the input |
| Header.TransformHeaderIgnoresGaps | src/header.rs:29-41 | input bytes 4..8 and 10..16 do not affect the output |
| Header.FromFrame | src/header.rs:45-52 | a header is read exactly when at least 32 bytes are given |
| Header.ToBytes | src/header.rs:53-60 | the output buffer has 32 bytes; its per-byte content is stated by `ToBytesLayout` |
| Header.ToBytesLayout | src/header.rs:53-60 | `to_bytes` leaves 0..4, 8..10 and 12..16 zero, puts `unk1` big-endian at 4..8 and `unk2` at 10..12, then `unk3` and `unk4` |
| Header.ToBytesOfFromFrame | src/header.rs:45-60 | `from_frame` then `to_bytes` moves input 0..4 to 4..8 and 8..10 to 10..12, zeroes the rest of 0..16, and reproduces 16..32 |
| Header.ToBytesOfFromFrameRoundTrip | src/header.rs:45-60 | `from_frame` then `to_bytes` gives the first 32 bytes back exactly when bytes 0..16 are all zero |
| Header.FromFrameOfToBytes | src/header.rs:45-60 | `to_bytes` then `from_frame` keeps `unk3` and `unk4` but reads `unk1` and `unk2` as zero |

## Left out

- AES-128, SHA-256 and the CTR keystream are parameters with no internals. The only property assumed is that AES decryption inverts encryption under each key. The golden-value test `test_generate_keys` (decrypt/src/keys.rs:145-153) needs real AES and a secret key file, so it is not modelled.
- File and stream I/O are replaced by byte sequences and lines:
  - opening files, `BufReader::lines`, `read_exact`, `write`
  - a key file is its sequence of lines
  - an input file is its sequence of bytes
  - the builder returns the bytes it would write
- KeyDerivation.Keys.ReadFromFile: a line that fails to read (`Some(Err(_))`) ends the source's loop silently. The model has no read errors, and a failing `File::open` is not modelled.
- KeyDerivation.Keys.ReadFromFile: the source panics with "Decoding failed" on an undecodable value; the model returns `Fail(DecodingFailed)`.
- KeyDerivation.DecodeHexAesKey: the source panics when fewer than 16 bytes decode; the model returns `None`.
- KeyDerivation.Vec2Key: the `copy_from_slice` panic on a length other than 16 becomes a precondition. Every caller has the precondition from `Loaded()`, and a successful load establishes `Loaded()`.
- Header.FromFrame: the slice panic on fewer than 32 bytes becomes `None`.
- FrameCodec.LdnFrame.ReadFromFile: the header and content left behind by a failed `read_exact` are not stated, because the source leaves them unspecified.
- FrameCodec.LdnFrameBuilder.ReadOffset: `offset` is an unbounded `nat`, so the `u64` to `usize` cast is not modelled; `padding` is a `nat` too.
- FrameCodec.LdnFrameBuilder.Encrypt: a failing `write` to the output file cannot happen in the model.
- Output the tool only prints is not modelled: the verbose printing, the "checksum mismatch" messages and the `Debug` impl of the header (decrypt/src/ldn_frame.rs:137-153). `ssid_str` is modelled only as its hex encoding.
- decrypt/src/main.rs is not part of this model. It is command-line glue.
- src/main.rs is not part of this model. It is an older command-line tool duplicating `s32_16` and `sha256`.
- src/keys.rs is not part of this model. It is an earlier stub replaced by decrypt/src/keys.rs.
- send_broadcast/main.c is not part of this model. It is a packet-sending loop.
- `Bytes.byte` is an integer in 0..255, and XOR is defined bit by bit (`Bytes.XorBits`) rather than as a machine operation.
