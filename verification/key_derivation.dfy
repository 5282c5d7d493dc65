/**
 * Hierarchical AES-128 key derivation and the key-file loader
 * (decrypt/src/keys.rs): a master key unwraps a temporary key, which unwraps
 * a key-encryption key (KEK), which is sealed under a fixed constant; the
 * unsealed KEK unwraps a source key, which unwraps the frame key.
 */
module KeyDerivation {
  import opened Wrappers
  import opened Bytes
  import opened HexText

  type AesKey = Block
  type KeySource = Block

  const SEAL_KEY_SOURCE: AesKey :=
    [0xF4, 0x0C, 0x16, 0x26, 0x0D, 0x46, 0x3B, 0xE0, 0x8C, 0x6A, 0x56, 0xE5, 0x82, 0xD4, 0x1B, 0xF6]

  const DERIVE_WITH: Block :=
    [0xDA, 0xD8, 0xFC, 0x8E, 0x2D, 0x04, 0xAD, 0x06, 0x72, 0xAF, 0x4B, 0x5B, 0x48, 0x53, 0x25, 0xA1]

  /**
   * AES-128 single-block encryption and decryption (FIPS 197), left abstract:
   * each maps a key and a block to a block.
   */
  datatype Aes128 = Aes128(encryptBlock: (AesKey, Block) -> Block, decryptBlock: (AesKey, Block) -> Block)

  /** The one property of AES the model relies on: under any key, decryption undoes encryption. */
  ghost predicate Inverts(aes: Aes128) {
    forall key: AesKey, b: Block :: aes.decryptBlock(key, aes.encryptBlock(key, b)) == b
  }

  /** The AES-128-CTR keystream (NIST SP 800-38A section 6.5), left abstract: byte `i` for a key and an initial counter block. */
  type Keystream = (AesKey, Block, nat) -> byte

  /** `vec2key`: a loaded key of exactly 16 bytes as a fixed-size key (`copy_from_slice` panics on any other length). */
  function Vec2Key(v: seq<byte>): (key: AesKey)
    requires |v| == 16
    ensures forall i :: 0 <= i < 16 ==> key[i] == v[i]
  {
    v
  }

  /** `decode_hex_key`: the trimmed text hex-decoded; `None` where the source panics with "Decoding failed". */
  function DecodeHexKey(key: string): (r: Option<seq<byte>>)
    ensures r.Some? <==> IsHexString(Trim(key))
    ensures r.Some? ==> |r.value| * 2 == |Trim(key)|
  {
    HexDecodeSucceeds(Trim(key));
    HexDecode(Trim(key))
  }

  /** `decode_hex_aeskey`: the first 16 decoded bytes; `None` where the source panics. */
  function DecodeHexAesKey(key: string): (r: Option<AesKey>)
    ensures r.Some? <==> DecodeHexKey(key).Some? && |DecodeHexKey(key).value| >= 16
    ensures r.Some? ==> r.value == DecodeHexKey(key).value[..16]
  {
    match DecodeHexKey(key)
    case None => None
    case Some(bin) => if |bin| < 16 then None else Some(bin[..16])
  }

  /**
   * `aes_128_ctr_dec`: XOR the keystream for `key` and `nonce` into `data`
   * in place, byte `i` with keystream byte `i`.
   */
  method Aes128CtrDec(data: array<byte>, key: AesKey, nonce: Block, keystream: Keystream)
    modifies data
    ensures data[..] == CtrApply(keystream, key, nonce, old(data[..]))
  {
    var i := 0;
    while i < data.Length
      invariant 0 <= i <= data.Length
      invariant forall k :: 0 <= k < i ==> data[k] == Xor(old(data[k]), keystream(key, nonce, k))
      invariant forall k :: i <= k < data.Length ==> data[k] == old(data[k])
    {
      data[i] := Xor(data[i], keystream(key, nonce, i));
      i := i + 1;
    }
  }

  /** The first `n` keystream bytes for `key` and `nonce`. */
  function KeystreamBytes(keystream: Keystream, key: AesKey, nonce: Block, n: nat): (ks: seq<byte>)
    ensures |ks| == n
    ensures forall i :: 0 <= i < n ==> ks[i] == keystream(key, nonce, i)
  {
    if n == 0 then [] else KeystreamBytes(keystream, key, nonce, n - 1) + [keystream(key, nonce, n - 1)]
  }

  /** The value `aes_128_ctr_dec` leaves in a buffer that held `data`. */
  function CtrApply(keystream: Keystream, key: AesKey, nonce: Block, data: seq<byte>): (r: seq<byte>)
    ensures |r| == |data|
  {
    XorBytes(data, KeystreamBytes(keystream, key, nonce, |data|))
  }

  /** Counter mode is its own inverse: applying the same keystream twice restores the data. */
  lemma CtrApplyTwice(keystream: Keystream, key: AesKey, nonce: Block, data: seq<byte>)
    ensures CtrApply(keystream, key, nonce, CtrApply(keystream, key, nonce, data)) == data
  {
    var once := CtrApply(keystream, key, nonce, data);
    var twice := CtrApply(keystream, key, nonce, once);
    forall i | 0 <= i < |data|
      ensures twice[i] == data[i]
    {
      XorTwice(data[i], keystream(key, nonce, i));
    }
  }

  /** An all-zero context leaves `DERIVE_WITH` unchanged as the wrapped KEK of `derive_key`. */
  lemma DeriveWithZeroXor()
    ensures XorBytes(DERIVE_WITH, Zeros(16)) == DERIVE_WITH
  {
    XorZeros(DERIVE_WITH);
  }

  /** `decrypt_key`: AES-128 decryption of one block under `key`; a block wrapped under `key` comes back unwrapped. */
  function DecryptKey(aes: Aes128, key: AesKey, wrappedKey: AesKey): (unwrapped: AesKey)
    ensures Inverts(aes) ==> forall b: Block :: wrappedKey == aes.encryptBlock(key, b) ==> unwrapped == b
  {
    aes.decryptBlock(key, wrappedKey)
  }

  /** `encrypt_key`: AES-128 encryption of one block under `key`, which `decrypt_key` under the same key undoes. */
  function EncryptKey(aes: Aes128, key: AesKey, block: AesKey): (wrapped: AesKey)
    ensures Inverts(aes) ==> DecryptKey(aes, key, wrapped) == block
  {
    aes.encryptBlock(key, block)
  }

  /** `seal_key`: encryption under `SEAL_KEY_SOURCE`; `unseal_key` gives the key back. */
  function SealKey(aes: Aes128, key: AesKey): (sealed: AesKey)
    ensures Inverts(aes) ==> UnsealKey(aes, sealed) == key
  {
    EncryptKey(aes, SEAL_KEY_SOURCE, key)
  }

  /** `unseal_key`: decryption under `SEAL_KEY_SOURCE`; a key encrypted under that constant comes back. */
  function UnsealKey(aes: Aes128, key: AesKey): (unsealed: AesKey)
    ensures Inverts(aes) ==> forall k: AesKey :: key == EncryptKey(aes, SEAL_KEY_SOURCE, k) ==> unsealed == k
  {
    DecryptKey(aes, SEAL_KEY_SOURCE, key)
  }

  // ---------------------------------------------------------------------------
  // The key file: lines of `name = hex`.

  /** The three entries `read_from_file` stores. */
  datatype KeyField = AesKekGenerationSource | AesKeyGenerationSource | MasterKey

  /** The entry name a key-file line must carry to set a field. */
  function EntryName(field: KeyField): string {
    match field
    case AesKekGenerationSource => "aes_kek_generation_source"
    case AesKeyGenerationSource => "aes_key_generation_source"
    case MasterKey => "master_key_00"
  }

  /** The struct field name the length check reports (`stringify!($field)`). */
  function FieldName(field: KeyField): string {
    match field
    case AesKekGenerationSource => "aes_kek_generation_source"
    case AesKeyGenerationSource => "aes_key_generation_source"
    case MasterKey => "master_key"
  }

  /** The order in which the length check visits the fields. */
  function CheckOrder(field: KeyField): nat {
    match field
    case AesKekGenerationSource => 0
    case AesKeyGenerationSource => 1
    case MasterKey => 2
  }

  /** `DecodingFailed` is the panic of `expect("Decoding failed")`; `LengthNot16` the `io::Error` of `check_len!`. */
  datatype KeyError = DecodingFailed | LengthNot16(field: KeyField)

  /**
   * The text the error carries: the message handed to `expect` (the panic
   * appends the decoder's error after it, which is not modelled), or the name
   * of the field with the wrong length.
   */
  function ErrorMessage(e: KeyError): (msg: string)
    ensures e.DecodingFailed? ==> msg == "Decoding failed"
    ensures e.LengthNot16? ==> |FieldName(e.field)| < |msg| && msg[..|FieldName(e.field)|] == FieldName(e.field)
  {
    match e
    case DecodingFailed => "Decoding failed"
    case LengthNot16(field) => FieldName(field) + " length is not 16"
  }

  /** Different errors carry different messages. */
  lemma ErrorMessagesDiffer(e1: KeyError, e2: KeyError)
    requires e1 != e2
    ensures ErrorMessage(e1) != ErrorMessage(e2)
  {
    var m1, m2 := ErrorMessage(e1), ErrorMessage(e2);
    if e1.LengthNot16? && e2.LengthNot16? {
      assert m1[6] != m2[6] || m1[8] != m2[8];
    } else {
      assert m1[0] != m2[0];
    }
  }

  /** The three byte strings a `Keys` holds. */
  datatype KeyFields = KeyFields(aesKekGenerationSource: seq<byte>, aesKeyGenerationSource: seq<byte>, masterKey: seq<byte>)
  {
    function Get(field: KeyField): seq<byte> {
      match field
      case AesKekGenerationSource => aesKekGenerationSource
      case AesKeyGenerationSource => aesKeyGenerationSource
      case MasterKey => masterKey
    }

    /** All three hold 16 bytes, as `vec2key` requires. */
    predicate Loaded() {
      |aesKekGenerationSource| == 16 && |aesKeyGenerationSource| == 16 && |masterKey| == 16
    }
  }

  /** The `match split[0].trim()` of `read_from_file`: a recognised name replaces its field, any other changes nothing. */
  function Store(fields: KeyFields, name: string, key: seq<byte>): (r: KeyFields)
    ensures forall field :: r.Get(field) == if name == EntryName(field) then key else fields.Get(field)
  {
    if name == "aes_kek_generation_source" then fields.(aesKekGenerationSource := key)
    else if name == "aes_key_generation_source" then fields.(aesKeyGenerationSource := key)
    else if name == "master_key_00" then fields.(masterKey := key)
    else fields
  }

  /** The line carries an `=` and the trimmed text before the first one names `field`. */
  predicate Assigns(line: string, field: KeyField) {
    var parts := SplitOnce(line, '=');
    parts.Some? && Trim(parts.value.0) == EntryName(field)
  }

  /** The line carries an `=` and the text after the first one does not hex-decode. */
  predicate Undecodable(line: string) {
    var parts := SplitOnce(line, '=');
    parts.Some? && DecodeHexKey(parts.value.1).None?
  }

  /** One pass of the `while let` loop of `read_from_file`. */
  function ApplyLine(fields: KeyFields, line: string): (r: Result<KeyFields, KeyError>)
    ensures '=' !in line ==> r == Success(fields)
    ensures r.Failure? <==> Undecodable(line)
    ensures r.Failure? ==> r.error == DecodingFailed
    ensures r.Success? ==> forall field ::
      r.value.Get(field) == if Assigns(line, field) then DecodeHexKey(SplitOnce(line, '=').value.1).value else fields.Get(field)
  {
    match SplitOnce(line, '=')
    case None => Success(fields)
    case Some(parts) =>
      match DecodeHexKey(parts.1)
      case None => Failure(DecodingFailed)
      case Some(key) => Success(Store(fields, Trim(parts.0), key))
  }

  /** The whole loop: the lines in order, stopping at the first undecodable value. */
  function ApplyLines(fields: KeyFields, lines: seq<string>): (r: Result<KeyFields, KeyError>)
    ensures r.Failure? ==> r.error == DecodingFailed
  {
    if |lines| == 0 then Success(fields)
    else match ApplyLines(fields, lines[..|lines| - 1])
      case Failure(e) => Failure(e)
      case Success(g) => ApplyLine(g, lines[|lines| - 1])
  }

  /** The three `check_len!` calls, in order. */
  function CheckLengths(fields: KeyFields): (r: Outcome<KeyError>)
    ensures r.Pass? <==> fields.Loaded()
    ensures r.Fail? ==> r.error.LengthNot16? && |fields.Get(r.error.field)| != 16
    ensures r.Fail? ==> forall field :: CheckOrder(field) < CheckOrder(r.error.field) ==> |fields.Get(field)| == 16
  {
    if |fields.aesKekGenerationSource| != 16 then Fail(LengthNot16(AesKekGenerationSource))
    else if |fields.aesKeyGenerationSource| != 16 then Fail(LengthNot16(AesKeyGenerationSource))
    else if |fields.masterKey| != 16 then Fail(LengthNot16(MasterKey))
    else Pass
  }

  /** What `read_from_file` returns, starting from the fields a `Keys` already holds. */
  function ReadKeys(fields: KeyFields, lines: seq<string>): (r: Outcome<KeyError>)
    ensures r.Pass? <==> ApplyLines(fields, lines).Success? && ApplyLines(fields, lines).value.Loaded()
  {
    match ApplyLines(fields, lines)
    case Failure(e) => Fail(e)
    case Success(g) => CheckLengths(g)
  }

  /** One more line is one more loop pass. */
  lemma ApplyLinesStep(fields: KeyFields, lines: seq<string>, i: nat)
    requires i < |lines| && ApplyLines(fields, lines[..i]).Success?
    ensures ApplyLines(fields, lines[..i + 1]) == ApplyLine(ApplyLines(fields, lines[..i]).value, lines[i])
  {
    assert lines[..i + 1][..i] == lines[..i];
  }

  /** Once a line fails to decode, the later lines are never looked at. */
  lemma {:induction false} ApplyLinesStopsAtFailure(fields: KeyFields, lines: seq<string>, i: nat)
    requires i <= |lines|
    requires ApplyLines(fields, lines[..i]).Failure?
    ensures ApplyLines(fields, lines) == ApplyLines(fields, lines[..i])
    decreases |lines|
  {
    if i < |lines| {
      var init := lines[..|lines| - 1];
      assert init[..i] == lines[..i];
      ApplyLinesStopsAtFailure(fields, init, i);
    } else {
      assert lines[..i] == lines;
    }
  }

  /** An undecodable value aborts the load, whatever name the line carries. */
  lemma {:induction false} UndecodableLineAborts(fields: KeyFields, lines: seq<string>, j: nat)
    requires j < |lines| && Undecodable(lines[j])
    ensures ApplyLines(fields, lines) == Failure(DecodingFailed)
  {
    var prefix := lines[..j + 1];
    assert prefix[..j] == lines[..j];
    assert prefix[j] == lines[j];
    ApplyLinesStopsAtFailure(fields, lines, j + 1);
    if ApplyLines(fields, lines[..j]).Success? {
      assert ApplyLines(fields, prefix) == Failure(DecodingFailed);
    } else {
      ApplyLinesStopsAtFailure(fields, lines, j);
    }
  }

  /** A file whose every value decodes gets through the whole loop. */
  lemma {:induction false} AllDecodableSucceeds(fields: KeyFields, lines: seq<string>)
    requires forall k :: 0 <= k < |lines| ==> !Undecodable(lines[k])
    ensures ApplyLines(fields, lines).Success?
  {
    if |lines| > 0 {
      var init := lines[..|lines| - 1];
      assert forall k :: 0 <= k < |init| ==> init[k] == lines[k];
      AllDecodableSucceeds(fields, init);
    }
  }

  /** The loop gets through every line exactly when no line has an undecodable value. */
  lemma ApplyLinesSucceeds(fields: KeyFields, lines: seq<string>)
    ensures ApplyLines(fields, lines).Success? <==> forall k :: 0 <= k < |lines| ==> !Undecodable(lines[k])
  {
    if forall k :: 0 <= k < |lines| ==> !Undecodable(lines[k]) {
      AllDecodableSucceeds(fields, lines);
    } else {
      var k :| 0 <= k < |lines| && Undecodable(lines[k]);
      UndecodableLineAborts(fields, lines, k);
    }
  }

  /** The last line that names a field decides its value. */
  lemma {:induction false} LastAssignmentWins(fields: KeyFields, lines: seq<string>, j: nat, field: KeyField)
    requires j < |lines| && Assigns(lines[j], field)
    requires forall k :: j < k < |lines| ==> !Assigns(lines[k], field)
    requires ApplyLines(fields, lines).Success?
    ensures DecodeHexKey(SplitOnce(lines[j], '=').value.1) == Some(ApplyLines(fields, lines).value.Get(field))
    decreases |lines|
  {
    var init := lines[..|lines| - 1];
    if j < |lines| - 1 {
      assert init[j] == lines[j];
      LastAssignmentWins(fields, init, j, field);
    }
  }

  /** A field no line names keeps the value it had before the load. */
  lemma {:induction false} UnassignedFieldKept(fields: KeyFields, lines: seq<string>, field: KeyField)
    requires forall k :: 0 <= k < |lines| ==> !Assigns(lines[k], field)
    requires ApplyLines(fields, lines).Success?
    ensures ApplyLines(fields, lines).value.Get(field) == fields.Get(field)
    decreases |lines|
  {
    if |lines| > 0 {
      var init := lines[..|lines| - 1];
      UnassignedFieldKept(fields, init, field);
    }
  }

  /** The key set: three byte strings loaded from a key file. */
  class Keys {
    var aesKekGenerationSource: seq<byte>
    var aesKeyGenerationSource: seq<byte>
    var masterKey: seq<byte>

    function Fields(): KeyFields
      reads this
    {
      KeyFields(aesKekGenerationSource, aesKeyGenerationSource, masterKey)
    }

    predicate Loaded()
      reads this
    {
      Fields().Loaded()
    }

    /** `Keys::new`: all three fields empty. */
    constructor ()
      ensures Fields() == KeyFields([], [], [])
    {
      aesKekGenerationSource := [];
      aesKeyGenerationSource := [];
      masterKey := [];
    }

    /**
     * `read_from_file` on the lines of the file: each line with an `=` is
     * split at its first `=`, the value decoded, and a recognised name
     * stores it; then the three lengths are checked.
     */
    method ReadFromFile(lines: seq<string>) returns (r: Outcome<KeyError>)
      modifies this
      ensures r == ReadKeys(old(Fields()), lines)
      ensures ApplyLines(old(Fields()), lines).Success? ==> Fields() == ApplyLines(old(Fields()), lines).value
      ensures r.Pass? ==> Loaded()
    {
      ghost var start := Fields();
      var i := 0;
      assert lines[..0] == [];
      while i < |lines|
        invariant 0 <= i <= |lines|
        invariant ApplyLines(start, lines[..i]) == Success(Fields())
      {
        var line := lines[i];
        ghost var before := Fields();
        ApplyLinesStep(start, lines, i);
        match SplitOnce(line, '=') {
          case None =>
          case Some(split) =>
            var key := DecodeHexKey(split.1);
            if key.None? {
              ApplyLinesStopsAtFailure(start, lines, i + 1);
              return Fail(DecodingFailed);
            }
            var name := Trim(split.0);
            if name == "aes_kek_generation_source" {
              aesKekGenerationSource := key.value;
              assert Fields() == before.(aesKekGenerationSource := key.value);
            } else if name == "aes_key_generation_source" {
              aesKeyGenerationSource := key.value;
              assert Fields() == before.(aesKeyGenerationSource := key.value);
            } else if name == "master_key_00" {
              masterKey := key.value;
              assert Fields() == before.(masterKey := key.value);
            }
            assert Fields() == Store(before, name, key.value);
        }
        assert ApplyLine(before, line) == Success(Fields());
        assert ApplyLines(start, lines[..i + 1]) == Success(Fields());
        i := i + 1;
      }
      assert lines[..i] == lines;
      if |aesKekGenerationSource| != 16 {
        return Fail(LengthNot16(AesKekGenerationSource));
      }
      if |aesKeyGenerationSource| != 16 {
        return Fail(LengthNot16(AesKeyGenerationSource));
      }
      if |masterKey| != 16 {
        return Fail(LengthNot16(MasterKey));
      }
      return Pass;
    }

    /** `generate_aes_kek`: the master key unwraps the temporary key, which unwraps the KEK; the KEK is returned sealed. */
    function GenerateAesKek(aes: Aes128, wrappedKek: KeySource): (sealedKek: AesKey)
      reads this
      requires Loaded()
      ensures Inverts(aes) ==>
        UnsealKey(aes, sealedKek) == DecryptKey(aes, DecryptKey(aes, Vec2Key(masterKey), Vec2Key(aesKekGenerationSource)), wrappedKek)
    {
      var temp := DecryptKey(aes, Vec2Key(masterKey), Vec2Key(aesKekGenerationSource));
      var kek := DecryptKey(aes, temp, wrappedKek);
      SealKey(aes, kek)
    }

    /** `generate_aes_key`: the unsealed KEK unwraps the source key, which unwraps `keySource`. */
    function GenerateAesKey(aes: Aes128, accessKey: AesKey, keySource: AesKey): (key: AesKey)
      reads this
      requires Loaded()
      ensures Inverts(aes) ==> forall kek: AesKey :: accessKey == SealKey(aes, kek) ==>
        key == DecryptKey(aes, DecryptKey(aes, kek, Vec2Key(aesKeyGenerationSource)), keySource)
    {
      var kek := UnsealKey(aes, accessKey);
      var srcKek := DecryptKey(aes, kek, Vec2Key(aesKeyGenerationSource));
      DecryptKey(aes, srcKek, keySource)
    }

    /**
     * The four unwrapping steps of the chain. `generate_aes_key` after
     * `generate_aes_kek` is this chain: the seal at the end of the one is
     * cancelled by the unseal at the start of the other.
     */
    function KeyChain(aes: Aes128, wrappedKek: KeySource, keySource: KeySource): (key: AesKey)
      reads this
      requires Loaded()
      ensures Inverts(aes) ==> key == GenerateAesKey(aes, GenerateAesKek(aes, wrappedKek), keySource)
    {
      var temp := DecryptKey(aes, Vec2Key(masterKey), Vec2Key(aesKekGenerationSource));
      var kek := DecryptKey(aes, temp, wrappedKek);
      DecryptKey(aes, DecryptKey(aes, kek, Vec2Key(aesKeyGenerationSource)), keySource)
    }

    /**
     * `derive_key`: `xor` is folded into a copy of `DERIVE_WITH` byte by
     * byte, and the result is used as the wrapped KEK.
     */
    method DeriveKey(aes: Aes128, xor: AesKey, keySource: AesKey) returns (key: AesKey)
      requires Loaded()
      ensures key == GenerateAesKey(aes, GenerateAesKek(aes, XorBytes(DERIVE_WITH, xor)), keySource)
      ensures Inverts(aes) ==> key == KeyChain(aes, XorBytes(DERIVE_WITH, xor), keySource)
    {
      var t := new byte[16](i requires 0 <= i < 16 => DERIVE_WITH[i]);
      var i := 0;
      while i < 16
        invariant 0 <= i <= 16
        invariant forall k :: 0 <= k < i ==> t[k] == Xor(DERIVE_WITH[k], xor[k])
        invariant forall k :: i <= k < 16 ==> t[k] == DERIVE_WITH[k]
      {
        t[i] := Xor(t[i], xor[i]);
        i := i + 1;
      }
      assert t[..] == XorBytes(DERIVE_WITH, xor);
      var kek := GenerateAesKek(aes, t[..]);
      key := GenerateAesKey(aes, kek, keySource);
    }
  }
}
