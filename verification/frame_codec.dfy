/**
 * The LDN frame codec (decrypt/src/ldn_frame.rs): a 40-byte clear header
 * followed by a body of `content_length + 32` bytes whose first 32 bytes
 * hold a SHA-256 checksum; the body is encrypted with AES-128-CTR under a
 * key derived from the first 32 header bytes.
 */
module FrameCodec {
  import opened Wrappers
  import opened Bytes
  import opened HexText
  import opened KeyDerivation

  const HEADER_SIZE: nat := 40
  /** `frame_field::SHA256`: the checksum occupies content bytes 0..32. */
  const SHA256_SIZE: nat := 32

  /** `LdnFrameBuilder::HARDCODED_SOURCE`: the wrapped KEK every frame key is derived from. */
  const HARDCODED_SOURCE: KeySource :=
    [0x19, 0x18, 0x84, 0x74, 0x3e, 0x24, 0xc7, 0x7d, 0x87, 0xc6, 0x9e, 0x42, 0x07, 0xd0, 0xc4, 0x38]

  type Digest = s: seq<byte> | |s| == 32
    witness [0, 0, 0, 0, 0, 0, 0, 0, 0, 0, 0, 0, 0, 0, 0, 0, 0, 0, 0, 0, 0, 0, 0, 0, 0, 0, 0, 0, 0, 0, 0, 0]

  /** SHA-256 (FIPS 180-4), left abstract: any byte string to a 32-byte digest. */
  type Hasher = seq<byte> -> Digest

  /** The cryptographic primitives the codec is linked against. */
  datatype Crypto = Crypto(aes: Aes128, sha256: Hasher, keystream: Keystream)

  /** `read_exact` running out of input. */
  datatype IoError = UnexpectedEof

  /** `s32_16`: the first half of a digest. */
  function S32_16(s32: Digest): (half: Block)
    ensures forall i :: 0 <= i < 16 ==> half[i] == s32[i]
  {
    s32[..16]
  }

  /** `sha256_16`: the first 16 bytes of the SHA-256 of `data`. */
  function Sha256_16(sha256: Hasher, data: seq<byte>): (h: Block)
    ensures h == sha256(data)[..16]
  {
    S32_16(sha256(data))
  }

  // ---------------------------------------------------------------------------
  // Header fields (`header_field`).

  /** `content_length`: header bytes 34..36 as a big-endian `u16`. */
  function ContentLength(header: seq<byte>): (n: nat)
    requires |header| == HEADER_SIZE
    ensures n == header[34] as int * 256 + header[35] as int
    ensures n < 0x1_0000
  {
    var field := header[34..36];
    assert BeToNat(field[..1]) == field[0] by {
      assert field[..1][..0] == [];
    }
    assert BeToNat(field) == BeToNat(field[..1]) * 256 + field[1] as int;
    BeToNat(field)
  }

  /** `nonce`: header bytes 36..40. */
  function Nonce(header: seq<byte>): (nonce: seq<byte>)
    requires |header| == HEADER_SIZE
    ensures |nonce| == 4 && forall i :: 0 <= i < 4 ==> nonce[i] == header[36 + i]
  {
    header[36..40]
  }

  /** The counter block of `LdnFrame::decrypt`: the header nonce in a zeroed 16-byte array. */
  function CtrNonce(header: seq<byte>): (nonce: Block)
    requires |header| == HEADER_SIZE
    ensures nonce[..4] == header[36..40]
    ensures nonce[4..] == Zeros(12)
  {
    Nonce(header) + Zeros(12)
  }

  /** `ssid_str`: header bytes 16..32 as 32 hexadecimal digits, which decode back to those bytes. */
  function SsidStr(header: seq<byte>): (ssid: string)
    requires |header| == HEADER_SIZE
    ensures |ssid| == 32
    ensures HexDecode(ssid) == Some(header[16..32])
  {
    HexDecodeOfEncode(header[16..32]);
    HexEncode(header[16..32])
  }

  // ---------------------------------------------------------------------------
  // A frame as a value.

  /** The bytes of an `LdnFrame`: its header array and its content vector. */
  datatype Frame = Frame(header: seq<byte>, content: seq<byte>)
  {
    /** What parsing produces: 40 header bytes and exactly the body length the header declares. */
    predicate WellFormed() {
      |header| == HEADER_SIZE && |content| == ContentLength(header) + SHA256_SIZE
    }
  }

  /**
   * `LdnFrame::read_from_file` on a stream holding `input`: 40 header bytes,
   * then the `content_length + 32` body bytes the header declares.
   */
  function ParseFrame(input: seq<byte>): (r: Result<Frame, IoError>)
    ensures r.Success? <==>
      |input| >= HEADER_SIZE && |input| >= HEADER_SIZE + ContentLength(input[..HEADER_SIZE]) + SHA256_SIZE
    ensures r.Failure? ==> r.error == UnexpectedEof
  {
    if |input| < HEADER_SIZE then Failure(UnexpectedEof)
    else
      var header := input[..HEADER_SIZE];
      var length := ContentLength(header) + SHA256_SIZE;
      if |input| - HEADER_SIZE < length then Failure(UnexpectedEof)
      else Success(Frame(header, input[HEADER_SIZE..HEADER_SIZE + length]))
  }

  /**
   * A parsed frame is well formed, at most 40 + 65567 bytes long, and is
   * exactly the bytes it was read from: nothing is padded or skipped.
   */
  lemma ParsedFrame(input: seq<byte>)
    requires ParseFrame(input).Success?
    ensures var f := ParseFrame(input).value;
      && f.WellFormed()
      && f.header == input[..HEADER_SIZE]
      && |f.content| <= 65567
      && Serialize(f) == input[..HEADER_SIZE + |f.content|]
  {
  }

  /** `write_to_file`: the header bytes, then the content. */
  function Serialize(f: Frame): (bytes: seq<byte>)
    ensures |bytes| == |f.header| + |f.content|
    ensures bytes[..|f.header|] == f.header && bytes[|f.header|..] == f.content
  {
    f.header + f.content
  }

  /** Parsing a serialised frame, whatever follows it, gives the frame back. */
  lemma ParseOfSerialize(f: Frame, rest: seq<byte>)
    requires f.WellFormed()
    ensures ParseFrame(Serialize(f) + rest) == Success(f)
  {
    var input := Serialize(f) + rest;
    assert input[..HEADER_SIZE] == f.header;
    assert input[HEADER_SIZE..HEADER_SIZE + |f.content|] == f.content;
  }

  /** The pieces of a concatenation `a + s + z` can be cut back out of it. */
  lemma SpliceParts(a: seq<byte>, s: seq<byte>, z: seq<byte>)
    ensures (a + s + z)[..|a|] == a && (a + s + z)[|a|..] == s + z
    ensures (a + s + z)[|a|..|a| + |s|] == s
  {
  }

  /** Two splices into the same surroundings differ when the spliced parts do. */
  lemma SpliceDiffers(a: seq<byte>, s: seq<byte>, t: seq<byte>, z: seq<byte>)
    requires s != t
    ensures a + s + z != a + t + z
  {
    SpliceParts(a, s, z);
    SpliceParts(a, t, z);
    if |s| == |t| {
      assert (a + s + z)[|a|..|a| + |s|] != (a + t + z)[|a|..|a| + |t|];
    }
  }

  /** Two frames with the same header serialize alike exactly when their contents agree. */
  lemma SerializeDiffers(f: Frame, g: Frame)
    requires f.header == g.header && f.content != g.content
    ensures Serialize(f) != Serialize(g)
  {
  }

  /**
   * Putting a parsed frame back with its checksum refreshed, between the
   * bytes before it and some trailing bytes, leaves the input as it was
   * (up to the frame's end) exactly when the stored checksum was right.
   */
  lemma RefreshedInPlace(sha256: Hasher, input: seq<byte>, skip: nat, z: seq<byte>)
    requires skip <= |input| && ParseFrame(input[skip..]).Success?
    ensures skip + HEADER_SIZE <= |input|
    ensures var frame := ParseFrame(input[skip..]).value;
      var frameLength := HEADER_SIZE + ContentLength(input[skip..skip + HEADER_SIZE]) + SHA256_SIZE;
      && skip + frameLength <= |input|
      && (input[..skip] + Serialize(RefreshChecksum(sha256, frame)) + z == input[..skip + frameLength] + z
          <==> frame.content[..SHA256_SIZE] == Checksum(sha256, frame))
  {
    ParsedFrame(input[skip..]);
    var frame := ParseFrame(input[skip..]).value;
    var refreshed := RefreshChecksum(sha256, frame);
    assert input[skip..][..HEADER_SIZE] == input[skip..skip + HEADER_SIZE];
    var frameLength := HEADER_SIZE + |frame.content|;
    assert input[..skip + frameLength] == input[..skip] + input[skip..][..frameLength];
    if refreshed != frame {
      SerializeDiffers(refreshed, frame);
      SpliceDiffers(input[..skip], Serialize(refreshed), Serialize(frame), z);
    }
  }

  /**
   * `calculate_sha256`: SHA-256 over the header, 32 zero bytes, and the
   * content after the checksum field, that is, over the frame as written
   * with its checksum field zeroed.
   */
  function Checksum(sha256: Hasher, f: Frame): (d: Digest)
    requires |f.content| >= SHA256_SIZE
    ensures d == sha256(Serialize(Frame(f.header, Zeros(SHA256_SIZE) + f.content[SHA256_SIZE..])))
  {
    assert f.header + Zeros(SHA256_SIZE) + f.content[SHA256_SIZE..]
      == f.header + (Zeros(SHA256_SIZE) + f.content[SHA256_SIZE..]);
    sha256(f.header + Zeros(SHA256_SIZE) + f.content[SHA256_SIZE..])
  }

  /** The checksum does not depend on what the checksum field currently holds. */
  lemma ChecksumIgnoresStoredField(sha256: Hasher, f: Frame, g: Frame)
    requires |f.content| >= SHA256_SIZE && |g.content| >= SHA256_SIZE
    requires f.header == g.header && f.content[SHA256_SIZE..] == g.content[SHA256_SIZE..]
    ensures Checksum(sha256, f) == Checksum(sha256, g)
  {
  }

  /** `set_sha256` on a frame value: `hash` copied over content bytes 0..32. */
  function WithChecksum(f: Frame, hash: Digest): (g: Frame)
    requires |f.content| >= SHA256_SIZE
    ensures g.header == f.header && |g.content| == |f.content|
    ensures g.content[..SHA256_SIZE] == hash
    ensures g.content[SHA256_SIZE..] == f.content[SHA256_SIZE..]
  {
    Frame(f.header, hash + f.content[SHA256_SIZE..])
  }

  /**
   * The checksum step of `LdnFrameBuilder::encrypt`: the stored checksum is
   * replaced by the calculated one when they differ.
   */
  function RefreshChecksum(sha256: Hasher, f: Frame): (g: Frame)
    requires |f.content| >= SHA256_SIZE
    ensures g.header == f.header && |g.content| == |f.content|
    ensures g.content[SHA256_SIZE..] == f.content[SHA256_SIZE..]
    ensures g.content[..SHA256_SIZE] == Checksum(sha256, g)
    ensures g == f <==> f.content[..SHA256_SIZE] == Checksum(sha256, f)
  {
    var hash := Checksum(sha256, f);
    if hash == f.content[..SHA256_SIZE] then f else WithChecksum(f, hash)
  }

  /** Running the checksum step again changes nothing. */
  lemma RefreshChecksumIdempotent(sha256: Hasher, f: Frame)
    requires |f.content| >= SHA256_SIZE
    ensures RefreshChecksum(sha256, RefreshChecksum(sha256, f)) == RefreshChecksum(sha256, f)
  {
  }

  /** `LdnFrame::decrypt` (and `encrypt`) on a frame value: the keystream XORed over the whole content. */
  function Transform(keystream: Keystream, key: AesKey, f: Frame): (g: Frame)
    requires |f.header| == HEADER_SIZE
    ensures g.header == f.header && |g.content| == |f.content|
  {
    Frame(f.header, CtrApply(keystream, key, CtrNonce(f.header), f.content))
  }

  /** Transforming twice with the same key restores the frame. */
  lemma TransformTwice(keystream: Keystream, key: AesKey, f: Frame)
    requires |f.header| == HEADER_SIZE
    ensures Transform(keystream, key, Transform(keystream, key, f)) == f
  {
    CtrApplyTwice(keystream, key, CtrNonce(f.header), f.content);
  }

  // ---------------------------------------------------------------------------
  // The frame object.

  /** `LdnFrame`: a fixed 40-byte header array and a content vector. */
  class LdnFrame {
    const header: array<byte>
    var content: array<byte>

    ghost predicate Valid()
      reads this
    {
      header.Length == HEADER_SIZE && content != header
    }

    function View(): Frame
      reads this, header, content
    {
      Frame(header[..], content[..])
    }

    /** `LdnFrame::new`: a zeroed header and empty content. */
    constructor ()
      ensures Valid() && fresh(header) && fresh(content)
      ensures View() == Frame(Zeros(HEADER_SIZE), [])
    {
      header := new byte[HEADER_SIZE](_ => 0);
      content := new byte[0];
    }

    /**
     * `read_from_file`: `read_exact` into the header, then a fresh zeroed
     * content of the declared length and `read_exact` into it.
     */
    method ReadFromFile(input: seq<byte>) returns (r: Outcome<IoError>)
      requires Valid()
      modifies this, header
      ensures Valid()
      ensures r.Pass? <==> ParseFrame(input).Success?
      ensures r.Fail? ==> r.error == UnexpectedEof
      ensures r.Pass? ==> fresh(content) && View() == ParseFrame(input).value
    {
      if |input| < HEADER_SIZE {
        return Fail(UnexpectedEof);
      }
      forall i | 0 <= i < HEADER_SIZE {
        header[i] := input[i];
      }
      assert header[..] == input[..HEADER_SIZE];
      var length := ContentLength(header[..]) + SHA256_SIZE;
      content := new byte[length](_ => 0);
      if |input| - HEADER_SIZE < length {
        return Fail(UnexpectedEof);
      }
      forall i | 0 <= i < length {
        content[i] := input[HEADER_SIZE + i];
      }
      assert content[..] == input[HEADER_SIZE..HEADER_SIZE + length];
      return Pass;
    }

    /** `sha256`: the stored checksum field. */
    function Sha256(): (stored: seq<byte>)
      reads this, header, content
      requires content.Length >= SHA256_SIZE
      ensures stored == View().content[..SHA256_SIZE]
    {
      content[..SHA256_SIZE]
    }

    /** `set_sha256`: `hash` copied over content bytes 0..32. */
    method SetSha256(hash: Digest)
      requires Valid() && content.Length >= SHA256_SIZE
      modifies content
      ensures View() == WithChecksum(old(View()), hash)
    {
      forall i | 0 <= i < SHA256_SIZE {
        content[i] := hash[i];
      }
      assert content[..] == hash + old(content[..])[SHA256_SIZE..];
    }

    /** `calculate_sha256`. */
    function CalculateSha256(sha256: Hasher): (d: Digest)
      reads this, header, content
      requires content.Length >= SHA256_SIZE
      ensures d == sha256(header[..] + Zeros(SHA256_SIZE) + content[SHA256_SIZE..])
    {
      Checksum(sha256, View())
    }

    /** `decrypt`: the nonce copied into a zeroed counter block, then the keystream applied to the content in place. */
    method Decrypt(key: AesKey, keystream: Keystream)
      requires Valid()
      modifies content
      ensures View() == Transform(keystream, key, old(View()))
    {
      ghost var before := View();
      var nonce := new byte[16](_ => 0);
      forall i | 0 <= i < 4 {
        nonce[i] := header[36 + i];
      }
      assert nonce[..] == CtrNonce(before.header);
      Aes128CtrDec(content, key, nonce[..], keystream);
      assert header[..] == before.header;
      assert content[..] == CtrApply(keystream, key, CtrNonce(before.header), before.content);
    }

    /** `encrypt` is `decrypt`. */
    method Encrypt(key: AesKey, keystream: Keystream)
      requires Valid()
      modifies content
      ensures View() == Transform(keystream, key, old(View()))
    {
      Decrypt(key, keystream);
    }
  }

  // ---------------------------------------------------------------------------
  // The builder: whole-file encryption and decryption.

  /** `LdnFrameBuilder`: the key set, the number of leading bytes to skip and the number of zero bytes to append. */
  class LdnFrameBuilder {
    const keys: Keys
    var offset: nat
    var padding: nat

    /** `LdnFrameBuilder::new`. */
    constructor (keys: Keys)
      ensures this.keys == keys && offset == 0 && padding == 0
    {
      this.keys := keys;
      offset := 0;
      padding := 0;
    }

    /**
     * `get_key`: the generated AES key for the fixed wrapped KEK and the
     * first half of SHA-256 over header bytes 0..32.
     */
    function GetKey(crypto: Crypto, header: seq<byte>): AesKey
      reads keys
      requires keys.Loaded() && |header| == HEADER_SIZE
    {
      var hash := Sha256_16(crypto.sha256, header[..32]);
      var kek := keys.GenerateAesKek(crypto.aes, HARDCODED_SOURCE);
      keys.GenerateAesKey(crypto.aes, kek, hash)
    }

    /**
     * The frame key is the four-step chain of decryptions from the master
     * key: the KEK is sealed by `generate_aes_kek` and unsealed again by
     * `generate_aes_key`.
     */
    lemma GetKeyIsKeyChain(crypto: Crypto, header: seq<byte>)
      requires keys.Loaded() && |header| == HEADER_SIZE && Inverts(crypto.aes)
      ensures GetKey(crypto, header)
        == keys.KeyChain(crypto.aes, HARDCODED_SOURCE, Sha256_16(crypto.sha256, header[..32]))
    {
    }

    /** The content length and nonce fields (bytes 32..40) never influence the frame key. */
    lemma GetKeyIgnoresLengthAndNonce(crypto: Crypto, h1: seq<byte>, h2: seq<byte>)
      requires keys.Loaded() && |h1| == HEADER_SIZE && |h2| == HEADER_SIZE
      requires h1[..32] == h2[..32]
      ensures GetKey(crypto, h1) == GetKey(crypto, h2)
    {
    }

    /** `read_offset`: the first `offset` bytes of the stream. */
    function ReadOffset(input: seq<byte>): (r: Result<seq<byte>, IoError>)
      reads this
      ensures r.Success? <==> offset <= |input|
      ensures r.Failure? ==> r.error == UnexpectedEof
      ensures r.Success? ==> |r.value| == offset && input == r.value + input[offset..]
    {
      if |input| < offset then Failure(UnexpectedEof) else Success(input[..offset])
    }

    /** The frame `encrypt` writes for a parsed frame: checksum refreshed, then the content encrypted. */
    function EncryptFrame(crypto: Crypto, f: Frame): (g: Frame)
      reads keys
      requires keys.Loaded() && f.WellFormed()
      ensures g.WellFormed() && g.header == f.header
    {
      Transform(crypto.keystream, GetKey(crypto, f.header), RefreshChecksum(crypto.sha256, f))
    }

    /** The frame `decrypt` writes for a parsed frame: the content decrypted. */
    function DecryptFrame(crypto: Crypto, f: Frame): (g: Frame)
      reads keys
      requires keys.Loaded() && f.WellFormed()
      ensures g.WellFormed() && g.header == f.header
    {
      Transform(crypto.keystream, GetKey(crypto, f.header), f)
    }

    /** Decrypting an encrypted frame gives the frame back with its checksum refreshed. */
    lemma DecryptFrameOfEncryptFrame(crypto: Crypto, f: Frame)
      requires keys.Loaded() && f.WellFormed()
      ensures DecryptFrame(crypto, EncryptFrame(crypto, f)) == RefreshChecksum(crypto.sha256, f)
    {
      TransformTwice(crypto.keystream, GetKey(crypto, f.header), RefreshChecksum(crypto.sha256, f));
    }

    /** What `encrypt` writes to the output file for an input file holding `input`. */
    function EncryptedOutput(crypto: Crypto, input: seq<byte>): (r: Result<seq<byte>, IoError>)
      reads this, keys
      requires keys.Loaded()
      ensures r.Success? <==> offset <= |input| && ParseFrame(input[offset..]).Success?
      ensures r.Failure? ==> r.error == UnexpectedEof
    {
      match ReadOffset(input)
      case Failure(e) => Failure(e)
      case Success(skipped) =>
        match ParseFrame(input[offset..])
        case Failure(e) => Failure(e)
        case Success(frame) =>
          ParsedFrame(input[offset..]);
          Success(skipped + Serialize(EncryptFrame(crypto, frame)) + Zeros(padding))
    }

    /** What `decrypt` writes to the output file for an input file holding `input`. */
    function DecryptedOutput(crypto: Crypto, input: seq<byte>): (r: Result<seq<byte>, IoError>)
      reads this, keys
      requires keys.Loaded()
      ensures r.Success? <==> offset <= |input| && ParseFrame(input[offset..]).Success?
      ensures r.Failure? ==> r.error == UnexpectedEof
    {
      match ReadOffset(input)
      case Failure(e) => Failure(e)
      case Success(skipped) =>
        match ParseFrame(input[offset..])
        case Failure(e) => Failure(e)
        case Success(frame) =>
          ParsedFrame(input[offset..]);
          Success(skipped + Serialize(DecryptFrame(crypto, frame)) + Zeros(padding))
    }

    /**
     * `encrypt`: skip `offset` bytes, read a frame, derive its key, refresh
     * the checksum if it is stale, encrypt the content, and write the skipped
     * bytes, the frame and `padding` zero bytes.
     */
    method Encrypt(crypto: Crypto, input: seq<byte>) returns (r: Result<seq<byte>, IoError>)
      requires keys.Loaded()
      ensures r == EncryptedOutput(crypto, input)
    {
      ghost var expected := EncryptedOutput(crypto, input);
      var skipped := ReadOffset(input);
      if skipped.Failure? {
        return Failure(skipped.error);
      }
      var frame := new LdnFrame();
      var read := frame.ReadFromFile(input[offset..]);
      if read.Fail? {
        return Failure(read.error);
      }
      ghost var parsed := frame.View();
      ParsedFrame(input[offset..]);
      var key := GetKey(crypto, frame.header[..]);
      ghost var sealed := EncryptFrame(crypto, parsed);
      assert expected == Success(skipped.value + Serialize(sealed) + Zeros(padding));
      var hash := frame.CalculateSha256(crypto.sha256);
      if hash != frame.Sha256() {
        frame.SetSha256(hash);
      }
      assert frame.View() == RefreshChecksum(crypto.sha256, parsed);
      frame.Encrypt(key, crypto.keystream);
      var written := frame.header[..] + frame.content[..];
      assert written == Serialize(sealed);
      r := Success(skipped.value + written + Zeros(padding));
    }

    /** `decrypt`: as `encrypt`, without the checksum step. */
    method Decrypt(crypto: Crypto, input: seq<byte>) returns (r: Result<seq<byte>, IoError>)
      requires keys.Loaded()
      ensures r == DecryptedOutput(crypto, input)
    {
      ghost var expected := DecryptedOutput(crypto, input);
      var skipped := ReadOffset(input);
      if skipped.Failure? {
        return Failure(skipped.error);
      }
      var frame := new LdnFrame();
      var read := frame.ReadFromFile(input[offset..]);
      if read.Fail? {
        return Failure(read.error);
      }
      ghost var parsed := frame.View();
      ParsedFrame(input[offset..]);
      var key := GetKey(crypto, frame.header[..]);
      ghost var plain := DecryptFrame(crypto, parsed);
      assert expected == Success(skipped.value + Serialize(plain) + Zeros(padding));
      frame.Decrypt(key, crypto.keystream);
      var written := frame.header[..] + frame.content[..];
      assert written == Serialize(plain);
      r := Success(skipped.value + written + Zeros(padding));
    }

    /**
     * The encrypted output is the skipped bytes, the unchanged 40-byte header,
     * a body of the declared length, and `padding` zero bytes.
     */
    lemma EncryptedOutputLayout(crypto: Crypto, input: seq<byte>)
      requires keys.Loaded() && EncryptedOutput(crypto, input).Success?
      ensures offset + HEADER_SIZE <= |input|
      ensures var out := EncryptedOutput(crypto, input).value;
        && |out| == offset + HEADER_SIZE + ContentLength(input[offset..offset + HEADER_SIZE]) + SHA256_SIZE + padding
        && out[..offset + HEADER_SIZE] == input[..offset + HEADER_SIZE]
        && out[|out| - padding..] == Zeros(padding)
    {
    }

    /**
     * The decrypted output has the same layout: the skipped bytes, the
     * unchanged header, a body of the declared length, and the padding.
     */
    lemma DecryptedOutputLayout(crypto: Crypto, input: seq<byte>)
      requires keys.Loaded() && DecryptedOutput(crypto, input).Success?
      ensures offset + HEADER_SIZE <= |input|
      ensures var out := DecryptedOutput(crypto, input).value;
        && |out| == offset + HEADER_SIZE + ContentLength(input[offset..offset + HEADER_SIZE]) + SHA256_SIZE + padding
        && out[..offset + HEADER_SIZE] == input[..offset + HEADER_SIZE]
        && out[|out| - padding..] == Zeros(padding)
    {
    }

    /**
     * Decrypting the encrypted output gives back the input frame with its
     * checksum refreshed, between the same skipped bytes and padding.
     */
    lemma DecryptOfEncrypt(crypto: Crypto, input: seq<byte>)
      requires keys.Loaded() && EncryptedOutput(crypto, input).Success?
      ensures offset <= |input| && ParseFrame(input[offset..]).Success?
      ensures DecryptedOutput(crypto, EncryptedOutput(crypto, input).value)
        == Success(input[..offset] + Serialize(RefreshChecksum(crypto.sha256, ParseFrame(input[offset..]).value)) + Zeros(padding))
    {
      ParsedFrame(input[offset..]);
      var frame := ParseFrame(input[offset..]).value;
      var sealed := EncryptFrame(crypto, frame);
      var out := EncryptedOutput(crypto, input).value;
      assert out == input[..offset] + Serialize(sealed) + Zeros(padding);
      SpliceParts(input[..offset], Serialize(sealed), Zeros(padding));
      ParseOfSerialize(sealed, Zeros(padding));
      DecryptFrameOfEncryptFrame(crypto, frame);
    }

    /**
     * Decrypting the encrypted output gives the input back byte for byte, up
     * to the frame's end and then the padding, exactly when the frame's
     * stored checksum was already right; otherwise the checksum comes back
     * refreshed and the output differs from the input.
     */
    lemma DecryptOfEncryptRestores(crypto: Crypto, input: seq<byte>)
      requires keys.Loaded() && EncryptedOutput(crypto, input).Success?
      ensures offset + HEADER_SIZE <= |input|
      ensures var frame := ParseFrame(input[offset..]).value;
        var frameLength := HEADER_SIZE + ContentLength(input[offset..offset + HEADER_SIZE]) + SHA256_SIZE;
        && offset + frameLength <= |input|
        && (DecryptedOutput(crypto, EncryptedOutput(crypto, input).value) == Success(input[..offset + frameLength] + Zeros(padding))
            <==> frame.content[..SHA256_SIZE] == Checksum(crypto.sha256, frame))
    {
      DecryptOfEncrypt(crypto, input);
      RefreshedInPlace(crypto.sha256, input, offset, Zeros(padding));
      var frame := ParseFrame(input[offset..]).value;
      var restored: Result<seq<byte>, IoError> := Success(input[..offset] + Serialize(RefreshChecksum(crypto.sha256, frame)) + Zeros(padding));
      var original: Result<seq<byte>, IoError> := Success(input[..offset + (HEADER_SIZE + ContentLength(input[offset..offset + HEADER_SIZE]) + SHA256_SIZE)] + Zeros(padding));
      assert restored == original <==> restored.value == original.value;
    }
  }
}
