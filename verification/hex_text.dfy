/**
 * The string handling the key loader relies on: Rust's `str::trim`,
 * `str::splitn(2, "=")`, and the `hex` crate's `decode` and `encode`.
 */
module HexText {
  import opened Wrappers
  import opened Bytes

  /** Rust's `char::is_whitespace`: the Unicode White_Space property. */
  predicate IsWhitespace(c: char) {
    var n := c as int;
    (9 <= n <= 13) || n == 32 || n == 0x85 || n == 0xA0 || n == 0x1680
    || (0x2000 <= n <= 0x200A) || n == 0x2028 || n == 0x2029 || n == 0x202F
    || n == 0x205F || n == 0x3000
  }

  /** `str::trim_start`: the suffix left after dropping the leading whitespace. */
  function TrimStart(s: string): (r: string)
    ensures |r| <= |s| && r == s[|s| - |r|..]
    ensures forall i :: 0 <= i < |s| - |r| ==> IsWhitespace(s[i])
    ensures r == [] || !IsWhitespace(r[0])
  {
    if |s| > 0 && IsWhitespace(s[0]) then TrimStart(s[1..]) else s
  }

  /** `str::trim_end`: the prefix left after dropping the trailing whitespace. */
  function TrimEnd(s: string): (r: string)
    ensures |r| <= |s| && r == s[..|r|]
    ensures forall i :: |r| <= i < |s| ==> IsWhitespace(s[i])
    ensures r == [] || !IsWhitespace(r[|r| - 1])
  {
    if |s| > 0 && IsWhitespace(s[|s| - 1]) then TrimEnd(s[..|s| - 1]) else s
  }

  /** `str::trim`: whitespace removed from both ends. */
  function Trim(s: string): (r: string)
    ensures r == [] || (!IsWhitespace(r[0]) && !IsWhitespace(r[|r| - 1]))
  {
    TrimEnd(TrimStart(s))
  }

  /** A string with no whitespace at either end is its own trim. */
  lemma TrimOfTrimmed(s: string)
    requires s == [] || (!IsWhitespace(s[0]) && !IsWhitespace(s[|s| - 1]))
    ensures Trim(s) == s
  {
  }

  /**
   * `s.splitn(2, sep)` when it yields two pieces: the text before the first
   * `sep` and everything after it; `None` when `sep` does not occur.
   */
  function SplitOnce(s: string, sep: char): (r: Option<(string, string)>)
    ensures r.None? <==> sep !in s
    ensures r.Some? ==> s == r.value.0 + [sep] + r.value.1 && sep !in r.value.0
  {
    if |s| == 0 then None
    else if s[0] == sep then Some(([], s[1..]))
    else match SplitOnce(s[1..], sep)
      case None => None
      case Some(parts) => Some(([s[0]] + parts.0, parts.1))
  }

  /** Only the first separator splits: whatever follows it, separators included, is the second piece. */
  lemma {:induction false} SplitOnceAtFirst(name: string, sep: char, rest: string)
    requires sep !in name
    ensures SplitOnce(name + [sep] + rest, sep) == Some((name, rest))
  {
    var s := name + [sep] + rest;
    if |name| > 0 {
      assert s[0] == name[0];
      assert s[1..] == name[1..] + [sep] + rest;
      SplitOnceAtFirst(name[1..], sep, rest);
      assert [name[0]] + name[1..] == name;
    } else {
      assert s[0] == sep;
      assert s[1..] == rest;
    }
  }

  predicate IsHexDigit(c: char) {
    ('0' <= c <= '9') || ('a' <= c <= 'f') || ('A' <= c <= 'F')
  }

  /** The digits `hex::encode` writes: no upper-case letters. */
  predicate IsLowerHexDigit(c: char) {
    ('0' <= c <= '9') || ('a' <= c <= 'f')
  }

  /** A hexadecimal digit with an upper-case letter lowered. */
  function LowerHexDigit(c: char): (l: char)
    requires IsHexDigit(c)
    ensures IsLowerHexDigit(l)
  {
    if 'A' <= c <= 'F' then (c as int - 'A' as int + 'a' as int) as char else c
  }

  /** The value of one hexadecimal digit, either case. */
  function HexValue(c: char): (v: byte)
    requires IsHexDigit(c)
    ensures v < 16
  {
    if '0' <= c <= '9' then (c as int - '0' as int) as byte
    else if 'a' <= c <= 'f' then (c as int - 'a' as int + 10) as byte
    else (c as int - 'A' as int + 10) as byte
  }

  /** The lower-case digit `hex::encode` writes for a value below 16. */
  function HexDigit(v: byte): (c: char)
    requires v < 16
    ensures IsHexDigit(c) && HexValue(c) == v
    ensures IsLowerHexDigit(c)
  {
    if v < 10 then ('0' as int + v as int) as char else ('a' as int + v as int - 10) as char
  }

  /** Reading a digit and writing its value back gives the digit in lower case: both cases read alike. */
  lemma HexDigitOfValue(c: char)
    requires IsHexDigit(c)
    ensures HexDigit(HexValue(c)) == LowerHexDigit(c)
  {
  }

  /** A string `hex::decode` accepts: an even number of hexadecimal digits. */
  predicate IsHexString(s: string) {
    |s| % 2 == 0 && forall i :: 0 <= i < |s| ==> IsHexDigit(s[i])
  }

  /** The byte written as the digit pair `hi lo`. */
  function PairValue(hi: char, lo: char): byte
    requires IsHexDigit(hi) && IsHexDigit(lo)
  {
    HexValue(hi) * 16 + HexValue(lo)
  }

  /**
   * `hex::decode`: `None` for an odd length or a character that is not a
   * hexadecimal digit; otherwise one byte per pair of digits, high nibble first.
   */
  function HexDecode(s: string): (r: Option<seq<byte>>)
    ensures r.Some? ==> |r.value| * 2 == |s|
  {
    if |s| == 0 then Some([])
    else if |s| == 1 || !IsHexDigit(s[0]) || !IsHexDigit(s[1]) then None
    else match HexDecode(s[2..])
      case None => None
      case Some(rest) => Some([PairValue(s[0], s[1])] + rest)
  }

  /** Decoding succeeds exactly on even-length strings of hexadecimal digits. */
  lemma {:induction false} HexDecodeSucceeds(s: string)
    ensures HexDecode(s).Some? <==> IsHexString(s)
  {
    if |s| >= 2 {
      HexDecodeSucceeds(s[2..]);
      assert forall i :: 2 <= i < |s| ==> s[i] == s[2..][i - 2];
    }
  }

  /** Byte `i` of a decoded string is the value of digits `2i` and `2i + 1`. */
  lemma {:induction false} HexDecodeAt(s: string, i: nat)
    requires HexDecode(s).Some? && i < |HexDecode(s).value|
    ensures IsHexDigit(s[2 * i]) && IsHexDigit(s[2 * i + 1])
    ensures HexDecode(s).value[i] == PairValue(s[2 * i], s[2 * i + 1])
  {
    if i > 0 {
      HexDecodeAt(s[2..], i - 1);
    }
  }

  /** `hex::encode`: two lower-case digits per byte, high nibble first. */
  function HexEncode(bytes: seq<byte>): (s: string)
    ensures |s| == 2 * |bytes|
    ensures forall i :: 0 <= i < |s| ==> IsHexDigit(s[i]) && IsLowerHexDigit(s[i])
  {
    if |bytes| == 0 then [] else [HexDigit(bytes[0] / 16), HexDigit(bytes[0] % 16)] + HexEncode(bytes[1..])
  }

  /** The two digits written for `b` read back as `b`. */
  lemma PairValueOfDigits(b: byte)
    ensures PairValue(HexDigit(b / 16), HexDigit(b % 16)) == b
  {
  }

  /** Decoding what `hex::encode` wrote gives the bytes back. */
  lemma {:induction false} HexDecodeOfEncode(bytes: seq<byte>)
    ensures HexDecode(HexEncode(bytes)) == Some(bytes)
  {
    if |bytes| > 0 {
      var s := HexEncode(bytes);
      assert s[2..] == HexEncode(bytes[1..]);
      HexDecodeOfEncode(bytes[1..]);
      PairValueOfDigits(bytes[0]);
      assert [bytes[0]] + bytes[1..] == bytes;
    }
  }
}
