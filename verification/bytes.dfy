/**
 * Bytes, 16-byte blocks, and the fixed-width integer reads and writes of the
 * `byteorder` crate (`BigEndian`/`LittleEndian` `read_uN`/`write_uN`).
 */
module Bytes {

  /** A `u8`. */
  type byte = b: int | 0 <= b < 256

  /** Every AES-128 key, key source and counter block is 16 bytes. */
  type Block = s: seq<byte> | |s| == 16 witness [0, 0, 0, 0, 0, 0, 0, 0, 0, 0, 0, 0, 0, 0, 0, 0]

  function Zeros(n: nat): (r: seq<byte>)
    ensures |r| == n
    ensures forall i :: 0 <= i < n ==> r[i] == 0
  {
    seq(n, _ => 0)
  }

  function Reverse(s: seq<byte>): (r: seq<byte>)
    ensures |r| == |s|
    ensures forall i :: 0 <= i < |s| ==> r[i] == s[|s| - 1 - i]
  {
    seq(|s|, i requires 0 <= i < |s| => s[|s| - 1 - i])
  }

  function Pow2(n: nat): (r: nat)
    ensures r > 0
  {
    if n == 0 then 1 else 2 * Pow2(n - 1)
  }

  /** The exclusive or of the low `k` bits of `a` and `b`, least significant bit last to be combined. */
  function XorBits(a: nat, b: nat, k: nat): (r: nat)
    ensures r < Pow2(k)
  {
    if k == 0 then 0 else 2 * XorBits(a / 2, b / 2, k - 1) + (if a % 2 == b % 2 then 0 else 1)
  }

  /** Exclusive or with zero keeps every one of the low `k` bits. */
  lemma {:induction false} XorBitsZero(a: nat, k: nat)
    requires a < Pow2(k)
    ensures XorBits(a, 0, k) == a
  {
    if k > 0 {
      XorBitsZero(a / 2, k - 1);
    }
  }

  /** Exclusive or with the same `b` twice restores the low `k` bits. */
  lemma {:induction false} XorBitsTwice(a: nat, b: nat, k: nat)
    requires a < Pow2(k)
    ensures XorBits(XorBits(a, b, k), b, k) == a
  {
    if k > 0 {
      var x := XorBits(a, b, k);
      var half := XorBits(a / 2, b / 2, k - 1);
      assert x == 2 * half + (if a % 2 == b % 2 then 0 else 1);
      assert x / 2 == half;
      XorBitsTwice(a / 2, b / 2, k - 1);
    }
  }

  /** Exclusive or of the low `k` bits of `a` with themselves clears them. */
  lemma {:induction false} XorBitsSame(a: nat, k: nat)
    ensures XorBits(a, a, k) == 0
  {
    if k > 0 {
      XorBitsSame(a / 2, k - 1);
    }
  }

  lemma Pow2Eight()
    ensures Pow2(8) == 256
  {
    assert Pow2(4) == 16;
  }

  /** The `^` operator on two bytes: zero is its identity and every byte is its own inverse. */
  function Xor(a: byte, b: byte): (r: byte)
    ensures b == 0 ==> r == a
    ensures a == b ==> r == 0
  {
    Pow2Eight();
    XorBitsZero(a, 8);
    XorBitsSame(a, 8);
    XorBits(a, b, 8)
  }

  /** `(a ^ b) ^ b == a`. */
  lemma XorTwice(a: byte, b: byte)
    ensures Xor(Xor(a, b), b) == a
  {
    Pow2Eight();
    XorBitsTwice(a, b, 8);
  }

  /** Byte-wise exclusive or of two equally long sequences. */
  function XorBytes(a: seq<byte>, b: seq<byte>): (r: seq<byte>)
    requires |a| == |b|
    ensures |r| == |a|
    ensures forall i :: 0 <= i < |a| ==> r[i] == Xor(a[i], b[i])
  {
    seq(|a|, i requires 0 <= i < |a| => Xor(a[i], b[i]))
  }

  /** Exclusive or with zero bytes leaves a sequence unchanged. */
  lemma XorZeros(a: seq<byte>)
    ensures XorBytes(a, Zeros(|a|)) == a
  {
    assert forall i :: 0 <= i < |a| ==> XorBytes(a, Zeros(|a|))[i] == Xor(a[i], 0) == a[i];
  }

  /** The least significant byte of `v` (the truncating `as u8` cast). */
  function LowByte(v: nat): (b: byte)
    ensures b == v % 256
  {
    v % 256
  }

  /** Splitting off the low byte and putting it back gives the integer back. */
  lemma DivMod256(hi: nat, lo: nat)
    requires lo < 256
    ensures (hi * 256 + lo) / 256 == hi
    ensures (hi * 256 + lo) % 256 == lo
  {
  }

  function Pow256(n: nat): (r: nat)
    ensures r > 0
  {
    if n == 0 then 1 else 256 * Pow256(n - 1)
  }

  /** The unsigned integer whose big-endian encoding is `s` (`BigEndian::read_uN`). */
  function BeToNat(s: seq<byte>): (v: nat)
    ensures v < Pow256(|s|)
    ensures |s| > 0 ==> v % 256 == s[|s| - 1]
  {
    if |s| == 0 then 0
    else
      DivMod256(BeToNat(s[..|s| - 1]), s[|s| - 1]);
      BeToNat(s[..|s| - 1]) * 256 + s[|s| - 1]
  }

  /** The low `n` bytes of `v`, most significant first (`BigEndian::write_uN`). */
  function NatToBe(v: nat, n: nat): (s: seq<byte>)
    ensures |s| == n
    ensures n > 0 ==> s[n - 1] == v % 256
  {
    if n == 0 then [] else NatToBe(v / 256, n - 1) + [LowByte(v)]
  }

  /** The unsigned integer whose little-endian encoding is `s` (`LittleEndian::read_uN`). */
  function LeToNat(s: seq<byte>): (v: nat)
    ensures v < Pow256(|s|)
    ensures |s| > 0 ==> v % 256 == s[0]
  {
    if |s| == 0 then 0
    else
      DivMod256(LeToNat(s[1..]), s[0]);
      s[0] + 256 * LeToNat(s[1..])
  }

  /** The low `n` bytes of `v`, least significant first (`LittleEndian::write_uN`). */
  function NatToLe(v: nat, n: nat): (s: seq<byte>)
    ensures |s| == n
    ensures n > 0 ==> s[0] == v % 256
  {
    if n == 0 then [] else [LowByte(v)] + NatToLe(v / 256, n - 1)
  }

  lemma BeToNatSnoc(p: seq<byte>, b: byte)
    ensures BeToNat(p + [b]) == BeToNat(p) * 256 + b
  {
    assert (p + [b])[..|p|] == p;
  }

  lemma LeToNatCons(b: byte, rest: seq<byte>)
    ensures LeToNat([b] + rest) == b + 256 * LeToNat(rest)
  {
    assert ([b] + rest)[1..] == rest;
  }

  /** A big-endian read followed by a big-endian write of the same width gives the bytes back. */
  lemma {:induction false} NatToBeOfBeToNat(s: seq<byte>)
    ensures NatToBe(BeToNat(s), |s|) == s
  {
    if |s| > 0 {
      var p, b := s[..|s| - 1], s[|s| - 1];
      assert s == p + [b];
      NatToBeOfBeToNat(p);
      BeToNatSnoc(p, b);
      DivMod256(BeToNat(p), b);
    }
  }

  /** A big-endian write of a value that fits, read back, gives the value. */
  lemma {:induction false} BeToNatOfNatToBe(v: nat, n: nat)
    requires v < Pow256(n)
    ensures BeToNat(NatToBe(v, n)) == v
  {
    if n > 0 {
      var q := v / 256;
      assert Pow256(n) == 256 * Pow256(n - 1);
      assert q < Pow256(n - 1);
      BeToNatOfNatToBe(q, n - 1);
      BeToNatSnoc(NatToBe(q, n - 1), LowByte(v));
    }
  }

  /** A little-endian read followed by a little-endian write of the same width gives the bytes back. */
  lemma {:induction false} NatToLeOfLeToNat(s: seq<byte>)
    ensures NatToLe(LeToNat(s), |s|) == s
  {
    if |s| > 0 {
      var b, rest := s[0], s[1..];
      assert s == [b] + rest;
      NatToLeOfLeToNat(rest);
      LeToNatCons(b, rest);
      DivMod256(LeToNat(rest), b);
    }
  }

  lemma ReverseSnoc(p: seq<byte>, x: byte)
    ensures Reverse(p + [x]) == [x] + Reverse(p)
  {
  }

  /** The little-endian encoding is the big-endian encoding reversed. */
  lemma {:induction false} NatToLeIsReversedBe(v: nat, n: nat)
    ensures NatToLe(v, n) == Reverse(NatToBe(v, n))
  {
    if n > 0 {
      NatToLeIsReversedBe(v / 256, n - 1);
      ReverseSnoc(NatToBe(v / 256, n - 1), LowByte(v));
    }
  }

  lemma {:induction false} NatToLeOfZero(n: nat)
    ensures NatToLe(0, n) == Zeros(n)
  {
    if n > 0 {
      NatToLeOfZero(n - 1);
    }
  }

  lemma {:induction false} NatToBeOfZero(n: nat)
    ensures NatToBe(0, n) == Zeros(n)
  {
    if n > 0 {
      NatToBeOfZero(n - 1);
    }
  }

  /** Writing a value that fits in `m` bytes little-endian into `m + k` bytes pads it with `k` zero bytes. */
  lemma {:induction false} NatToLeWiden(v: nat, m: nat, k: nat)
    requires v < Pow256(m)
    ensures NatToLe(v, m + k) == NatToLe(v, m) + Zeros(k)
  {
    if m == 0 {
      NatToLeOfZero(k);
    } else {
      NatToLeWiden(v / 256, m - 1, k);
    }
  }

  /** Writing a value that fits in `m` bytes big-endian into `m + k` bytes prefixes it with `k` zero bytes. */
  lemma {:induction false} NatToBeWiden(v: nat, m: nat, k: nat)
    requires v < Pow256(m)
    ensures NatToBe(v, m + k) == Zeros(k) + NatToBe(v, m)
  {
    if m == 0 {
      NatToBeOfZero(k);
    } else {
      NatToBeWiden(v / 256, m - 1, k);
      assert NatToBe(v, m + k) == NatToBe(v / 256, m - 1 + k) + [LowByte(v)];
    }
  }

  /** Zero bytes read as the integer zero in either byte order. */
  lemma {:induction false} BeToNatOfZeros(n: nat)
    ensures BeToNat(Zeros(n)) == 0
  {
    if n > 0 {
      BeToNatOfZeros(n - 1);
      assert Zeros(n)[..n - 1] == Zeros(n - 1);
    }
  }
}
