/**
 * The 32-byte frame header repacking of src/header.rs: integers read at one
 * set of offsets (`frame_field`) and written back at another (`byte_field`).
 */
module Header {
  import opened Wrappers
  import opened Bytes

  const SIZE: nat := 32

  type U16 = n: nat | n < 0x1_0000
  type U32 = n: nat | n < 0x1_0000_0000
  type U64 = n: nat | n < 0x1_0000_0000_0000_0000

  datatype FrameHeader = FrameHeader(unk1: U32, unk2: U16, unk3: U64, unk4: U64)

  lemma Pow256Widths()
    ensures Pow256(2) == 0x1_0000
    ensures Pow256(4) == 0x1_0000_0000
    ensures Pow256(8) == 0x1_0000_0000_0000_0000
  {
    assert Pow256(1) == 256;
    assert Pow256(2) == 0x1_0000;
    assert Pow256(3) == 0x100_0000;
    assert Pow256(4) == 0x1_0000_0000;
    assert Pow256(5) == 0x100_0000_0000;
    assert Pow256(6) == 0x1_0000_0000_0000;
    assert Pow256(7) == 0x100_0000_0000_0000;
  }

  /**
   * `transform_header`: a big-endian `u32` at 0..4 and `u16` at 8..10 and
   * little-endian `u64`s at 16..24 and 24..32 are read; a zeroed buffer gets
   * them little-endian as a `u64` at 0..8 and a `u32` at 8..12 (12..16 is
   * never written) and as `u64`s at 16..24 and 24..32.
   */
  function TransformHeader(data: seq<byte>): (out: seq<byte>)
    requires |data| == SIZE
    ensures |out| == SIZE
  {
    var unk1 := BeToNat(data[0..4]);
    var unk2 := BeToNat(data[8..10]);
    var unk3 := LeToNat(data[16..24]);
    var unk4 := LeToNat(data[24..32]);
    NatToLe(unk1, 8) + NatToLe(unk2, 4) + Zeros(4) + NatToLe(unk3, 8) + NatToLe(unk4, 8)
  }

  /** A big-endian read of `k` bytes written little-endian into `k + z` bytes: the bytes reversed, then `z` zeros. */
  lemma {:induction false} BeReadLeWrite(s: seq<byte>, z: nat)
    ensures NatToLe(BeToNat(s), |s| + z) == Reverse(s) + Zeros(z)
  {
    NatToLeWiden(BeToNat(s), |s|, z);
    NatToLeIsReversedBe(BeToNat(s), |s|);
    NatToBeOfBeToNat(s);
  }

  /** The output of `transform_header`, write by write: each field as the bytes it was read from. */
  lemma TransformHeaderFields(data: seq<byte>)
    requires |data| == SIZE
    ensures TransformHeader(data)
      == Reverse(data[0..4]) + Zeros(4) + Reverse(data[8..10]) + Zeros(2) + Zeros(4) + data[16..24] + data[24..32]
  {
    BeReadLeWrite(data[0..4], 4);
    BeReadLeWrite(data[8..10], 2);
    NatToLeOfLeToNat(data[16..24]);
    NatToLeOfLeToNat(data[24..32]);
  }

  /** Adjacent zero runs merge, and adjacent copied ranges join. */
  lemma Regroup(front: seq<byte>, p: seq<byte>, q: seq<byte>)
    ensures front + Zeros(2) + Zeros(4) + p + q == front + Zeros(6) + (p + q)
  {
    assert Zeros(2) + Zeros(4) == Zeros(6);
  }

  /**
   * The output of `transform_header`, byte range by byte range: 0..4 the
   * input's 0..4 reversed, 4..8 zero, 8..10 the input's 8..10 reversed,
   * 10..16 zero, and 16..32 the input's 16..32 unchanged.
   */
  lemma TransformHeaderLayout(data: seq<byte>)
    requires |data| == SIZE
    ensures TransformHeader(data)
      == Reverse(data[0..4]) + Zeros(4) + Reverse(data[8..10]) + Zeros(6) + data[16..32]
  {
    TransformHeaderFields(data);
    Regroup(Reverse(data[0..4]) + Zeros(4) + Reverse(data[8..10]), data[16..24], data[24..32]);
    assert data[16..24] + data[24..32] == data[16..32];
  }

  /** Input bytes 4..8 and 10..16 never reach the output of `transform_header`. */
  lemma TransformHeaderIgnoresGaps(d1: seq<byte>, d2: seq<byte>)
    requires |d1| == SIZE && |d2| == SIZE
    requires d1[0..4] == d2[0..4] && d1[8..10] == d2[8..10] && d1[16..32] == d2[16..32]
    ensures TransformHeader(d1) == TransformHeader(d2)
  {
    TransformHeaderLayout(d1);
    TransformHeaderLayout(d2);
  }

  /**
   * `FrameHeader::from_frame`: big-endian reads at `frame_field` offsets;
   * `None` where slicing a frame shorter than 32 bytes panics.
   */
  function FromFrame(data: seq<byte>): (r: Option<FrameHeader>)
    ensures r.Some? <==> |data| >= SIZE
  {
    if |data| < SIZE then None
    else
      Pow256Widths();
      Some(FrameHeader(BeToNat(data[0..4]), BeToNat(data[8..10]), BeToNat(data[16..24]), BeToNat(data[24..32])))
  }

  /**
   * `FrameHeader::to_bytes`: a zeroed buffer gets `unk1` big-endian as a
   * `u64` at 0..8 and `unk2` as a `u32` at 8..12 (12..16 is never written),
   * then `unk3` and `unk4` big-endian at 16..24 and 24..32.
   */
  function ToBytes(h: FrameHeader): (out: seq<byte>)
    ensures |out| == SIZE
  {
    NatToBe(h.unk1, 8) + NatToBe(h.unk2, 4) + Zeros(4) + NatToBe(h.unk3, 8) + NatToBe(h.unk4, 8)
  }

  /**
   * The output of `to_bytes`: 0..4 zero, `unk1` big-endian at 4..8, 8..10
   * zero, `unk2` big-endian at 10..12, 12..16 zero, then `unk3` and `unk4`
   * big-endian.
   */
  lemma ToBytesLayout(h: FrameHeader)
    ensures ToBytes(h) == Zeros(4) + NatToBe(h.unk1, 4) + Zeros(2) + NatToBe(h.unk2, 2) + Zeros(4)
      + NatToBe(h.unk3, 8) + NatToBe(h.unk4, 8)
  {
    Pow256Widths();
    NatToBeWiden(h.unk1, 4, 4);
    NatToBeWiden(h.unk2, 2, 2);
  }

  /** `to_bytes` of the header read from the four big-endian fields `a`, `b`, `c`, `d`. */
  lemma ToBytesOfReads(a: seq<byte>, b: seq<byte>, c: seq<byte>, d: seq<byte>)
    requires |a| == 4 && |b| == 2 && |c| == 8 && |d| == 8
    ensures Pow256(2) == 0x1_0000 && Pow256(4) == 0x1_0000_0000 && Pow256(8) == 0x1_0000_0000_0000_0000
    ensures ToBytes(FrameHeader(BeToNat(a), BeToNat(b), BeToNat(c), BeToNat(d)))
      == Zeros(4) + a + Zeros(2) + b + Zeros(4) + c + d
  {
    Pow256Widths();
    ToBytesLayout(FrameHeader(BeToNat(a), BeToNat(b), BeToNat(c), BeToNat(d)));
    NatToBeOfBeToNat(a);
    NatToBeOfBeToNat(b);
    NatToBeOfBeToNat(c);
    NatToBeOfBeToNat(d);
  }

  /** `to_bytes` of a parsed frame: bytes 0..4 reappear at 4..8 and 8..10 at 10..12; 16..24 and 24..32 are reproduced. */
  lemma ToBytesOfFromFrame(data: seq<byte>)
    requires |data| >= SIZE
    ensures ToBytes(FromFrame(data).value)
      == Zeros(4) + data[0..4] + Zeros(2) + data[8..10] + Zeros(4) + data[16..24] + data[24..32]
  {
    ToBytesOfReads(data[0..4], data[8..10], data[16..24], data[24..32]);
  }

  /** `from_frame` then `to_bytes` gives the first 32 bytes back exactly when the first 16 of them are zero. */
  lemma ToBytesOfFromFrameRoundTrip(data: seq<byte>)
    requires |data| >= SIZE
    ensures ToBytes(FromFrame(data).value) == data[..SIZE] <==> data[..16] == Zeros(16)
  {
    ToBytesOfFromFrame(data);
    var out := ToBytes(FromFrame(data).value);
    if out == data[..SIZE] {
      forall i | 0 <= i < 16
        ensures data[i] == 0
      {
        if i < 4 || 8 <= i < 10 || 12 <= i {
          assert data[i] == out[i];
        } else if i < 8 {
          assert data[i] == out[i] == data[i - 4] == out[i - 4];
        } else {
          assert data[i] == out[i] == data[i - 2] == out[i - 2];
        }
      }
    }
    if data[..16] == Zeros(16) {
      assert data[0..4] == Zeros(4) && data[8..10] == Zeros(2);
      assert data[..SIZE] == data[..16] + data[16..32];
    }
  }

  /** `to_bytes` then `from_frame` loses `unk1` and `unk2`: the reads at 0..4 and 8..10 see zero bytes. */
  lemma FromFrameOfToBytes(h: FrameHeader)
    ensures FromFrame(ToBytes(h)) == Some(FrameHeader(0, 0, h.unk3, h.unk4))
  {
    ToBytesLayout(h);
    Pow256Widths();
    var out := ToBytes(h);
    assert out[0..4] == Zeros(4);
    assert out[8..10] == Zeros(2);
    assert out[16..24] == NatToBe(h.unk3, 8);
    assert out[24..32] == NatToBe(h.unk4, 8);
    BeToNatOfZeros(4);
    BeToNatOfZeros(2);
    BeToNatOfNatToBe(h.unk3, 8);
    BeToNatOfNatToBe(h.unk4, 8);
  }
}
