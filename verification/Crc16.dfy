/** The byte-wise CRC-16 round against eight clocks of the shift register it replaces. */
module Crc16 {
  import opened Gf2

  /** The 16-bit register and the bytes fed to it. */
  datatype Reg = Reg(bits: bv16)
  datatype Byte = Byte(bits: bv8)

  /** crc16_round: swap the bytes, add the data, fold with shifts by 4, 12 and 5. */
  function Round(crc: bv16, data: bv8): bv16 {
    var a: bv16 := (crc >> 8) | (crc << 8);
    var b: bv16 := a ^ (data as bv16);
    var c: bv16 := b ^ ((b >> 4) & 0xF);
    var d: bv16 := c ^ (c << 12);
    d ^ ((d & 0xFF) << 5)
  }

  /** The mask of the k-th bit, highest first. */
  function RegMask(k: nat): bv16
    requires k < 16
  {
    if k == 0 then 0x8000 else if k == 1 then 0x4000 else if k == 2 then 0x2000 else if k == 3 then 0x1000
    else if k == 4 then 0x800 else if k == 5 then 0x400 else if k == 6 then 0x200 else if k == 7 then 0x100
    else if k == 8 then 0x80 else if k == 9 then 0x40 else if k == 10 then 0x20 else if k == 11 then 0x10
    else if k == 12 then 0x8 else if k == 13 then 0x4 else if k == 14 then 0x2 else 0x1
  }

  function ByteMask(k: nat): bv8
    requires k < 8
  {
    if k == 0 then 0x80 else if k == 1 then 0x40 else if k == 2 then 0x20 else if k == 3 then 0x10
    else if k == 4 then 0x8 else if k == 5 then 0x4 else if k == 6 then 0x2 else 0x1
  }

  /** Bit k of the register, of a byte, and of the one against the other; highest first. */
  predicate RegAt(r: Reg, k: nat)
    requires k < 16
  {
    r.bits & RegMask(k) != 0
  }

  predicate ByteAt(b: Byte, k: nat)
    requires k < 8
  {
    b.bits & ByteMask(k) != 0
  }

  predicate MeetAt(r: Reg, b: Byte, k: nat)
    requires k < 8
  {
    (r.bits & RegMask(k) != 0) != (b.bits & ByteMask(k) != 0)
  }

  function Step(crc: Reg, data: Byte): Reg {
    Reg(Round(crc.bits, data.bits))
  }

  // ----- the round, output bit by output bit

  lemma {:induction false} Round0(c: Reg, d: Byte)
    ensures RegAt(Step(c, d), 0) == (RegAt(c, 8) != (MeetAt(c, d, 4) != MeetAt(c, d, 0)))
  {}

  lemma {:induction false} Round1(c: Reg, d: Byte)
    ensures RegAt(Step(c, d), 1) == (RegAt(c, 9) != (MeetAt(c, d, 5) != MeetAt(c, d, 1)))
  {}

  lemma {:induction false} Round2(c: Reg, d: Byte)
    ensures RegAt(Step(c, d), 2) == (RegAt(c, 10) != (MeetAt(c, d, 6) != MeetAt(c, d, 2)))
  {}

  lemma {:induction false} Round3(c: Reg, d: Byte)
    ensures RegAt(Step(c, d), 3) == ((RegAt(c, 11) != MeetAt(c, d, 7)) != (MeetAt(c, d, 3) != MeetAt(c, d, 0)))
  {}

  lemma {:induction false} Round4(c: Reg, d: Byte)
    ensures RegAt(Step(c, d), 4) == (RegAt(c, 12) != MeetAt(c, d, 1))
  {}

  lemma {:induction false} Round5(c: Reg, d: Byte)
    ensures RegAt(Step(c, d), 5) == (RegAt(c, 13) != MeetAt(c, d, 2))
  {}

  lemma {:induction false} Round6(c: Reg, d: Byte)
    ensures RegAt(Step(c, d), 6) == (RegAt(c, 14) != MeetAt(c, d, 3))
  {}

  lemma {:induction false} Round7(c: Reg, d: Byte)
    ensures RegAt(Step(c, d), 7) == (RegAt(c, 15) != (MeetAt(c, d, 4) != MeetAt(c, d, 0)))
  {}

  lemma {:induction false} Round8(c: Reg, d: Byte)
    ensures RegAt(Step(c, d), 8) == (MeetAt(c, d, 5) != (MeetAt(c, d, 1) != MeetAt(c, d, 0)))
  {}

  lemma {:induction false} Round9(c: Reg, d: Byte)
    ensures RegAt(Step(c, d), 9) == (MeetAt(c, d, 6) != (MeetAt(c, d, 2) != MeetAt(c, d, 1)))
  {}

  lemma {:induction false} Round10(c: Reg, d: Byte)
    ensures RegAt(Step(c, d), 10) == (MeetAt(c, d, 7) != (MeetAt(c, d, 3) != MeetAt(c, d, 2)))
  {}

  lemma {:induction false} Round11(c: Reg, d: Byte)
    ensures RegAt(Step(c, d), 11) == MeetAt(c, d, 3)
  {}

  lemma {:induction false} Round12(c: Reg, d: Byte)
    ensures RegAt(Step(c, d), 12) == (MeetAt(c, d, 4) != MeetAt(c, d, 0))
  {}

  lemma {:induction false} Round13(c: Reg, d: Byte)
    ensures RegAt(Step(c, d), 13) == (MeetAt(c, d, 5) != MeetAt(c, d, 1))
  {}

  lemma {:induction false} Round14(c: Reg, d: Byte)
    ensures RegAt(Step(c, d), 14) == (MeetAt(c, d, 6) != MeetAt(c, d, 2))
  {}

  lemma {:induction false} Round15(c: Reg, d: Byte)
    ensures RegAt(Step(c, d), 15) == (MeetAt(c, d, 7) != MeetAt(c, d, 3))
  {}

  // ----- the register and the bytes as polynomials

  /** The register as a polynomial, highest power first. */
  function Bits(r: Reg): (p: seq<bool>)
    ensures |p| == 16
  {
    seq(16, k requires 0 <= k < 16 => RegAt(r, k))
  }

  /** The byte as it is sent, most significant bit first. */
  function ByteBits(b: Byte): (p: seq<bool>)
    ensures |p| == 8
  {
    seq(8, k requires 0 <= k < 8 => ByteAt(b, k))
  }

  // ----- eight clocks

  /** The bits fed back while a byte is clocked in: register against data, and the upper half again in the lower. */
  ghost predicate Fed(r: seq<bool>, d: seq<bool>, i: int)
    requires |r| == 16 && |d| == 8
  {
    0 <= i < 8 && ((r[i] != d[i]) != (i >= 4 && r[i - 4] != d[i - 4]))
  }

  /** Those of the first j clocks. */
  ghost predicate FedBy(r: seq<bool>, d: seq<bool>, j: int, i: int)
    requires |r| == 16 && |d| == 8
  {
    i < j && Fed(r, d, i)
  }

  /** Bit k of the register after j clocks of a byte. */
  ghost predicate After(r: seq<bool>, d: seq<bool>, j: nat, k: nat)
    requires |r| == 16 && |d| == 8
  {
    var i := k + j;
    ((i < 16 && r[i]) != FedBy(r, d, j, i - 4)) != (FedBy(r, d, j, i - 11) != FedBy(r, d, j, i - 16))
  }

  lemma {:induction false} PolyAt(k: nat)
    requires k < 16
    ensures POLY[k] == (k == 3 || k == 10 || k == 15)
  {}

  lemma {:induction false} FeedNext(r: seq<bool>, d: seq<bool>, j: nat)
    requires |r| == 16 && j < |d|
    ensures Feed(r, d[..j + 1]) == Clock(Feed(r, d[..j]), d[j])
  {
    assert d[..j + 1][..j] == d[..j] && d[..j + 1][j] == d[j];
    hide Clock;
  }

  lemma {:induction false} ClockAt(r: seq<bool>, bit: bool, k: nat)
    requires |r| == 16 && k < 16
    ensures Clock(r, bit)[k] == ((k < 15 && r[k + 1]) != ((r[0] != bit) && (k == 3 || k == 10 || k == 15)))
  {
    PolyAt(k);
    hide POLY;
  }

  lemma {:induction false} FedNow(r: seq<bool>, d: seq<bool>, j: nat)
    requires |r| == 16 && |d| == 8 && j < 8
    ensures (After(r, d, j, 0) != d[j]) == Fed(r, d, j)
  {}

  lemma {:induction false} FedByNext(r: seq<bool>, d: seq<bool>, j: nat, i: int)
    requires |r| == 16 && |d| == 8 && j < 8
    ensures FedBy(r, d, j + 1, i) == (FedBy(r, d, j, i) != (i == j && Fed(r, d, j)))
  {
    hide Fed;
  }

  lemma {:induction false} AfterNext(r: seq<bool>, d: seq<bool>, j: nat, k: nat)
    requires |r| == 16 && |d| == 8 && j < 8 && k < 16
    ensures After(r, d, j + 1, k) ==
            ((k < 15 && After(r, d, j, k + 1)) != (Fed(r, d, j) && (k == 3 || k == 10 || k == 15)))
  {
    FedByNext(r, d, j, k + j - 3);
    FedByNext(r, d, j, k + j - 10);
    FedByNext(r, d, j, k + j - 15);
    if k == 15 {
      assert !FedBy(r, d, j, j + 12) && !FedBy(r, d, j, j + 5) && !FedBy(r, d, j, j);
    }
    hide FedBy, Fed;
  }

  lemma {:induction false} Clocks(r: seq<bool>, d: seq<bool>, j: nat, k: nat)
    requires |r| == 16 && |d| == 8 && j <= 8 && k < 16
    ensures Feed(r, d[..j])[k] == After(r, d, j, k)
  {
    if j == 0 {
      assert d[..0] == [];
      assert Feed(r, d[..0]) == r;
      assert After(r, d, 0, k) == r[k];
      hide *;
    } else {
      hide *;
      FeedNext(r, d, j - 1);
      ClockAt(Feed(r, d[..j - 1]), d[j - 1], k);
      AfterNext(r, d, j - 1, k);
      FedNow(r, d, j - 1);
      Clocks(r, d, j - 1, 0);
      if k < 15 {
        Clocks(r, d, j - 1, k + 1);
      }
    }
  }

  lemma {:induction false} MeetIs(c: Reg, d: Byte, k: nat)
    requires k < 8
    ensures MeetAt(c, d, k) == (Bits(c)[k] != ByteBits(d)[k])
  {
    hide RegMask, ByteMask;
  }

  lemma {:induction false} FedIs(c: Reg, d: Byte, i: int)
    ensures FedBy(Bits(c), ByteBits(d), 8, i) == (0 <= i < 8 && (MeetAt(c, d, i) != (i >= 4 && MeetAt(c, d, i - 4))))
  {
    hide MeetAt, Bits, ByteBits;
    if 0 <= i < 8 {
      MeetIs(c, d, i);
      if i >= 4 {
        MeetIs(c, d, i - 4);
      }
    }
  }

  lemma {:induction false} AfterIs(c: Reg, d: Byte, k: nat)
    requires k < 16
    ensures After(Bits(c), ByteBits(d), 8, k) ==
            (((k < 8 && RegAt(c, k + 8)) != FedBy(Bits(c), ByteBits(d), 8, k + 4))
             != (FedBy(Bits(c), ByteBits(d), 8, k - 3) != FedBy(Bits(c), ByteBits(d), 8, k - 8)))
  {
    hide FedBy, RegAt;
  }

  lemma {:induction false} RoundIsAfter0(crc: Reg, data: Byte, k: nat)
    requires 0 <= k < 4
    ensures RegAt(Step(crc, data), k) == After(Bits(crc), ByteBits(data), 8, k)
  {
    hide *;
    AfterIs(crc, data, k);
    FedIs(crc, data, k + 4);
    FedIs(crc, data, k - 3);
    FedIs(crc, data, k - 8);
    if k == 0 {
      Round0(crc, data);
    } else if k == 1 {
      Round1(crc, data);
    } else if k == 2 {
      Round2(crc, data);
    } else {
      Round3(crc, data);
    }
  }

  lemma {:induction false} RoundIsAfter4(crc: Reg, data: Byte, k: nat)
    requires 4 <= k < 8
    ensures RegAt(Step(crc, data), k) == After(Bits(crc), ByteBits(data), 8, k)
  {
    hide *;
    AfterIs(crc, data, k);
    FedIs(crc, data, k + 4);
    FedIs(crc, data, k - 3);
    FedIs(crc, data, k - 8);
    if k == 4 {
      Round4(crc, data);
    } else if k == 5 {
      Round5(crc, data);
    } else if k == 6 {
      Round6(crc, data);
    } else {
      Round7(crc, data);
    }
  }

  lemma {:induction false} RoundIsAfter8(crc: Reg, data: Byte, k: nat)
    requires 8 <= k < 12
    ensures RegAt(Step(crc, data), k) == After(Bits(crc), ByteBits(data), 8, k)
  {
    hide *;
    AfterIs(crc, data, k);
    FedIs(crc, data, k + 4);
    FedIs(crc, data, k - 3);
    FedIs(crc, data, k - 8);
    if k == 8 {
      Round8(crc, data);
    } else if k == 9 {
      Round9(crc, data);
    } else if k == 10 {
      Round10(crc, data);
    } else {
      Round11(crc, data);
    }
  }

  lemma {:induction false} RoundIsAfter12(crc: Reg, data: Byte, k: nat)
    requires 12 <= k < 16
    ensures RegAt(Step(crc, data), k) == After(Bits(crc), ByteBits(data), 8, k)
  {
    hide *;
    AfterIs(crc, data, k);
    FedIs(crc, data, k + 4);
    FedIs(crc, data, k - 3);
    FedIs(crc, data, k - 8);
    if k == 12 {
      Round12(crc, data);
    } else if k == 13 {
      Round13(crc, data);
    } else if k == 14 {
      Round14(crc, data);
    } else {
      Round15(crc, data);
    }
  }

  /** Bit k of the round is bit k of the register after eight clocks. */
  lemma {:induction false} RoundIsAfter(crc: Reg, data: Byte, k: nat)
    requires k < 16
    ensures Bits(Step(crc, data))[k] == After(Bits(crc), ByteBits(data), 8, k)
  {
    assert Bits(Step(crc, data))[k] == RegAt(Step(crc, data), k) by { hide RegAt; }
    hide *;
    if k < 4 {
      RoundIsAfter0(crc, data, k);
    } else if k < 8 {
      RoundIsAfter4(crc, data, k);
    } else if k < 12 {
      RoundIsAfter8(crc, data, k);
    } else {
      RoundIsAfter12(crc, data, k);
    }
  }

  /** The branch-free round is eight clocks of the shift register, most significant bit first. */
  lemma {:induction false} RoundIsEightClocks(crc: Reg, data: Byte)
    ensures Bits(Step(crc, data)) == Feed(Bits(crc), ByteBits(data))
  {
    hide *;
    forall k | 0 <= k < 16
      ensures Bits(Step(crc, data))[k] == Feed(Bits(crc), ByteBits(data))[k]
    {
      RoundIsAfter(crc, data, k);
      Clocks(Bits(crc), ByteBits(data), 8, k);
      assert ByteBits(data)[..8] == ByteBits(data);
    }
  }

  // ----- blocks

  /** The loop of sd_copy over a block. */
  function Crc(block: seq<Byte>): Reg {
    if block == [] then Reg(0) else Step(Crc(block[..|block| - 1]), block[|block| - 1])
  }

  /** A block as the polynomial sent. */
  function BlockBits(block: seq<Byte>): (p: seq<bool>)
    ensures |p| == 8 * |block|
  {
    if block == [] then [] else BlockBits(block[..|block| - 1]) + ByteBits(block[|block| - 1])
  }

  lemma {:induction false} FeedAppend(r: seq<bool>, a: seq<bool>, b: seq<bool>)
    requires |r| == 16
    ensures Feed(r, a + b) == Feed(Feed(r, a), b)
  {
    if b == [] {
      assert a + b == a;
    } else {
      var n := |b| - 1;
      assert (a + b)[..|a + b| - 1] == a + b[..n] && (a + b)[|a + b| - 1] == b[n];
      FeedAppend(r, a, b[..n]);
      hide Clock;
    }
  }

  lemma {:induction false} ZeroBits()
    ensures Bits(Reg(0)) == Zeros(16)
  {
    hide RegMask;
  }

  /** The running CRC of a block of any length is the remainder of the block times x^16. */
  lemma {:induction false} CrcIsRemainder(block: seq<Byte>)
    ensures Bits(Crc(block)) == Rem(BlockBits(block))
  {
    if block == [] {
      ZeroBits();
    } else {
      var n := |block| - 1;
      CrcIsRemainder(block[..n]);
      RoundIsEightClocks(Crc(block[..n]), block[n]);
      FeedAppend(Zeros(16), BlockBits(block[..n]), ByteBits(block[n]));
      hide Step, Bits, ByteBits, Feed;
    }
  }
}
