/** The driver that predicts the GPS core's codes. */
module Gps {
  import opened Bits
  import opened Lfsr
  import opened PCodeWeek
  import opened PCodeTable

  const MIN_SAT := 1
  const MAX_SAT := 37

  /** Eight chips, first chip in the most significant bit. */
  function PackByte(c: seq<bool>): bv8
    requires |c| == 8
  {
    (Nibble(c[..4]) << 4) | Nibble(c[4..])
  }

  function Nibble(c: seq<bool>): (v: bv8)
    requires |c| == 4
    ensures v & 0x0F == v
  {
    ((if c[0] then 1 else 0) << 3) | ((if c[1] then 1 else 0) << 2)
    | ((if c[2] then 1 else 0) << 1) | ((if c[3] then 1 else 0) << 0)
  }

  /** Bit 7 - i of a packed byte is chip i. */
  lemma PackedBit(c: seq<bool>)
    requires |c| == 8
    ensures var v := PackByte(c);
            && (v & 0x80 != 0 <==> c[0]) && (v & 0x40 != 0 <==> c[1])
            && (v & 0x20 != 0 <==> c[2]) && (v & 0x10 != 0 <==> c[3])
            && (v & 0x08 != 0 <==> c[4]) && (v & 0x04 != 0 <==> c[5])
            && (v & 0x02 != 0 <==> c[6]) && (v & 0x01 != 0 <==> c[7])
  {
    NibbleBits(c[..4]);
    NibbleBits(c[4..]);
    hide Nibble;
  }

  lemma NibbleBits(c: seq<bool>)
    requires |c| == 4
    ensures var v := Nibble(c);
            && (v & 8 != 0 <==> c[0]) && (v & 4 != 0 <==> c[1])
            && (v & 2 != 0 <==> c[2]) && (v & 1 != 0 <==> c[3])
  {}

  ghost function Chips(k: Constants, buf: seq<bv8>, start: nat, prn: nat, count: nat): (c: seq<bool>)
    requires Usable(k, buf)
    ensures |c| == count
  {
    seq(count, j requires 0 <= j < count => PCodeLookup(k, buf, start + j, prn))
  }

  /** The chips that the clocked registers give at the times asked for. */
  ghost function ClockedChips(t: Timing, r: Regs, start: nat, prn: nat, count: nat): (c: seq<bool>)
    requires prn <= t.Week()
    ensures |c| == count
  {
    seq(count, j requires 0 <= j < count => CodeChip(t, r, Time(start + j, prn), prn))
  }

  /** The chips of a satellite's code, X1 xor X2 delayed by its number, from a time on. */
  ghost function CodeFrom(t: Timing, r: Regs, time: nat, prn: nat, count: nat): (c: seq<bool>)
    requires prn <= t.Week()
    ensures |c| == count
  {
    seq(count, j requires 0 <= j < count =>
      X1Chip(Run(t, r, time + j)) != X2Chip(Run(t, r, time + j + t.Week() - prn)))
  }

  /** The two sets of constants the driver uses. */
  ghost predicate Known(k: Constants) { k == STANDARD || k == FAST }

  /** The generators those constants are for. */
  ghost function TimingOf(k: Constants): Timing {
    if k == STANDARD then STANDARD_TIMING else FAST_TIMING
  }

  lemma {:induction false} KnownDescribes(k: Constants)
    requires Known(k)
    ensures Describes(k, TimingOf(k)) && 256 <= TimingOf(k).Week() <= 6187104000000
  {
    StandardDescribes();
    FastDescribes();
    hide Describes, Timing.Week;
  }

  lemma KnownIsUsable(k: Constants, buf: seq<bv8>)
    requires Known(k) && |buf| == TABLE_SIZE
    ensures Usable(k, buf)
  {
    KnownDescribes(k);
    hide Describes, Known, TimingOf;
  }

  class CepGps {
    var mSvNum: int
    var initials: Initials
    var constants: Constants
    const mXBuf: array<bv8>
    var mPcodeIndex: nat
    const mSwPt: array<bv8>

    ghost predicate Shaped()
      reads this
    {
      mXBuf.Length == TABLE_SIZE && mSwPt.Length == 16 && mXBuf != mSwPt && Known(constants)
    }

    /** The index stands at a whole prediction. */
    ghost predicate Valid()
      reads this
    {
      Shaped() && mPcodeIndex % 128 == 0 && mPcodeIndex <= TABLE_SIZE
    }

    /** The table has been computed for the present register contents. */
    ghost predicate Prepared()
      reads this, mXBuf
    {
      Valid() && IsTable(mXBuf[..], initials)
    }

    constructor ()
      ensures Valid() && fresh(mXBuf) && fresh(mSwPt)
      ensures constants == STANDARD && initials == Initials(0x248, 0x554, 0x925, 0x554)
    {
      mSvNum := 0;
      initials := Initials(0x248, 0x554, 0x925, 0x554);
      constants := STANDARD;
      mXBuf, mSwPt := new bv8[TABLE_SIZE], new bv8[16];
      mPcodeIndex := 0;
    }

    /** The fast loop: short cycles and new register contents; the table is not recomputed. */
    method SetPcodeXnInit(x1a: bv16, x1b: bv16, x2a: bv16, x2b: bv16)
      requires Valid()
      modifies this`initials, this`constants
      ensures Valid() && constants == FAST
      ensures initials == Initials((x1a & 0xFFF) as bv12, (x1b & 0xFFF) as bv12,
                                   (x2a & 0xFFF) as bv12, (x2b & 0xFFF) as bv12)
    {
      initials := Initials((x1a & 0xFFF) as bv12, (x1b & 0xFFF) as bv12,
                           (x2a & 0xFFF) as bv12, (x2b & 0xFFF) as bv12);
      constants := FAST;
    }

    /** Fills the table with what the four registers deliver in 4096 shifts. */
    method XPrep()
      requires Valid()
      modifies mXBuf, this`mPcodeIndex
      ensures Prepared() && mPcodeIndex == 0
    {
      hide Shifted, Shift, TopBit, Entry, EntryAt, Known;
      var x1a, x1b, x2a, x2b := initials.x1a, initials.x1b, initials.x2a, initials.x2b;
      ShiftedZero(initials);
      var i := 0;
      while i < TABLE_SIZE
        invariant 0 <= i <= TABLE_SIZE
        invariant x1a == Shifted(X1A_POLYNOMIAL, initials.x1a, i) && x1b == Shifted(X1B_POLYNOMIAL, initials.x1b, i)
        invariant x2a == Shifted(X2A_POLYNOMIAL, initials.x2a, i) && x2b == Shifted(X2B_POLYNOMIAL, initials.x2b, i)
        invariant forall n | 0 <= n < i :: EntryAt(mXBuf[n], initials, n)
      {
        mXBuf[i] := Entry(TopBit(x1a), TopBit(x1b), TopBit(x2a), TopBit(x2b));
        EntryStored(mXBuf[i], initials, i);
        ShiftedNext(initials, i);
        x1a, x1b := Shift(X1A_POLYNOMIAL, x1a), Shift(X1B_POLYNOMIAL, x1b);
        x2a, x2b := Shift(X2A_POLYNOMIAL, x2a), Shift(X2B_POLYNOMIAL, x2b);
        i := i + 1;
      }
      ghost var table := mXBuf[..];
      assert IsTable(table, initials);
      mPcodeIndex := 0;
      assert mXBuf[..] == table;
    }

    method SetSvNum(svNum: int)
      requires Valid()
      modifies mXBuf, this`mPcodeIndex, this`mSvNum
      ensures Prepared() && mPcodeIndex == 0
      ensures mSvNum == if svNum > MAX_SAT then MIN_SAT else svNum
    {
      hide Known, IsTable;
      XPrep();
      ghost var table := mXBuf[..];
      mSvNum := if svNum > MAX_SAT then MIN_SAT else svNum;
      assert mXBuf[..] == table;
    }

    /**
     The next 128 chips as the clocked registers give them, eight to a byte, first chip in the most significant
     bit.
     */
    method GenPCode()
      requires Prepared()
      modifies this`mPcodeIndex, mSwPt
      ensures Prepared() && mSvNum % 256 <= TimingOf(constants).Week()
      ensures var start := if old(mPcodeIndex) == TABLE_SIZE then 0 else old(mPcodeIndex);
              && mPcodeIndex == start + 128
              && forall j | 0 <= j < 16 ::
                   mSwPt[j] == PackByte(ClockedChips(TimingOf(constants), RegsOf(initials), start + 8 * j,
                                                     mSvNum % 256, 8))
      ensures var start := mPcodeIndex - 128;
              1 <= mSvNum <= 37 ==>
                forall j | 0 <= j < 16 ::
                  mSwPt[j] == PackByte(CodeFrom(TimingOf(constants), RegsOf(initials), start + 8 * j, mSvNum, 8))
    {
      hide Known, IsTable, RegsOf, TimingOf, Chips, ClockedChips, CodeFrom, PackByte, Usable, Timing.Week;
      KnownDescribes(constants);
      ghost var buf := mXBuf[..];
      if mPcodeIndex == TABLE_SIZE {
        mPcodeIndex := 0;
        assert mXBuf[..] == buf;
      }
      ghost var start := mPcodeIndex;
      PackChips();
      PredictionIsClocked(constants, buf, initials, start, mSvNum % 256);
      if 1 <= mSvNum <= 37 {
        PredictionIsNow(TimingOf(constants), RegsOf(initials), start, mSvNum);
      }
    }

    /** The loop: 128 table lookups from the index on. */
    method PackChips()
      requires Prepared() && mPcodeIndex < TABLE_SIZE
      modifies this`mPcodeIndex, mSwPt
      ensures Prepared() && mXBuf[..] == old(mXBuf[..])
      ensures mPcodeIndex == old(mPcodeIndex) + 128
      ensures Usable(constants, mXBuf[..])
      ensures forall j | 0 <= j < 16 ::
                mSwPt[j] == PackByte(Chips(constants, mXBuf[..], old(mPcodeIndex) + 8 * j, mSvNum % 256, 8))
    {
      hide Known, Usable, IsTable, Chips, PackByte, Nibble;
      ghost var k, buf, prn := constants, mXBuf[..], mSvNum % 256;
      KnownIsUsable(k, buf);
      ghost var start := mPcodeIndex;
      var i := 0;
      while i < 128
        invariant 0 <= i <= 128 && i % 4 == 0 && mPcodeIndex == start + i
        invariant Shaped() && constants == k && mXBuf[..] == buf
        invariant forall j | 0 <= j < i / 8 :: mSwPt[j] == PackByte(Chips(k, buf, start + 8 * j, prn, 8))
        invariant i % 8 == 4 ==> mSwPt[i / 8] == Nibble(Chips(k, buf, start + i - 4, prn, 4)) << 4
      {
        var code := GenNibble();
        assert mXBuf[..] == buf;
        if i % 8 == 0 {
          mSwPt[i / 8] := (code & 0x0F) << 4;
        } else {
          PackHalves(k, buf, start + i - 4, prn);
          mSwPt[i / 8] := mSwPt[i / 8] | (code & 0x0F);
        }
        assert mXBuf[..] == buf;
        i := i + 4;
      }
    }

    /** Four chips into the low half of a byte. */
    method GenNibble() returns (code: bv8)
      requires Shaped()
      modifies this`mPcodeIndex
      ensures mPcodeIndex == old(mPcodeIndex) + 4
      ensures Usable(constants, mXBuf[..])
      ensures code == Nibble(Chips(constants, mXBuf[..], old(mPcodeIndex), mSvNum % 256, 4))
      ensures code & 0x0F == code
    {
      hide PCodeLookup, IsTable, Known, Usable;
      KnownIsUsable(constants, mXBuf[..]);
      ghost var c := Chips(constants, mXBuf[..], mPcodeIndex, mSvNum % 256, 4);
      var prn := mSvNum % 256;
      code := 0;
      var bit := PCodeLookup(constants, mXBuf[..], mPcodeIndex, prn);
      code, mPcodeIndex := code | ((if bit then 1 else 0) << 3), mPcodeIndex + 1;
      bit := PCodeLookup(constants, mXBuf[..], mPcodeIndex, prn);
      code, mPcodeIndex := code | ((if bit then 1 else 0) << 2), mPcodeIndex + 1;
      bit := PCodeLookup(constants, mXBuf[..], mPcodeIndex, prn);
      code, mPcodeIndex := code | ((if bit then 1 else 0) << 1), mPcodeIndex + 1;
      bit := PCodeLookup(constants, mXBuf[..], mPcodeIndex, prn);
      code, mPcodeIndex := code | ((if bit then 1 else 0) << 0), mPcodeIndex + 1;
    }
  }

  lemma EntryStored(e: bv8, i: Initials, n: nat)
    requires e == Entry(TopBit(Shifted(X1A_POLYNOMIAL, i.x1a, n)), TopBit(Shifted(X1B_POLYNOMIAL, i.x1b, n)),
                        TopBit(Shifted(X2A_POLYNOMIAL, i.x2a, n)), TopBit(Shifted(X2B_POLYNOMIAL, i.x2b, n)))
    ensures EntryAt(e, i, n)
  {
    EntryParts(TopBit(Shifted(X1A_POLYNOMIAL, i.x1a, n)), TopBit(Shifted(X1B_POLYNOMIAL, i.x1b, n)),
               TopBit(Shifted(X2A_POLYNOMIAL, i.x2a, n)), TopBit(Shifted(X2B_POLYNOMIAL, i.x2b, n)));
    hide Shifted, TopBit, Entry, X1AOf, X1BOf, X2AOf, X2BOf;
  }

  lemma ShiftedZero(i: Initials)
    ensures Shifted(X1A_POLYNOMIAL, i.x1a, 0) == i.x1a && Shifted(X1B_POLYNOMIAL, i.x1b, 0) == i.x1b
    ensures Shifted(X2A_POLYNOMIAL, i.x2a, 0) == i.x2a && Shifted(X2B_POLYNOMIAL, i.x2b, 0) == i.x2b
  {}

  lemma ShiftedNext(i: Initials, n: nat)
    ensures Shifted(X1A_POLYNOMIAL, i.x1a, n + 1) == Shift(X1A_POLYNOMIAL, Shifted(X1A_POLYNOMIAL, i.x1a, n))
    ensures Shifted(X1B_POLYNOMIAL, i.x1b, n + 1) == Shift(X1B_POLYNOMIAL, Shifted(X1B_POLYNOMIAL, i.x1b, n))
    ensures Shifted(X2A_POLYNOMIAL, i.x2a, n + 1) == Shift(X2A_POLYNOMIAL, Shifted(X2A_POLYNOMIAL, i.x2a, n))
    ensures Shifted(X2B_POLYNOMIAL, i.x2b, n + 1) == Shift(X2B_POLYNOMIAL, Shifted(X2B_POLYNOMIAL, i.x2b, n))
  {}

  lemma PackHalves(k: Constants, buf: seq<bv8>, start: nat, prn: nat)
    requires Usable(k, buf)
    ensures PackByte(Chips(k, buf, start, prn, 8))
         == (Nibble(Chips(k, buf, start, prn, 4)) << 4) | Nibble(Chips(k, buf, start + 4, prn, 4))
  {
    hide PCodeLookup, Nibble;
    var c := Chips(k, buf, start, prn, 8);
    assert c[..4] == Chips(k, buf, start, prn, 4);
    assert c[4..] == Chips(k, buf, start + 4, prn, 4);
  }

  /** Chips by table are chips by clocking, as long as the last time and the week fit 64 bits together. */
  lemma {:induction false} ChipsAreClocked(k: Constants, t: Timing, buf: seq<bv8>, init: Initials,
                                           start: nat, prn: nat, count: nat)
    requires Describes(k, t) && IsTable(buf, init) && Usable(k, buf) && prn < 256 <= t.Week()
    requires Time(start + count, prn) + t.Week() <= TWO64
    ensures Chips(k, buf, start, prn, count) == ClockedChips(t, RegsOf(init), start, prn, count)
  {
    hide PCodeLookup, CodeChip, RegsOf, IsTable, Describes, Usable, Timing.Week, Time;
    forall j | 0 <= j < count
      ensures Chips(k, buf, start, prn, count)[j] == ClockedChips(t, RegsOf(init), start, prn, count)[j]
    {
      TimeGrows(start + j, start + count, prn);
      PCodeAgrees(k, t, buf, init, start + j, prn);
    }
  }

  lemma {:induction false} TimeGrows(a: nat, b: nat, prn: nat)
    requires a < b
    ensures Time(a, prn) < Time(b, prn)
  {}

  lemma {:induction false} TimeSmall(index: nat, prn: nat)
    requires index <= TABLE_SIZE && prn < 256
    ensures Time(index, prn) <= 7 * CHIPS_PER_DAY
  {}

  /** Satellites 1 to 37 are predicted at the index itself. */
  lemma {:induction false} PredictionIsNow(t: Timing, r: Regs, start: nat, prn: nat)
    requires 1 <= prn <= 37 && prn <= t.Week()
    ensures forall j | 0 <= j < 16 ::
              ClockedChips(t, r, start + 8 * j, prn, 8) == CodeFrom(t, r, start + 8 * j, prn, 8)
  {
    hide ClockedChips, CodeFrom, Timing.Week;
    forall j | 0 <= j < 16
      ensures ClockedChips(t, r, start + 8 * j, prn, 8) == CodeFrom(t, r, start + 8 * j, prn, 8)
    {
      ByteIsNow(t, r, start + 8 * j, prn);
    }
  }

  lemma {:induction false} ByteIsNow(t: Timing, r: Regs, time: nat, prn: nat)
    requires 1 <= prn <= 37 && prn <= t.Week()
    ensures ClockedChips(t, r, time, prn, 8) == CodeFrom(t, r, time, prn, 8)
  {
    hide Run, X1Chip, X2Chip, Timing.Week, Time, CodeChip;
    forall i | 0 <= i < 8
      ensures ClockedChips(t, r, time, prn, 8)[i] == CodeFrom(t, r, time, prn, 8)[i]
    {
      TimeIs(time + i, prn, 0);
      CodeChipIs(t, r, time + i, prn);
    }
  }

  /** All sixteen bytes of a prediction. */
  lemma {:induction false} PredictionIsClocked(k: Constants, buf: seq<bv8>, init: Initials, start: nat, prn: nat)
    requires Known(k) && IsTable(buf, init) && Usable(k, buf) && prn < 256 && start + 128 <= TABLE_SIZE
    ensures prn <= TimingOf(k).Week()
    ensures forall j | 0 <= j < 16 ::
              Chips(k, buf, start + 8 * j, prn, 8) == ClockedChips(TimingOf(k), RegsOf(init), start + 8 * j, prn, 8)
  {
    KnownDescribes(k);
    hide Chips, ClockedChips, RegsOf, IsTable, Describes, Usable, Timing.Week, Time, Known, TimingOf;
    forall j | 0 <= j < 16
      ensures Chips(k, buf, start + 8 * j, prn, 8) == ClockedChips(TimingOf(k), RegsOf(init), start + 8 * j, prn, 8)
    {
      TimeSmall(start + 8 * j + 8, prn);
      ChipsAreClocked(k, TimingOf(k), buf, init, start + 8 * j, prn, 8);
    }
  }
}
