/**
 The precision code as the test driver computes it: a table of register outputs, modular
 index arithmetic, and constants derived from the cycle lengths.
 */
module PCodeTable {
  import opened Bits
  import opened Lfsr
  import opened PCodeWeek

  const TABLE_SIZE: nat := 4096
  const CHIPS_PER_DAY: nat := 10230000 * 86400

  datatype Constants = Constants(
    x1aPeriod: nat, x1bPeriod: nat, x2aPeriod: nat, x2bPeriod: nat,
    x1Period: nat, x2Period: nat, xbHold: int, codeLength: nat,
    x2aLastHold: nat, x2bLastHold: nat)

  /** The arithmetic shared by the first constructor and by SetPcodeXnInit. */
  function Derive(aPeriod: nat, bPeriod: nat, xnSpeed: nat, zSpeed: nat): Constants
    requires xnSpeed > 0 && zSpeed > 0 && aPeriod > 0 && bPeriod > 0
  {
    var aLoops := (3750 + xnSpeed - 1) / xnSpeed;
    var bLoops := (3749 + xnSpeed - 1) / xnSpeed;
    var zPeriod := (403200 + zSpeed - 1) / zSpeed;
    var x1Period := aPeriod * aLoops;
    var x2Period := x1Period + 37;
    var codeLength := zPeriod * aLoops * aPeriod;
    Constants(aPeriod, bPeriod, aPeriod, bPeriod, x1Period, x2Period,
              aPeriod * aLoops - bPeriod * bLoops, codeLength,
              (codeLength % x2Period) % aPeriod, (codeLength % x2Period) % bPeriod)
  }

  const STANDARD := Derive(4092, 4093, 1, 1)
  const FAST := Derive(10, 9, 163, 174763)

  ghost const STANDARD_TIMING := Timing(4092, 4093, 3750, 3749, 403200)
  ghost const FAST_TIMING := Timing(10, 9, 24, 23, 3)

  /** The constants are those of generators with this timing, and the table is long enough. */
  ghost predicate Describes(k: Constants, t: Timing) {
    && t.Valid()
    && t.aPeriod <= TABLE_SIZE && t.bPeriod <= TABLE_SIZE && 256 <= t.Week() < TWO64
    && TWO64 % t.Week() != 0
    && k.x1aPeriod == k.x2aPeriod == t.aPeriod && k.x1bPeriod == k.x2bPeriod == t.bPeriod
    && k.x1Period == t.X1Period() && k.x2Period == t.X2Period() && k.codeLength == t.Week()
    && k.xbHold == t.X1Period() - t.bPeriod * t.bLoops
    && k.x2aLastHold == t.LastEpoch() % t.aPeriod && k.x2bLastHold == t.LastEpoch() % t.bPeriod
  }

  lemma {:induction false} DeriveIs(aPeriod: nat, bPeriod: nat, xnSpeed: nat, zSpeed: nat,
                                    aLoops: nat, bLoops: nat, epochs: nat)
    requires xnSpeed > 0 && zSpeed > 0 && aPeriod > 0 && bPeriod > 0
    requires aLoops == Quot(3750 + xnSpeed - 1, xnSpeed) && bLoops == Quot(3749 + xnSpeed - 1, xnSpeed)
    requires epochs == Quot(403200 + zSpeed - 1, zSpeed)
    ensures var x1, week := aPeriod * aLoops, epochs * aLoops * aPeriod;
            Derive(aPeriod, bPeriod, xnSpeed, zSpeed) ==
            Constants(aPeriod, bPeriod, aPeriod, bPeriod, x1, x1 + 37, x1 - bPeriod * bLoops, week,
                      (week % (x1 + 37)) % aPeriod, (week % (x1 + 37)) % bPeriod)
  {}

  lemma {:induction false} StandardConstants()
    ensures STANDARD == Constants(4092, 4093, 4092, 4093, 15345000, 15345037, 343, 6187104000000, 1069, 965)
  {
    assert STANDARD == Derive(4092, 4093, 1, 1);
    hide *;
    QuotRemUnique(3750, 1, 3750, 0);
    QuotRemUnique(3749, 1, 3749, 0);
    QuotRemUnique(403200, 1, 403200, 0);
    DeriveIs(4092, 4093, 1, 1, 3750, 3749, 403200);
  }

  lemma {:induction false} StandardTiming()
    ensures STANDARD_TIMING.X1Period() == 15345000 && STANDARD_TIMING.X2Period() == 15345037
    ensures STANDARD_TIMING.Week() == 6187104000000 && STANDARD_TIMING.LastEpoch() == 426637
  {}

  lemma {:induction false} StandardDescribes()
    ensures Describes(STANDARD, STANDARD_TIMING) && STANDARD_TIMING.Week() == 7 * CHIPS_PER_DAY
  {
    StandardConstants();
    StandardTiming();
    hide Derive, Timing.X1Period, Timing.X2Period, Timing.Week, Timing.LastEpoch;
  }

  lemma {:induction false} FastDescribes()
    ensures Describes(FAST, FAST_TIMING) && FAST_TIMING.Week() == 720
  {}

  // ----- table entries: bit 0 X1A, bit 1 X1B, bit 2 X2A, bit 3 X2B

  function Entry(x1a: bool, x1b: bool, x2a: bool, x2b: bool): bv8 {
    var bits: bv8 := (if x1a then 1 else 0) << 0;
    var bits := bits | ((if x1b then 1 else 0) << 1);
    var bits := bits | ((if x2a then 1 else 0) << 2);
    bits | ((if x2b then 1 else 0) << 3)
  }

  function X1AOf(e: bv8): bool { (e >> 0) & 1 == 1 }
  function X1BOf(e: bv8): bool { (e >> 1) & 1 == 1 }
  function X2AOf(e: bv8): bool { (e >> 2) & 1 == 1 }
  function X2BOf(e: bv8): bool { (e >> 3) & 1 == 1 }

  lemma EntryParts(x1a: bool, x1b: bool, x2a: bool, x2b: bool)
    ensures var e := Entry(x1a, x1b, x2a, x2b);
            X1AOf(e) == x1a && X1BOf(e) == x1b && X2AOf(e) == x2a && X2BOf(e) == x2b
  {}

  /** The four initial register contents. */
  datatype Initials = Initials(x1a: bv12, x1b: bv12, x2a: bv12, x2b: bv12)

  ghost function RegsOf(i: Initials): Regs {
    Regs(Reg(StagesOf(i.x1a), X1A_TAPS), Reg(StagesOf(i.x1b), X1B_TAPS),
         Reg(StagesOf(i.x2a), X2A_TAPS), Reg(StagesOf(i.x2b), X2B_TAPS))
  }

  ghost predicate EntryAt(e: bv8, i: Initials, n: nat) {
    && X1AOf(e) == TopBit(Shifted(X1A_POLYNOMIAL, i.x1a, n))
    && X1BOf(e) == TopBit(Shifted(X1B_POLYNOMIAL, i.x1b, n))
    && X2AOf(e) == TopBit(Shifted(X2A_POLYNOMIAL, i.x2a, n))
    && X2BOf(e) == TopBit(Shifted(X2B_POLYNOMIAL, i.x2b, n))
  }

  ghost predicate IsTable(buf: seq<bv8>, i: Initials) {
    |buf| == TABLE_SIZE && forall n | 0 <= n < TABLE_SIZE :: EntryAt(buf[n], i, n)
  }

  // ----- the lookups

  ghost predicate Usable(k: Constants, buf: seq<bv8>) {
    exists t: Timing :: Describes(k, t) && |buf| == TABLE_SIZE
  }

  function X1Lookup(k: Constants, buf: seq<bv8>, index: nat): bool
    requires Usable(k, buf)
  {
    var i := index % k.x1Period;
    var x1a := X1AOf(buf[i % k.x1aPeriod]);
    var j := if i >= k.x1Period - k.xbHold then k.x1bPeriod - 1 else i;
    var x1b := X1BOf(buf[j % k.x1bPeriod]);
    x1a != x1b
  }

  function X2Lookup(k: Constants, buf: seq<bv8>, index: nat): bool
    requires Usable(k, buf)
  {
    var i := index % k.x2Period;
    var a := if i >= k.x1Period then k.x2aPeriod - 1 else i;
    var x2a := X2AOf(buf[a % k.x2aPeriod]);
    var b := if i >= k.x1Period - k.xbHold then k.x2bPeriod - 1 else i;
    var x2b := X2BOf(buf[b % k.x2bPeriod]);
    x2a != x2b
  }

  function X2LookupLast(k: Constants, buf: seq<bv8>, index: nat): bool
    requires Usable(k, buf)
  {
    var i := index % k.x2Period;
    var a := if index >= k.codeLength - k.x2aLastHold then k.x2aPeriod - 1 else i;
    var x2a := X2AOf(buf[a % k.x2aPeriod]);
    var b := if index >= k.codeLength - k.x2bLastHold then k.x2bPeriod - 1 else i;
    var x2b := X2BOf(buf[b % k.x2bPeriod]);
    x2a != x2b
  }

  /** The time a chip is asked for: so many days on as there are satellites before it, by 37; C division truncates. */
  function Time(index: nat, prn: nat): nat {
    index + CHIPS_PER_DAY * if prn == 0 then 0 else (prn - 1) / 37
  }

  /** That time as the program adds it up, in 64 bits. */
  function DayShifted(index: nat, prn: nat): nat {
    Time(index, prn) % TWO64
  }

  /** The X2 index, computed in 64 bits. */
  function X2Index(k: Constants, i: nat, prn: nat): nat
    requires k.codeLength > 0
  {
    ((k.codeLength + i - prn) % TWO64) % k.codeLength
  }

  function PCodeLookup(k: Constants, buf: seq<bv8>, index: nat, prn: nat): bool
    requires Usable(k, buf)
  {
    var i := DayShifted(index, prn);
    var x2 := X2Index(k, i, prn);
    var pX1 := X1Lookup(k, buf, i % k.codeLength);
    var pX2 := if x2 >= k.codeLength - k.x1aPeriod then X2LookupLast(k, buf, x2) else X2Lookup(k, buf, x2);
    pX1 != pX2
  }

  // ----- the table and the clocked registers

  lemma TableOutput(buf: seq<bv8>, i: Initials, n: nat)
    requires IsTable(buf, i) && n < TABLE_SIZE
    ensures var r := RegsOf(i);
            && X1AOf(buf[n]) == Output(Clocked(r.x1a.init, r.x1a.taps, n))
            && X1BOf(buf[n]) == Output(Clocked(r.x1b.init, r.x1b.taps, n))
            && X2AOf(buf[n]) == Output(Clocked(r.x2a.init, r.x2a.taps, n))
            && X2BOf(buf[n]) == Output(Clocked(r.x2b.init, r.x2b.taps, n))
  {
    assert EntryAt(buf[n], i, n);
    hide Shifted, Clocked, TopBit, X1AOf, X1BOf, X2AOf, X2BOf, StagesOf, Selects;
    MasksSelectTaps();
    ShiftedIsClocked(X1A_POLYNOMIAL, X1A_TAPS, i.x1a, n);
    ShiftedIsClocked(X1B_POLYNOMIAL, X1B_TAPS, i.x1b, n);
    ShiftedIsClocked(X2A_POLYNOMIAL, X2A_TAPS, i.x2a, n);
    ShiftedIsClocked(X2B_POLYNOMIAL, X2B_TAPS, i.x2b, n);
  }

  ghost function StageAfter(r: Reg, n: nat): bool { Output(Clocked(r.init, r.taps, n)) }

  lemma CappedOutput(r: Reg, period: nat, k: nat, u: nat)
    requires period > 0 && k > 0
    ensures Output(Capped(r, period, k * period, u).stages)
         == StageAfter(r, if u < k * period then Rem(u, period) else period - 1)
  {
    MultipleAtLeast(k, period);
    LastChipOfCycle(r, period, k * period - 1, k);
    hide Clocked, Rem, Quot;
  }

  /** X1 by table is X1 by clocking. */
  lemma X1Agrees(k: Constants, t: Timing, buf: seq<bv8>, i: Initials, n: nat)
    requires Describes(k, t) && IsTable(buf, i)
    ensures X1Lookup(k, buf, n) == X1Chip(Closed(t, RegsOf(i), n))
  {
    var r, u, b := RegsOf(i), Rem(n, t.X1Period()), t.bPeriod;
    ValidBasics(t);
    TableOutput(buf, i, Rem(u, t.aPeriod));
    TableOutput(buf, i, Rem(u, b));
    TableOutput(buf, i, b - 1);
    CappedOutput(r.x1b, b, t.bLoops, u);
    QuotRemUnique(b - 1, b, 0, b - 1);
    X1LookupIs(k, t, buf, n);
    hide X1Lookup, Clocked, IsTable, X1AOf, X1BOf, X2AOf, X2BOf, RegsOf, Quot, Rem, Describes, Capped, Timing.Valid;
  }

  lemma X1LookupIs(k: Constants, t: Timing, buf: seq<bv8>, n: nat)
    requires Describes(k, t) && |buf| == TABLE_SIZE
    ensures var u, b := Rem(n, t.X1Period()), t.bPeriod;
            X1Lookup(k, buf, n) == (X1AOf(buf[Rem(u, t.aPeriod)])
              != X1BOf(buf[if u >= t.bLoops * b then b - 1 else Rem(u, b)]))
  {
    hide X1AOf, X1BOf;
    ValidBasics(t);
    QuotRemUnique(t.bPeriod - 1, t.bPeriod, 0, t.bPeriod - 1);
  }

  /** The driver's choice between its two X2 lookups. */
  function X2ByTable(k: Constants, buf: seq<bv8>, index: nat): bool
    requires Usable(k, buf)
  {
    if index >= k.codeLength - k.x1aPeriod then X2LookupLast(k, buf, index) else X2Lookup(k, buf, index)
  }

  lemma X2LookupIs(k: Constants, t: Timing, buf: seq<bv8>, n: nat)
    requires Describes(k, t) && |buf| == TABLE_SIZE && n < t.Week()
    ensures var v, a, b, e := Rem(n, t.X2Period()), t.aPeriod, t.bPeriod, t.LastEpoch();
            var closing := n + t.aPeriod >= t.Week();
            X2ByTable(k, buf, n) ==
              (X2AOf(buf[if v >= X2Limit(a, t.aLoops * a, closing, e) then a - 1 else Rem(v, a)])
               != X2BOf(buf[if v >= X2Limit(b, t.bLoops * b, closing, e) then b - 1 else Rem(v, b)]))
  {
    hide X2AOf, X2BOf;
    ValidBasics(t);
    QuotRemUnique(t.aPeriod - 1, t.aPeriod, 0, t.aPeriod - 1);
    QuotRemUnique(t.bPeriod - 1, t.bPeriod, 0, t.bPeriod - 1);
    RoundDown(t.LastEpoch(), t.aPeriod);
    RoundDown(t.LastEpoch(), t.bPeriod);
    if n + t.aPeriod >= t.Week() {
      ClosingPhase(t, n);
    }
  }

  lemma ClosedX2Output(t: Timing, r: Regs, n: nat)
    requires t.Valid() && n < t.Week()
    ensures var v, a, b, e := Rem(n, t.X2Period()), t.aPeriod, t.bPeriod, t.LastEpoch();
            var closing := n + t.aPeriod >= t.Week();
            X2Chip(Closed(t, r, n)) ==
              (StageAfter(r.x2a, if v >= X2Limit(a, t.aLoops * a, closing, e) then a - 1 else Rem(v, a))
               != StageAfter(r.x2b, if v >= X2Limit(b, t.bLoops * b, closing, e) then b - 1 else Rem(v, b)))
  {
    var v, a, b, e := Rem(n, t.X2Period()), t.aPeriod, t.bPeriod, t.LastEpoch();
    var closing := n + a >= t.Week();
    ValidBasics(t);
    LastEpochCycles(t);
    CappedOutput(r.x2a, a, if closing then Quot(e, a) else t.aLoops, v);
    CappedOutput(r.x2b, b, if closing then Quot(e, b) else t.bLoops, v);
    hide Clocked, StageAfter, Output, Quot, Rem, Capped, Timing.Valid;
  }

  /** X2 by table is X2 by clocking. */
  lemma X2Agrees(k: Constants, t: Timing, buf: seq<bv8>, i: Initials, n: nat)
    requires Describes(k, t) && IsTable(buf, i) && n < t.Week()
    ensures X2ByTable(k, buf, n) == X2Chip(Closed(t, RegsOf(i), n))
  {
    ValidBasics(t);
    var v, a, b, e, closing := Rem(n, t.X2Period()), t.aPeriod, t.bPeriod, t.LastEpoch(), n + t.aPeriod >= t.Week();
    Split(v, a);
    Split(v, b);
    var x := if v >= X2Limit(a, t.aLoops * a, closing, e) then a - 1 else Rem(v, a);
    var y := if v >= X2Limit(b, t.bLoops * b, closing, e) then b - 1 else Rem(v, b);
    X2LookupIs(k, t, buf, n);
    assert x < TABLE_SIZE && y < TABLE_SIZE && |buf| == TABLE_SIZE;
    hide *;
    TableOutput(buf, i, x);
    TableOutput(buf, i, y);
    ClosedX2Output(t, RegsOf(i), n);
    StageAfterIs(RegsOf(i).x2a, x);
    StageAfterIs(RegsOf(i).x2b, y);
  }

  lemma StageAfterIs(r: Reg, n: nat)
    ensures StageAfter(r, n) == Output(Clocked(r.init, r.taps, n))
  {}

  /** The X2 index is the time prn chips ago, within the week. */
  lemma X2IndexIs(k: Constants, t: Timing, i: nat, prn: nat)
    requires Describes(k, t) && i < TWO64 && prn < 256 && i + t.Week() - prn < TWO64
    ensures X2Index(k, i, prn) == Rem(i + t.Week() - prn, t.Week())
  {}

  /**
   The precision code of every satellite at every time whose sum with the week fits 64 bits: X1 now, X2 prn
   chips ago, both as clocked by the registers of the specification.
   */
  lemma {:induction false} PCodeAgrees(k: Constants, t: Timing, buf: seq<bv8>, init: Initials, index: nat, prn: nat)
    requires Describes(k, t) && IsTable(buf, init) && prn < 256 && Usable(k, buf)
    requires Time(index, prn) + t.Week() - prn < TWO64
    ensures t.Week() >= 256 && PCodeLookup(k, buf, index, prn) == CodeChip(t, RegsOf(init), Time(index, prn), prn)
  {
    hide *;
    DescribesBasics(k, t, buf, init);
    NoWrap(t, index, prn);
    PCodeLookupIs(k, t, buf, index, prn);
    TableAgreesAt(k, t, buf, init, Time(index, prn));
    TableAgreesAt(k, t, buf, init, Time(index, prn) + t.Week() - prn);
    CodeChipIs(t, RegsOf(init), Time(index, prn), prn);
  }

  /** The chip of the precision code that the clocked registers give at a time. */
  ghost predicate CodeChip(t: Timing, r: Regs, time: nat, prn: nat)
    requires prn <= t.Week()
  {
    X1Chip(Run(t, r, time)) != X2Chip(Run(t, r, time + t.Week() - prn))
  }

  lemma CodeChipIs(t: Timing, r: Regs, time: nat, prn: nat)
    requires prn <= t.Week()
    ensures CodeChip(t, r, time, prn) == (X1Chip(Run(t, r, time)) != X2Chip(Run(t, r, time + t.Week() - prn)))
  {}

  lemma {:induction false} TimeIs(index: nat, prn: nat, d: nat)
    requires 37 * d + 1 <= prn <= 37 * d + 37
    ensures Time(index, prn) == index + d * CHIPS_PER_DAY
  {
    assert (prn - 1) / 37 == d;
  }

  /**
   Satellites 37 d + 1 to 37 d + 37 are d days on: X1 at that time, X2 prn chips before, both as clocked. The
   first 37 are at the index itself.
   */
  lemma {:induction false} SatelliteAgrees(k: Constants, t: Timing, buf: seq<bv8>, init: Initials,
                                           index: nat, prn: nat, d: nat)
    requires Describes(k, t) && IsTable(buf, init) && Usable(k, buf)
    requires 37 * d + 1 <= prn <= 37 * d + 37 && prn < 256 && index + d * CHIPS_PER_DAY + t.Week() - prn < TWO64
    ensures var now, r := index + d * CHIPS_PER_DAY, RegsOf(init);
            t.Week() >= 256 &&
            PCodeLookup(k, buf, index, prn) == (X1Chip(Run(t, r, now)) != X2Chip(Run(t, r, now + t.Week() - prn)))
  {
    hide *;
    TimeIs(index, prn, d);
    PCodeAgrees(k, t, buf, init, index, prn);
    CodeChipIs(t, RegsOf(init), Time(index, prn), prn);
  }

  lemma NoWrap(t: Timing, index: nat, prn: nat)
    requires prn < 256 <= t.Week() && Time(index, prn) + t.Week() - prn < TWO64
    ensures DayShifted(index, prn) == Time(index, prn)
  {
    hide Time, Timing.Week;
  }

  lemma DescribesBasics(k: Constants, t: Timing, buf: seq<bv8>, init: Initials)
    requires Describes(k, t) && IsTable(buf, init)
    ensures t.Valid() && |buf| == TABLE_SIZE && 256 <= t.Week() && Usable(k, buf)
  {}

  /** Both lookups at a time reduced to the week. */
  lemma TableAgreesAt(k: Constants, t: Timing, buf: seq<bv8>, init: Initials, n: nat)
    requires Describes(k, t) && t.Valid() && IsTable(buf, init) && Usable(k, buf)
    ensures t.Week() > 0
    ensures X1Lookup(k, buf, Rem(n, t.Week())) == X1Chip(Run(t, RegsOf(init), n))
    ensures X2ByTable(k, buf, Rem(n, t.Week())) == X2Chip(Run(t, RegsOf(init), n))
  {
    hide *;
    RunIsClosed(t, RegsOf(init), n);
    Split(n, t.Week());
    X1Agrees(k, t, buf, init, Rem(n, t.Week()));
    X2Agrees(k, t, buf, init, Rem(n, t.Week()));
  }

  lemma PCodeLookupIs(k: Constants, t: Timing, buf: seq<bv8>, index: nat, prn: nat)
    requires Describes(k, t) && |buf| == TABLE_SIZE && prn < 256 && Usable(k, buf)
    requires DayShifted(index, prn) + t.Week() - prn < TWO64
    ensures var i := DayShifted(index, prn);
            PCodeLookup(k, buf, index, prn) == (X1Lookup(k, buf, Rem(i, t.Week()))
                                                != X2ByTable(k, buf, Rem(i + t.Week() - prn, t.Week())))
  {
    X2IndexIs(k, t, DayShifted(index, prn), prn);
    hide X1Lookup, X2Lookup, X2LookupLast, DayShifted, X2Index, Usable;
  }

  /** Both indices, reduced to the week, are those of the time asked for exactly when neither sum wraps. */
  lemma PhaseExactly(k: Constants, t: Timing, index: nat, prn: nat)
    requires Describes(k, t) && index < TWO64 && prn < 256
    ensures var now, w := Time(index, prn), t.Week();
            && (DayShifted(index, prn) % w == now % w <==> now < TWO64)
            && (DayShifted(index, prn) % w == now % w && X2Index(k, DayShifted(index, prn), prn) == (now + w - prn) % w
                <==> now + w - prn < TWO64)
  {
    var now, w := Time(index, prn), t.Week();
    assert k.codeLength == w && 256 <= w < TWO64 && TWO64 % w != 0;
    TimeBound(index, prn);
    hide *;
    SumExactly(now, 2 * TWO64, w);
    if now < TWO64 {
      SumExactly(now + w - prn, 2 * TWO64, w);
      X2IndexOf(k, now, prn);
      SmallSum(now);
    }
    assert DayShifted(index, prn) == now % TWO64 by { DayShiftedIs(index, prn); }
  }

  lemma DayShiftedIs(index: nat, prn: nat)
    ensures DayShifted(index, prn) == Time(index, prn) % TWO64
  {}

  lemma SmallSum(now: nat)
    requires now < TWO64
    ensures now % TWO64 == now
  {}

  lemma X2IndexOf(k: Constants, i: nat, prn: nat)
    requires k.codeLength > prn
    ensures X2Index(k, i, prn) == ((i + k.codeLength - prn) % TWO64) % k.codeLength
  {}

  lemma TimeBound(index: nat, prn: nat)
    requires index < TWO64 && prn < 256
    ensures Time(index, prn) < 2 * TWO64
  {}

  /** A sum that wraps once is the sum modulo w exactly when it does not wrap. */
  lemma SumExactly(s: nat, bound: nat, w: nat)
    requires s < bound == 2 * TWO64 && 0 < w && TWO64 % w != 0
    ensures (s % TWO64) % w == s % w <==> s < TWO64
  {
    if s >= TWO64 {
      QuotRemUnique(s, TWO64, 1, s - TWO64);
      assert s % TWO64 == s - TWO64;
      if (s - TWO64) % w == s % w {
        DifferenceDivides(s, TWO64, w);
      }
    }
  }

  /** The last index there is: the day offset of satellite 38 wraps, and both halves are read at a wrong time. */
  lemma WrapShows()
    ensures var index, w := TWO64 - 1, STANDARD_TIMING.Week();
            && DayShifted(index, 38) % w != Time(index, 38) % w
            && w > 38 && X2Index(STANDARD, DayShifted(index, 38), 38) != (Time(index, 38) + w - 38) % w
            && DayShifted(index, 1) == Time(index, 1)
            && X2Index(STANDARD, DayShifted(index, 1), 1) != (Time(index, 1) + w - 1) % w
  {
    StandardConstants();
    StandardTiming();
    assert Time(TWO64 - 1, 38) == TWO64 - 1 + CHIPS_PER_DAY && Time(TWO64 - 1, 1) == TWO64 - 1;
    hide *;
    DayShiftedIs(TWO64 - 1, 38);
    DayShiftedIs(TWO64 - 1, 1);
    X2IndexOf(STANDARD, CHIPS_PER_DAY - 1, 38);
    X2IndexOf(STANDARD, TWO64 - 1, 1);
  }

  lemma DifferenceDivides(s: nat, d: nat, w: nat)
    requires w > 0 && d <= s && (s - d) % w == s % w
    ensures d % w == 0
  {
    var q, q' := s / w, (s - d) / w;
    assert d == (q - q') * w;
    assert d == (q - q') * w + 0;
    DivModUnique(d, w, q - q', 0);
  }
}
