/** What the walking tests find: cells that do not return what was written, and stuck data lines. */
module MemWalks {
  import opened Bits
  import opened Bits64
  import opened MemAccess
  import opened MemPatterns
  import opened MemRuns
  import opened MemTheorems
  import opened MemFaults
  import opened Wrappers

  // ----- what a check meets

  ghost function Anything(): (nat, Word) -> bool {
    (a, d) => true
  }

  lemma {:induction false} AnythingReturned(c: Config, e: Pass)
    requires c.Valid()
    ensures Returned(c, e, Anything())
  {
    hide Adr, Expected, Count;
  }

  /** The word a walk expects at its j-th address. */
  ghost function Due(c: Config, kind: Kind, j: nat): Word
    requires c.Valid() && j < WalkCount(c, kind)
  {
    Masked(WalkPattern(c, kind, j), Mask(c))
  }

  lemma {:induction false} DueIs(c: Config, kind: Kind, j: nat)
    requires c.Valid() && j < WalkCount(c, kind)
    ensures var e := Walk(kind, false);
            && Count(c, e) == WalkCount(c, kind) && Adr(c, e, j) == WalkAdr(c, kind, j)
            && Expected(c, e, j) == Some(Due(c, kind, j))
  {
    hide WalkCount, WalkAdr, WalkPattern, Mask, Masked;
  }

  /** The first check of a safe sequence finds what its walk has written. */
  lemma {:induction false} WalkMeets(c: Config, hist: seq<Event>, kind: Kind, j: nat)
    requires c.Valid() && HoldsWalk(c, hist, kind) && j < WalkCount(c, kind)
    ensures j <= Count(c, Walk(kind, false))
    ensures LastWrite(hist + Bus(Steps(c, Walk(kind, false), j)), WalkAdr(c, kind, j)) == Some(Due(c, kind, j))
  {
    hide *;
    DueIs(c, kind, j);
    AnythingReturned(c, Walk(kind, false));
    WalkReady(c, hist, kind, Anything());
    StillThere(c, hist, Walk(kind, false), Anything(), j);
  }

  /** Before its last pass a sequence has done the others. */
  lemma {:induction false} FirstOf(c: Config, hist: seq<Event>, passes: seq<Pass>, p: nat)
    requires c.Valid() && 0 < p < |passes|
    ensures hist + Bus(All(c, passes[..p])) == After(c, hist, passes[0]) + Bus(All(c, passes[1..][..p - 1]))
  {
    var e, rest := passes[0], passes[1..][..p - 1];
    assert passes[..p] == [e] + rest;
    FirstPass(c, e, rest);
    BusAppend(Steps(c, e, Count(c, e)), All(c, rest));
    assert After(c, hist, e) == hist + Bus(Steps(c, e, Count(c, e)));
    hide *;
    Joined(hist, Bus(Steps(c, e, Count(c, e))), Bus(All(c, rest)));
  }

  lemma {:induction false} NonePassed(c: Config, hist: seq<Event>)
    requires c.Valid()
    ensures hist + Bus(All(c, [])) == hist
  {}

  lemma {:induction false} SafeStep(c: Config, hist: seq<Event>, walks: set<Kind>, range: Option<Pat>,
                                    passes: seq<Pass>)
      returns (walks': set<Kind>, range': Option<Pat>)
    requires c.Valid() && passes != [] && Holds(c, hist, walks, range) && Safe(walks, range, passes)
    ensures Holds(c, After(c, hist, passes[0]), walks', range') && Safe(walks', range', passes[1..])
    ensures passes[0].Walk? && !passes[0].writing ==> HoldsWalk(c, hist, passes[0].kind)
  {
    var e := passes[0];
    PassHolds(c, hist, walks, range, e);
    walks' := if e.Walk? && e.writing then walks + {e.kind} else if e.Range? && e.write.Some? then {} else walks;
    range' := if e.Walk? && e.writing then None else if e.Range? && e.write.Some? then e.write else range;
    hide After, HoldsWalk, HoldsRange;
  }

  /** Each check of each walk of a safe sequence finds what its walk has written last. */
  lemma {:induction false} SafeMeets(c: Config, hist: seq<Event>, walks: set<Kind>, range: Option<Pat>,
                                     passes: seq<Pass>, p: nat, kind: Kind, j: nat)
    requires c.Valid() && Holds(c, hist, walks, range) && Safe(walks, range, passes)
    requires p < |passes| && passes[p] == Walk(kind, false) && j < WalkCount(c, kind)
    ensures j <= Count(c, Walk(kind, false))
    ensures LastWrite(hist + Bus(All(c, passes[..p])) + Bus(Steps(c, Walk(kind, false), j)), WalkAdr(c, kind, j))
            == Some(Due(c, kind, j))
    decreases p
  {
    hide *;
    var walks', range' := SafeStep(c, hist, walks, range, passes);
    if p == 0 {
      assert passes[..0] == [];
      NonePassed(c, hist);
      WalkMeets(c, hist, kind, j);
    } else {
      FirstOf(c, hist, passes, p);
      SafeMeets(c, After(c, hist, passes[0]), walks', range', passes[1..], p - 1, kind, j);
    }
  }

  /** And if the whole sequence passes, the memory has returned it. */
  lemma {:induction false} CheckMeets(c: Config, dev: Device, hist: seq<Event>, passes: seq<Pass>, p: nat, kind: Kind,
                                      j: nat)
      returns (h: seq<Event>)
    requires c.Valid() && Safe({}, None, passes) && Passes(dev, Mask(c), hist, All(c, passes))
    requires p < |passes| && passes[p] == Walk(kind, false) && j < WalkCount(c, kind)
    ensures LastWrite(h, WalkAdr(c, kind, j)) == Some(Due(c, kind, j))
    ensures Masked(dev(h, WalkAdr(c, kind, j)), Mask(c)) == Due(c, kind, j)
  {
    hide *;
    var e := Walk(kind, false);
    Nothing(c, hist);
    SafeMeets(c, hist, {}, None, passes, p, kind, j);
    PassedPass(c, dev, hist, passes, p);
    DueIs(c, kind, j);
    PassedCheck(c, dev, hist + Bus(All(c, passes[..p])), e, Count(c, e), j);
    h := hist + Bus(All(c, passes[..p])) + Bus(Steps(c, e, j));
  }

  // ----- cells

  /** A cell that never returns what was written to it last. */
  ghost predicate BadCell(dev: Device, msk: Word, adr: nat) {
    forall hist: seq<Event> | LastWrite(hist, adr).Some? ::
      Masked(dev(hist, adr), msk) != Masked(LastWrite(hist, adr).value, msk)
  }

  lemma {:induction false} BadCellMet(dev: Device, msk: Word, adr: nat, hist: seq<Event>, x: Word)
    requires BadCell(dev, msk, adr) && LastWrite(hist, adr) == Some(Masked(x, msk))
    ensures Masked(dev(hist, adr), msk) != Masked(x, msk)
  {
    MaskedTwice(x, msk);
    hide LastWrite, Masked;
  }

  /** A walk finds a bad cell at any of its addresses. */
  lemma {:induction false} WalkFindsCell(c: Config, dev: Device, hist: seq<Event>, passes: seq<Pass>, p: nat,
                                         kind: Kind, j: nat)
    requires c.Valid() && Safe({}, None, passes) && p < |passes| && passes[p] == Walk(kind, false)
    requires j < WalkCount(c, kind) && BadCell(dev, Mask(c), WalkAdr(c, kind, j))
    ensures !Passes(dev, Mask(c), hist, All(c, passes))
  {
    assert Due(c, kind, j) == Masked(WalkPattern(c, kind, j), Mask(c));
    hide *;
    if Passes(dev, Mask(c), hist, All(c, passes)) {
      var h := CheckMeets(c, dev, hist, passes, p, kind, j);
      BadCellMet(dev, Mask(c), WalkAdr(c, kind, j), h, WalkPattern(c, kind, j));
    }
  }

  /** How many data lines the data walks have room for. */
  function Lines(c: Config): nat {
    if c.datSize <= Pow2(c.adrSize) / 6 then c.datSize else Pow2(c.adrSize) / 6
  }

  lemma {:induction false} LinesIs(c: Config)
    ensures WalkCount(c, OneDat) == WalkCount(c, ZeroDat) == Lines(c)
    ensures WalkCount(c, OneAdr) == WalkCount(c, ZeroAdr) == c.adrSize
  {
    hide Pow2;
  }

  lemma {:induction false} WalkPlaces(c: Config, i: nat)
    ensures i < c.adrSize ==>
              WalkAdr(c, OneAdr, i) == Pow2(i) && WalkAdr(c, ZeroAdr, i) == Pow2(c.adrSize) - 1 - Pow2(i)
    ensures i < Lines(c) ==> WalkAdr(c, OneDat, i) == Pow2(c.adrSize) - 1 - 3 * i && WalkAdr(c, ZeroDat, i) == 3 * i
  {
    LinesIs(c);
    hide Pow2, Lines;
  }

  /** cepMemTest_runTest, on either parity and without the full test: a bad cell 2^i is found. */
  lemma {:induction false} RunTestFindsCell(c: Config, dev: Device, hist: seq<Event>, odd: bool, full: bool, i: nat)
    requires c.Valid() && i < c.adrSize && BadCell(dev, Mask(c), Pow2(i))
    ensures !Passes(dev, Mask(c), hist, All(c, RunTest(c, odd, full)))
  {
    var b := RunTest(c, odd, full);
    assert b[2] == (if odd then Walk(OneAdr, false) else Walk(ZeroDat, false));
    assert b[3] == (if odd then Walk(OneDat, false) else Walk(OneAdr, false));
    hide *;
    LinesIs(c);
    WalkPlaces(c, i);
    RunTestSafe(c, odd, full);
    WalkFindsCell(c, dev, hist, b, if odd then 2 else 3, OneAdr, i);
  }

  /** doMemTest finds a bad cell at every address of its four walks, whatever the step of the checkerboard. */
  lemma {:induction false} MemTestFindsCell(c: Config, dev: Device, hist: seq<Event>, adr: nat, i: nat)
    requires c.Valid() && BadCell(dev, Mask(c), adr)
    requires (i < c.adrSize && (adr == Pow2(i) || adr == Pow2(c.adrSize) - 1 - Pow2(i)))
             || (i < Lines(c) && (adr == 3 * i || adr == Pow2(c.adrSize) - 1 - 3 * i))
    ensures !Passes(dev, Mask(c), hist, All(c, MemTest(c)))
  {
    var b := MemTest(c);
    assert b[4] == Walk(OneAdr, false) && b[5] == Walk(OneDat, false);
    assert b[6] == Walk(ZeroAdr, false) && b[7] == Walk(ZeroDat, false);
    hide *;
    LinesIs(c);
    WalkPlaces(c, i);
    MemTestSafe(c, {}, None);
    if i < c.adrSize && adr == Pow2(i) {
      WalkFindsCell(c, dev, hist, b, 4, OneAdr, i);
    } else if i < c.adrSize && adr == Pow2(c.adrSize) - 1 - Pow2(i) {
      WalkFindsCell(c, dev, hist, b, 6, ZeroAdr, i);
    } else if adr == 3 * i {
      WalkFindsCell(c, dev, hist, b, 7, ZeroDat, i);
    } else {
      WalkFindsCell(c, dev, hist, b, 5, OneDat, i);
    }
  }

  // ----- lines of a word

  /** Data line b. */
  function Line(b: nat): Word {
    if b == 0 then Word(1) else Shl64(Line(b - 1))
  }

  predicate Has(x: Word, b: nat) {
    Masked(x, Line(b)) == Line(b)
  }

  predicate Lacks(x: Word, b: nat) {
    Masked(x, Line(b)) == Word(0)
  }

  function Shl8(x: Word): Word {
    Word(x.bits << 8)
  }

  lemma {:induction false} ShiftEight(x: Word)
    ensures Shl64(Shl64(Shl64(Shl64(Shl64(Shl64(Shl64(Shl64(x)))))))) == Shl8(x)
  {}

  lemma {:induction false} LineEight(n: nat)
    ensures Line(n + 8) == Shl8(Line(n))
  {
    hide *;
    LineNext(n + 1);
    LineNext(n + 2);
    LineNext(n + 3);
    LineNext(n + 4);
    LineNext(n + 5);
    LineNext(n + 6);
    LineNext(n + 7);
    LineNext(n + 8);
    ShiftEight(Line(n));
  }

  lemma {:induction false} TopLine()
    ensures Line(63) == Word(0x8000_0000_0000_0000)
  {
    assert Line(7) == Word(0x80);
    hide Line;
    LineEight(7);
    LineEight(15);
    LineEight(23);
    LineEight(31);
    LineEight(39);
    LineEight(47);
    LineEight(55);
  }

  lemma {:induction false} ZeroShifted(x: Word)
    requires x == Word(0)
    ensures Shl64(x) == Word(0)
  {}

  lemma {:induction false} ZeroLines(b: nat, n: nat)
    requires Line(b) == Word(0) && b <= n
    ensures Line(n) == Word(0)
    decreases n
  {
    hide Shl64;
    if b < n {
      ZeroLines(b, n - 1);
      ZeroShifted(Line(n - 1));
    }
  }

  lemma {:induction false} TopIsNotZero()
    ensures Word(0x8000_0000_0000_0000) != Word(0)
  {}

  lemma {:induction false} LineIsNotZero(b: nat)
    requires b < 64
    ensures Line(b) != Word(0)
  {
    TopLine();
    TopIsNotZero();
    hide *;
    if Line(b) == Word(0) {
      ZeroLines(b, 63);
    }
  }

  lemma {:induction false} ShiftedBoth(x: Word, y: Word)
    ensures Masked(Shl64(x), Shl64(y)) == Shl64(Masked(x, y))
    ensures Masked(Shl64(x), Push1(y)) == Shl64(Masked(x, y))
  {}

  lemma {:induction false} OneAndShifted(y: Word)
    ensures Masked(Word(1), Shl64(y)) == Word(0) && Masked(Shl64(y), Word(1)) == Word(0)
    ensures Masked(Word(1), Word(1)) == Word(1) && Masked(Word(1), Push1(y)) == Word(1)
  {}

  lemma {:induction false} LineNext(b: nat)
    ensures b > 0 ==> Line(b) == Shl64(Line(b - 1))
    ensures b == 0 ==> Line(b) == Word(1)
  {
    hide Shl64;
  }

  /** Two lines have nothing in common. */
  lemma {:induction false} LineUnderLine(i: nat, b: nat)
    ensures Masked(Line(i), Line(b)) == if i == b then Line(b) else Word(0)
  {
    hide *;
    LineNext(i);
    LineNext(b);
    if i > 0 && b > 0 {
      LineUnderLine(i - 1, b - 1);
      ShiftedBoth(Line(i - 1), Line(b - 1));
      if i != b {
        ZeroShifted(Masked(Line(i - 1), Line(b - 1)));
      }
    } else if i > 0 {
      OneAndShifted(Line(i - 1));
    } else if b > 0 {
      OneAndShifted(Line(b - 1));
    } else {
      OneAndShifted(Word(1));
    }
  }

  lemma {:induction false} OnesIs(n: nat)
    ensures n > 0 ==> Ones(n) == Push1(Ones(n - 1))
    ensures n == 0 ==> Ones(n) == Word(0)
  {
    hide Push1;
  }

  lemma {:induction false} LineUnderOnes(b: nat, n: nat)
    ensures Masked(Line(b), Ones(n)) == if b < n then Line(b) else Word(0)
  {
    hide *;
    LineNext(b);
    OnesIs(n);
    if n == 0 {
      MaskedByNone(Line(b));
    } else if b == 0 {
      OneAndShifted(Ones(n - 1));
    } else {
      LineUnderOnes(b - 1, n - 1);
      ShiftedBoth(Line(b - 1), Ones(n - 1));
      if b >= n {
        ZeroShifted(Masked(Line(b - 1), Ones(n - 1)));
      }
    }
  }

  lemma {:induction false} Turned(x: Word, y: Word)
    ensures Masked(x, y) == Masked(y, x)
  {}

  lemma {:induction false} Complement(x: Word, l: Word)
    ensures Masked(x, l) == l ==> Masked(Not64(x), l) == Word(0)
    ensures Masked(x, l) == Word(0) ==> Masked(Not64(x), l) == l
  {}

  /** Whether a word with known lines has line b: one way or the other. */
  ghost predicate Shows(x: Word, b: nat, on: bool) {
    if on then Has(x, b) else Lacks(x, b)
  }

  lemma {:induction false} NotBoth(x: Word, b: nat)
    requires b < 64
    ensures !(Has(x, b) && Lacks(x, b))
  {
    LineIsNotZero(b);
    hide Line, Masked;
  }

  lemma {:induction false} LineShows(i: nat, b: nat)
    ensures Shows(Line(i), b, i == b)
  {
    LineUnderLine(i, b);
    hide Line, Masked;
  }

  lemma {:induction false} OnesShow(n: nat, b: nat)
    ensures Shows(Ones(n), b, b < n)
  {
    LineUnderOnes(b, n);
    Turned(Line(b), Ones(n));
    hide Line, Masked, Ones;
  }

  lemma {:induction false} NotShows(x: Word, b: nat, on: bool)
    requires Shows(x, b, on)
    ensures Shows(Not64(x), b, !on)
  {
    Complement(x, Line(b));
    hide Line, Masked, Not64;
  }

  // ----- the patterns of the data walks

  lemma {:induction false} OnesEight(n: nat)
    ensures Ones(n + 8) == Push8(Ones(n))
  {
    hide *;
    OnesIs(n + 1);
    OnesIs(n + 2);
    OnesIs(n + 3);
    OnesIs(n + 4);
    OnesIs(n + 5);
    OnesIs(n + 6);
    OnesIs(n + 7);
    OnesIs(n + 8);
    PushEight(Ones(n));
  }

  lemma {:induction false} Ones31()
    ensures Ones(31) == Word(0x7FFF_FFFF)
  {
    assert Ones(7) == Word(0x7F);
    hide Ones;
    OnesEight(7);
    OnesEight(15);
    OnesEight(23);
  }

  lemma {:induction false} WidthOnes()
    ensures Ones(8) == Word(0xFF) && Ones(16) == Word(0xFFFF) && Ones(32) == Word(0xFFFF_FFFF)
    ensures Ones(64) == Word(0xFFFF_FFFF_FFFF_FFFF)
  {
    assert Ones(0) == Word(0);
    hide Ones;
    OnesEight(0);
    OnesEight(8);
    OnesEight(16);
    OnesEight(24);
    OnesEight(32);
    OnesEight(40);
    OnesEight(48);
    OnesEight(56);
  }

  lemma {:induction false} Not31()
    ensures Word(0xFFFF_FFFF_8000_0000) == Not64(Word(0x7FFF_FFFF))
  {}

  lemma {:induction false} Shl1IsLine(i: nat)
    requires i < 31
    ensures Shl1(i) == Line(i)
  {
    hide Shl64;
    if i > 0 {
      Shl1IsLine(i - 1);
    }
  }

  lemma {:induction false} Shl1Last()
    ensures Shl1(31) == Not64(Ones(31))
  {
    Ones31();
    Not31();
    hide Ones, Not64;
  }

  /** The word a one is walked in shows line b if it is the walked one, or, at place 31, any line from there up. */
  lemma {:induction false} OneShows(i: nat, b: nat)
    requires i < 32
    ensures Shows(Shl1(i), b, if i < 31 then i == b else b >= 31)
  {
    hide *;
    if i < 31 {
      Shl1IsLine(i);
      LineShows(i, b);
    } else {
      Shl1Last();
      OnesShow(31, b);
      NotShows(Ones(31), b, b < 31);
    }
  }

  /** Which lines are up in the pattern of a data walk. */
  predicate Up(kind: Kind, i: nat, b: nat) {
    var one := if i < 31 then i == b else i == 31 && b >= 31;
    if kind.OneDat? then one else if i < 32 then !one else b < 32
  }

  lemma {:induction false} ZeroShows(b: nat)
    ensures Shows(Word(0), b, false)
  {
    OnesShow(0, b);
    assert Ones(0) == Word(0);
    hide Shows, Ones;
  }

  lemma {:induction false} DataPatternShows(c: Config, kind: Kind, i: nat, b: nat)
    requires c.Valid() && i < WalkCount(c, kind) && (kind.OneDat? || kind.ZeroDat?)
    ensures Shows(WalkPattern(c, kind, i), b, Up(kind, i, b))
  {
    PatternOf(c, kind, i);
    hide WalkPattern, WalkCount, Shows, Shl1, Not64, Config.Valid;
    if i < 32 {
      OneShows(i, b);
      NotShows(Shl1(i), b, if i < 31 then i == b else b >= 31);
    } else {
      ZeroShows(b);
      OnesShow(32, b);
      WidthOnes();
    }
    hide Ones;
  }

  lemma {:induction false} PatternOf(c: Config, kind: Kind, i: nat)
    requires c.Valid() && i < WalkCount(c, kind) && (kind.OneDat? || kind.ZeroDat?)
    ensures WalkPattern(c, kind, i) ==
            if i < 32 then (if kind.OneDat? then Shl1(i) else Not64(Shl1(i)))
            else if kind.OneDat? then Word(0) else Word(0xFFFF_FFFF)
  {
    hide Shl1, Not64, WalkCount;
  }

  /** The data mask has the configured lines. */
  lemma {:induction false} LineUnderMask(c: Config, b: nat)
    requires c.Valid() && b < c.datSize
    ensures Masked(Line(b), Mask(c)) == Line(b)
  {
    WidthOnes();
    assert Mask(c) == Ones(c.datSize);
    hide *;
    LineUnderOnes(b, c.datSize);
  }

  // ----- stuck lines

  /** Data line b reads as `high` everywhere; any other behaviour is free. */
  ghost predicate StuckLine(dev: Device, b: nat, high: bool) {
    forall hist: seq<Event>, adr: nat :: Shows(dev(hist, adr), b, high)
  }

  lemma {:induction false} MaskedLine(x: Word, y: Word, msk: Word, l: Word)
    requires Masked(x, msk) == Masked(y, msk) && Masked(l, msk) == l
    ensures Masked(x, l) == Masked(y, l)
  {}

  lemma {:induction false} SameLine(x: Word, y: Word, b: nat, on: bool)
    requires Masked(x, Line(b)) == Masked(y, Line(b))
    ensures Shows(x, b, on) <==> Shows(y, b, on)
  {
    hide Line, Masked;
  }

  lemma {:induction false} OneWay(x: Word, b: nat, on: bool, off: bool)
    requires b < 64 && Shows(x, b, on) && Shows(x, b, off)
    ensures on == off
  {
    NotBoth(x, b);
    hide Has, Lacks;
  }

  lemma {:induction false} StuckShows(dev: Device, b: nat, high: bool, hist: seq<Event>, adr: nat)
    requires StuckLine(dev, b, high)
    ensures Shows(dev(hist, adr), b, high)
  {
    hide Shows;
  }

  /** A walk that is checked in a passed sequence wants nothing of the line but what it is stuck at. */
  lemma {:induction false} LineAgrees(c: Config, dev: Device, hist: seq<Event>, passes: seq<Pass>, p: nat, kind: Kind,
                                      j: nat, b: nat, high: bool)
    requires c.Valid() && Safe({}, None, passes) && Passes(dev, Mask(c), hist, All(c, passes))
    requires p < |passes| && passes[p] == Walk(kind, false) && j < WalkCount(c, kind)
    requires b < c.datSize && StuckLine(dev, b, high)
    ensures Shows(WalkPattern(c, kind, j), b, high)
  {
    assert Due(c, kind, j) == Masked(WalkPattern(c, kind, j), Mask(c));
    hide *;
    var h := CheckMeets(c, dev, hist, passes, p, kind, j);
    var x := dev(h, WalkAdr(c, kind, j));
    LineUnderMask(c, b);
    MaskedLine(x, WalkPattern(c, kind, j), Mask(c), Line(b));
    StuckShows(dev, b, high, h, WalkAdr(c, kind, j));
    SameLine(x, WalkPattern(c, kind, j), b, high);
  }

  /**
   What a data walk cannot see: with n places, a line stuck low while ones are walked, or high while zeros are, if
   neither it nor place 31, which is widened to all lines above, comes up; the other way round, hardly anything.
   */
  predicate Misses(kind: Kind, n: nat, b: nat, high: bool) {
    if kind.OneDat? == high then n == 0 || (n == 1 && b == 0) else n <= b && n <= 31
  }

  lemma {:induction false} MissesExactly(kind: Kind, n: nat, b: nat, high: bool)
    requires kind.OneDat? || kind.ZeroDat?
    ensures Misses(kind, n, b, high) <==> forall i | 0 <= i < n :: Up(kind, i, b) == high
  {
    if !Misses(kind, n, b, high) {
      if kind.OneDat? == high {
        assert Up(kind, 0, b) == ((b == 0) == kind.OneDat?);
        if n > 1 && b == 0 {
          assert Up(kind, 1, b) != high;
        } else {
          assert Up(kind, 0, b) != high;
        }
      } else if b <= 30 {
        assert Up(kind, b, b) != high;
      } else {
        assert Up(kind, 31, b) != high;
      }
    }
  }

  function DataWalk(odd: bool): Kind {
    if odd then OneDat else ZeroDat
  }

  /** The address walk wants the line nowhere but at the level it is stuck at. */
  ghost predicate AddressesAgree(c: Config, b: nat, high: bool)
    requires c.Valid()
  {
    forall i | 0 <= i < WalkCount(c, OneAdr) :: Shows(WalkPattern(c, OneAdr, i), b, high)
  }

  ghost predicate DataAgrees(c: Config, kind: Kind, b: nat, high: bool)
    requires c.Valid()
  {
    forall i | 0 <= i < WalkCount(c, kind) :: Shows(WalkPattern(c, kind, i), b, high)
  }

  lemma {:induction false} DataAgreesExactly(c: Config, odd: bool, b: nat, high: bool)
    requires c.Valid() && b < 64
    ensures DataAgrees(c, DataWalk(odd), b, high) <==> Misses(DataWalk(odd), Lines(c), b, high)
  {
    var kind := DataWalk(odd);
    LinesIs(c);
    MissesExactly(kind, Lines(c), b, high);
    hide WalkPattern, WalkCount, Lines, Misses, Up, Shows, Config.Valid;
    forall i | 0 <= i < WalkCount(c, kind)
      ensures Shows(WalkPattern(c, kind, i), b, high) <==> Up(kind, i, b) == high
    {
      DataPatternShows(c, kind, i, b);
      if Shows(WalkPattern(c, kind, i), b, high) {
        OneWay(WalkPattern(c, kind, i), b, high, Up(kind, i, b));
      }
    }
  }

  lemma {:induction false} RunTestPasses(c: Config, odd: bool)
    ensures var b := RunTest(c, odd, false);
            && |b| == 4 && b[0].Walk? && b[0].writing && b[1].Walk? && b[1].writing
            && b[if odd then 2 else 3] == Walk(OneAdr, false) && b[if odd then 3 else 2] == Walk(DataWalk(odd), false)
  {}

  /** cepMemTest_runTest without the full test: a stuck line the data walk of that parity does not miss is found. */
  lemma {:induction false} RunTestFindsLine(c: Config, dev: Device, hist: seq<Event>, odd: bool, b: nat, high: bool)
    requires c.Valid() && b < c.datSize <= 64 && StuckLine(dev, b, high)
    requires !Misses(DataWalk(odd), Lines(c), b, high)
    ensures !Passes(dev, Mask(c), hist, All(c, RunTest(c, odd, false)))
  {
    hide *;
    if Passes(dev, Mask(c), hist, All(c, RunTest(c, odd, false))) {
      RunTestAgrees(c, dev, hist, odd, b, high);
      DataAgreesExactly(c, odd, b, high);
    }
  }

  lemma {:induction false} RunTestAgrees(c: Config, dev: Device, hist: seq<Event>, odd: bool, b: nat, high: bool)
    requires c.Valid() && b < c.datSize && StuckLine(dev, b, high)
    requires Passes(dev, Mask(c), hist, All(c, RunTest(c, odd, false)))
    ensures DataAgrees(c, DataWalk(odd), b, high) && AddressesAgree(c, b, high)
  {
    var passes := RunTest(c, odd, false);
    RunTestPasses(c, odd);
    RunTestSafe(c, odd, false);
    hide StuckLine, Passes, All, RunTest, Mask, Safe, WalkCount, WalkPattern, Shows, Config.Valid;
    forall i | 0 <= i < WalkCount(c, DataWalk(odd))
      ensures Shows(WalkPattern(c, DataWalk(odd), i), b, high)
    {
      LineAgrees(c, dev, hist, passes, if odd then 3 else 2, DataWalk(odd), i, b, high);
    }
    forall i | 0 <= i < WalkCount(c, OneAdr)
      ensures Shows(WalkPattern(c, OneAdr, i), b, high)
    {
      LineAgrees(c, dev, hist, passes, if odd then 2 else 3, OneAdr, i, b, high);
    }
  }

  /** A memory without fault but for the stuck line. */
  ghost predicate OnlyLine(dev: Device, msk: Word, b: nat, high: bool) {
    && StuckLine(dev, b, high)
    && forall hist: seq<Event>, x: nat |
         LastWrite(hist, x).Some? && Shows(LastWrite(hist, x).value, b, high) ::
         Masked(dev(hist, x), msk) == Masked(LastWrite(hist, x).value, msk)
  }

  ghost function Agreeing(b: nat, high: bool): (nat, Word) -> bool {
    (a: nat, d: Word) => Shows(d, b, high)
  }

  lemma {:induction false} OnlyLineFaithful(dev: Device, msk: Word, b: nat, high: bool)
    requires OnlyLine(dev, msk, b, high)
    ensures Faithful(dev, msk, Agreeing(b, high))
  {
    hide LastWrite, Masked, Shows, StuckLine;
  }

  lemma {:induction false} DueShows(c: Config, kind: Kind, j: nat, b: nat, on: bool)
    requires c.Valid() && j < WalkCount(c, kind) && b < c.datSize && Shows(WalkPattern(c, kind, j), b, on)
    ensures Shows(Due(c, kind, j), b, on)
  {
    var x := WalkPattern(c, kind, j);
    assert Due(c, kind, j) == Masked(x, Mask(c));
    hide *;
    LineUnderMask(c, b);
    MaskedTwice(x, Mask(c));
    MaskedLine(Masked(x, Mask(c)), x, Mask(c), Line(b));
    SameLine(Masked(x, Mask(c)), x, b, on);
  }

  lemma {:induction false} WalkReturned(c: Config, kind: Kind, b: nat, high: bool)
    requires c.Valid() && b < c.datSize && DataAgrees(c, kind, b, high)
    ensures Returned(c, Walk(kind, false), Agreeing(b, high)) && Returned(c, Walk(kind, true), Agreeing(b, high))
  {
    hide WalkCount, WalkPattern, Shows, Due, WalkAdr, Config.Valid;
    forall j | 0 <= j < WalkCount(c, kind)
      ensures Shows(Due(c, kind, j), b, high) && Expected(c, Walk(kind, false), j) == Some(Due(c, kind, j))
    {
      DueShows(c, kind, j, b, high);
      DueIs(c, kind, j);
    }
    hide Masked, Mask;
  }

  /**
   A memory whose only fault is a stuck data line passes cepMemTest_runTest without the full test if and only if
   the data walk of that parity misses the line and no seeded pattern of the address walk needs it.
   */
  lemma {:induction false} LineExactly(c: Config, dev: Device, hist: seq<Event>, odd: bool, b: nat, high: bool)
    requires c.Valid() && b < c.datSize <= 64 && OnlyLine(dev, Mask(c), b, high)
    ensures Passes(dev, Mask(c), hist, All(c, RunTest(c, odd, false))) <==>
            Misses(DataWalk(odd), Lines(c), b, high) && AddressesAgree(c, b, high)
  {
    assert StuckLine(dev, b, high);
    hide *;
    DataAgreesExactly(c, odd, b, high);
    if Passes(dev, Mask(c), hist, All(c, RunTest(c, odd, false))) {
      RunTestAgrees(c, dev, hist, odd, b, high);
    } else if DataAgrees(c, DataWalk(odd), b, high) && AddressesAgree(c, b, high) {
      LinePasses(c, dev, hist, odd, b, high);
    }
  }

  lemma {:induction false} LinePasses(c: Config, dev: Device, hist: seq<Event>, odd: bool, b: nat, high: bool)
    requires c.Valid() && b < c.datSize && OnlyLine(dev, Mask(c), b, high)
    requires DataAgrees(c, DataWalk(odd), b, high) && AddressesAgree(c, b, high)
    ensures Passes(dev, Mask(c), hist, All(c, RunTest(c, odd, false)))
  {
    var passes := RunTest(c, odd, false);
    assert DataAgrees(c, OneAdr, b, high);
    assert forall i | 0 <= i < |passes| :: passes[i].Walk? && passes[i].kind in {OneAdr, DataWalk(odd)};
    hide *;
    WalkReturned(c, OneAdr, b, high);
    WalkReturned(c, DataWalk(odd), b, high);
    forall i | 0 <= i < |passes|
      ensures Returned(c, passes[i], Agreeing(b, high))
    {
      assert passes[i] == Walk(passes[i].kind, passes[i].writing);
    }
    OnlyLineFaithful(dev, Mask(c), b, high);
    Nothing(c, hist);
    RunTestSafe(c, odd, false);
    SafePasses(c, dev, Agreeing(b, high), hist, {}, None, passes);
  }

  /** With room for all data lines, no line escapes, stuck either way, on either parity. */
  lemma {:induction false} NoLineEscapes(c: Config, dev: Device, hist: seq<Event>, odd: bool, b: nat, high: bool)
    requires c.Valid() && 6 * c.datSize <= Pow2(c.adrSize) && b < c.datSize && StuckLine(dev, b, high)
    ensures !Passes(dev, Mask(c), hist, All(c, RunTest(c, odd, false)))
  {
    assert c.datSize <= 64 && Lines(c) == c.datSize >= 8;
    assert !Misses(DataWalk(odd), c.datSize, b, high);
    hide *;
    RunTestFindsLine(c, dev, hist, odd, b, high);
  }
}
