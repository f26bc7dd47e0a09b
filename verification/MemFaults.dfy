/** The theorems about the memory tests. */
module MemFaults {
  import opened Bits64
  import opened MemAccess
  import opened MemPatterns
  import opened MemRuns
  import opened MemTheorems
  import opened Wrappers

  // ----- no false alarm

  lemma {:induction false} Nothing(c: Config, hist: seq<Event>)
    requires c.Valid()
    ensures Holds(c, hist, {}, None)
  {}

  lemma {:induction false} CheckerBoardSafe(c: Config, walks: set<Kind>, range: Option<Pat>)
    ensures Safe(walks, range, CheckerBoard(c))
  {
    var m := c.checker;
    BoardSafe(walks, range, If(On(m, 1), A5), If(On(m, 2), P5), If(On(m, 3), FF), If(On(m, 4), P3), If(On(m, 5), CC),
              If(On(m, 6), ZZ));
    hide On, If, Safe;
  }

  ghost function Latest(write: Option<Pat>, range: Option<Pat>): Option<Pat> {
    if write.Some? then write else range
  }

  /** Whichever patterns are enabled, each pass checks what was last written. */
  lemma {:induction false} BoardSafe(walks: set<Kind>, range: Option<Pat>, o1: Option<Pat>, o2: Option<Pat>,
                                     o3: Option<Pat>,
                                     o4: Option<Pat>, o5: Option<Pat>, o6: Option<Pat>)
    ensures Safe(walks, range,
                 [Range(true, None, Some(Inc)), Range(true, Some(Inc), None), Range(true, None, o1),
                  Range(false, o1, o2), Range(true, o2, o3), Range(false, o3, o4), Range(true, o4, o5),
                  Range(false, o5, o6),
                  Range(true, o6, None)])
  {
    var r1 := Latest(o1, Some(Inc));
    var r2 := Latest(o2, r1);
    var r3 := Latest(o3, r2);
    var r4 := Latest(o4, r3);
    var r5 := Latest(o5, r4);
    var r6 := Latest(o6, r5);
    var t8 := [Range(true, o6, None)] + [];
    var t7 := [Range(false, o5, o6)] + t8;
    var t6 := [Range(true, o4, o5)] + t7;
    var t5 := [Range(false, o3, o4)] + t6;
    var t4 := [Range(true, o2, o3)] + t5;
    var t3 := [Range(false, o1, o2)] + t4;
    var t2 := [Range(true, None, o1)] + t3;
    var t1 := [Range(true, Some(Inc), None)] + t2;
    assert [Range(true, None, Some(Inc))] + t1 ==
           [Range(true, None, Some(Inc)), Range(true, Some(Inc), None), Range(true, None, o1), Range(false, o1, o2),
            Range(true, o2, o3), Range(false, o3, o4), Range(true, o4, o5), Range(false, o5, o6),
            Range(true, o6, None)];
    assert Safe({}, r6, []);
    hide Safe;
    SafeRange({}, r6, Range(true, o6, None), []);
    SafeRange({}, r5, Range(false, o5, o6), t8);
    SafeRange({}, r4, Range(true, o4, o5), t7);
    SafeRange({}, r3, Range(false, o3, o4), t6);
    SafeRange({}, r2, Range(true, o2, o3), t5);
    SafeRange({}, r1, Range(false, o1, o2), t4);
    SafeRange({}, Some(Inc), Range(true, None, o1), t3);
    SafeRange({}, Some(Inc), Range(true, Some(Inc), None), t2);
    SafeRange(walks, range, Range(true, None, Some(Inc)), t1);
  }

  lemma {:induction false} SafeRange(walks: set<Kind>, range: Option<Pat>, e: Pass, rest: seq<Pass>)
    requires e.Range? && (e.read.Some? ==> e.read == range)
    requires Safe(if e.write.Some? then {} else walks, Latest(e.write, range), rest)
    ensures Safe(walks, range, [e] + rest)
  {
    assert ([e] + rest)[1..] == rest;
  }

  lemma {:induction false} SafeWrite(walks: set<Kind>, range: Option<Pat>, kind: Kind, rest: seq<Pass>)
    requires Safe(walks + {kind}, None, rest)
    ensures Safe(walks, range, [Walk(kind, true)] + rest)
  {
    assert ([Walk(kind, true)] + rest)[1..] == rest;
  }

  lemma {:induction false} SafeCheck(walks: set<Kind>, range: Option<Pat>, kind: Kind, rest: seq<Pass>)
    requires kind in walks && Safe(walks, range, rest)
    ensures Safe(walks, range, [Walk(kind, false)] + rest)
  {
    assert ([Walk(kind, false)] + rest)[1..] == rest;
  }

  lemma {:induction false} MemTestSafe(c: Config, walks: set<Kind>, range: Option<Pat>)
    ensures Safe(walks, range, MemTest(c))
  {
    var b := CheckerBoard(c);
    var c3 := [Walk(ZeroDat, false)] + b;
    var c2 := [Walk(ZeroAdr, false)] + c3;
    var c1 := [Walk(OneDat, false)] + c2;
    var c0 := [Walk(OneAdr, false)] + c1;
    var w3 := [Walk(ZeroDat, true)] + c0;
    var w2 := [Walk(ZeroAdr, true)] + w3;
    var w1 := [Walk(OneDat, true)] + w2;
    var all := walks + {OneAdr} + {OneDat} + {ZeroAdr} + {ZeroDat};
    assert MemTest(c) == [Walk(OneAdr, true)] + w1;
    hide *;
    CheckerBoardSafe(c, all, None);
    SafeCheck(all, None, ZeroDat, b);
    SafeCheck(all, None, ZeroAdr, c3);
    SafeCheck(all, None, OneDat, c2);
    SafeCheck(all, None, OneAdr, c1);
    SafeWrite(walks + {OneAdr} + {OneDat} + {ZeroAdr}, None, ZeroDat, c0);
    SafeWrite(walks + {OneAdr} + {OneDat}, None, ZeroAdr, w3);
    SafeWrite(walks + {OneAdr}, None, OneDat, w2);
    SafeWrite(walks, range, OneAdr, w1);
  }

  lemma {:induction false} RunTestSafe(c: Config, odd: bool, full: bool)
    ensures Safe({}, None, RunTest(c, odd, full))
  {
    var rest := if full then MemTest(c) else [];
    var a, b := if odd then OneAdr else ZeroDat, if odd then OneDat else OneAdr;
    var c1 := [Walk(b, false)] + rest;
    var c0 := [Walk(a, false)] + c1;
    var w1 := [Walk(b, true)] + c0;
    assert RunTest(c, odd, full) == [Walk(a, true)] + w1;
    assert Safe({} + {a} + {b}, None, []);
    hide *;
    MemTestSafe(c, {} + {a} + {b}, None);
    SafeCheck({} + {a} + {b}, None, b, rest);
    SafeCheck({} + {a} + {b}, None, a, c1);
    SafeWrite({} + {a}, None, b, c0);
    SafeWrite({}, None, a, w1);
  }

  lemma {:induction false} FaultFreeFaithful(dev: Device, msk: Word)
    requires FaultFree(dev, msk)
    ensures Faithful(dev, msk, (a, d) => true)
  {
    hide LastWrite, Masked;
  }

  /** A memory without faults passes any sequence of passes in which checks follow writes. */
  lemma {:induction false} NoFalseAlarm(c: Config, dev: Device, hist: seq<Event>, passes: seq<Pass>)
    requires c.Valid() && FaultFree(dev, Mask(c)) && Safe({}, None, passes)
    ensures Passes(dev, Mask(c), hist, All(c, passes))
  {
    var good: (nat, Word) -> bool := (a, d) => true;
    forall i | 0 <= i < |passes|
      ensures Returned(c, passes[i], good)
    {
      hide Adr, Expected, Count;
    }
    hide *;
    FaultFreeFaithful(dev, Mask(c));
    Nothing(c, hist);
    SafePasses(c, dev, good, hist, {}, None, passes);
  }

  /**
   doMemTest and cepMemTest_runTest on a memory without faults, for every address width, data width,
   step, base, seed and pattern selection: no check fails, although all walks write before any is checked.
   */
  lemma {:induction false} MemTestRaisesNoFalseAlarm(c: Config, dev: Device, hist: seq<Event>, odd: bool, full: bool)
    requires c.Valid() && FaultFree(dev, Mask(c))
    ensures Passes(dev, Mask(c), hist, All(c, MemTest(c)))
    ensures Passes(dev, Mask(c), hist, All(c, RunTest(c, odd, full)))
    ensures Passes(dev, Mask(c), hist, All(c, CheckerBoard(c)))
  {
    hide *;
    MemTestSafe(c, {}, None);
    RunTestSafe(c, odd, full);
    CheckerBoardSafe(c, {}, None);
    NoFalseAlarm(c, dev, hist, MemTest(c));
    NoFalseAlarm(c, dev, hist, RunTest(c, odd, full));
    NoFalseAlarm(c, dev, hist, CheckerBoard(c));
  }

  // ----- what a passed run has seen

  /** A passed sequence of passes has passed each of them, from the history its predecessors left. */
  lemma {:induction false} PassedPass(c: Config, dev: Device, hist: seq<Event>, passes: seq<Pass>, i: nat)
    requires c.Valid() && i < |passes| && Passes(dev, Mask(c), hist, All(c, passes))
    ensures Passes(dev, Mask(c), hist + Bus(All(c, passes[..i])), Steps(c, passes[i], Count(c, passes[i])))
    decreases |passes|
  {
    var before, last := passes[..|passes| - 1], passes[|passes| - 1];
    assert passes == before + [last];
    AllIs(c, before, last);
    PassesAppend(dev, Mask(c), hist, All(c, before), Steps(c, last, Count(c, last)));
    hide *;
    if i == |passes| - 1 {
    } else {
      PassedPass(c, dev, hist, before, i);
      assert before[..i] == passes[..i] && before[i] == passes[i];
    }
  }

  /** The position of a visited address in a pass. */
  function At(c: Config, e: Pass, k: nat): (j: nat)
    requires c.Valid() && e.Range? && k < Visits(c)
    ensures j < Count(c, e) && Adr(c, e, j) == Visited(c, k)
  {
    if e.up then k else Visits(c) - 1 - k
  }

  /** What the memory has seen when pass i of the checkerboard comes to a visited address. */
  ghost function Met(c: Config, hist: seq<Event>, i: nat, k: nat): seq<Event>
    requires c.Valid() && i < |CheckerBoard(c)| && k < Visits(c)
  {
    var e := CheckerBoard(c)[i];
    hist + Bus(All(c, CheckerBoard(c)[..i])) + Bus(Steps(c, e, At(c, e, k)))
  }

  /** In a passed checkerboard every visited address has returned the pattern of every checking pass. */
  lemma {:induction false} PassedPattern(c: Config, dev: Device, hist: seq<Event>, i: nat, k: nat)
    requires c.Valid() && i < |CheckerBoard(c)| && k < Visits(c) && CheckerBoard(c)[i].read.Some?
    requires Passes(dev, Mask(c), hist, All(c, CheckerBoard(c)))
    ensures Masked(dev(Met(c, hist, i, k), Visited(c, k)), Mask(c)) ==
            Masked(Pattern(c, CheckerBoard(c)[i].read.value, Visited(c, k)), Mask(c))
  {
    var e := CheckerBoard(c)[i];
    var j := At(c, e, k);
    assert Expected(c, e, j) == Some(Masked(Pattern(c, e.read.value, Visited(c, k)), Mask(c))) by {
      hide Pattern, Masked, Visited, Visits, Mask;
    }
    assert Met(c, hist, i, k) == hist + Bus(All(c, CheckerBoard(c)[..i])) + Bus(Steps(c, e, j));
    hide *;
    PassedPass(c, dev, hist, CheckerBoard(c), i);
    PassedCheck(c, dev, hist + Bus(All(c, CheckerBoard(c)[..i])), e, Count(c, e), j);
  }

  // ----- stuck data bits

  /** One data line. */
  predicate OneBit(b: Word) {
    b.bits != 0 && b.bits & (b.bits - 1) == 0
  }

  /** One of the data lines in use. */
  predicate DataBit(c: Config, b: Word) {
    OneBit(b) && b.bits & Mask(c).bits == b.bits
  }

  /** One of the low 32. */
  predicate Low(b: Word) {
    b.bits <= 0x8000_0000
  }

  lemma {:induction false} UnderBits(x: Word, y: Word, msk: Word, bits: Word)
    requires Masked(x, msk) == Masked(y, msk) && bits.bits & msk.bits == bits.bits
    ensures Masked(x, bits) == Masked(y, bits)
  {}

  lemma {:induction false} LowBitToggles(bits: Word, adr: nat)
    requires OneBit(bits) && Low(bits)
    ensures Masked(Inverted(adr, A5.word), bits) != Masked(Inverted(adr, P5.word), bits)
  {}

  lemma {:induction false} PatternIs(c: Config, w: Word, adr: nat)
    requires c.Valid() && adr < Size(c)
    ensures Pattern(c, Rep(w), adr) == Inverted(adr, w)
  {
    hide Inverted, Wide, Words;
  }

  /** A stuck line that passes agrees with every pattern checked. */
  lemma {:induction false} StuckPattern(c: Config, dev: Device, hist: seq<Event>, i: nat, k: nat, bit: Word,
                                        level: Word)
    requires c.Valid() && i < |CheckerBoard(c)| && k < Visits(c) && CheckerBoard(c)[i].read.Some?
    requires Passes(dev, Mask(c), hist, All(c, CheckerBoard(c))) && StuckAt(dev, Visited(c, k), bit, level)
    requires bit.bits & Mask(c).bits == bit.bits
    ensures Masked(Pattern(c, CheckerBoard(c)[i].read.value, Visited(c, k)), bit) == Masked(level, bit)
  {
    var p, adr, h := CheckerBoard(c)[i].read.value, Visited(c, k), Met(c, hist, i, k);
    assert Masked(dev(h, adr), bit) == Masked(level, bit);
    hide *;
    PassedPattern(c, dev, hist, i, k);
    UnderBits(dev(h, adr), Pattern(c, p, adr), Mask(c), bit);
  }

  lemma {:induction false} DefaultBoard(c: Config)
    requires c.checker == 0xFF
    ensures var b := CheckerBoard(c);
            && |b| == 9 && b[1] == Range(true, Some(Inc), None) && b[3] == Range(false, Some(A5), Some(P5))
            && b[4] == Range(true, Some(P5), Some(FF))
  {}

  /** A stuck bit among the low 32 of any visited address is found, whatever else the memory does. */
  lemma {:induction false} StuckBitFound(c: Config, dev: Device, hist: seq<Event>, k: nat, bit: Word, level: Word)
    requires c.Valid() && c.checker == 0xFF && k < Visits(c) && DataBit(c, bit) && Low(bit)
    requires StuckAt(dev, Visited(c, k), bit, level)
    ensures !Passes(dev, Mask(c), hist, All(c, CheckerBoard(c)))
  {
    assert bit.bits & Mask(c).bits == bit.bits && OneBit(bit);
    hide *;
    if Passes(dev, Mask(c), hist, All(c, CheckerBoard(c))) {
      DefaultBoard(c);
      StuckPattern(c, dev, hist, 3, k, bit, level);
      StuckPattern(c, dev, hist, 4, k, bit, level);
      PatternIs(c, A5.word, Visited(c, k));
      PatternIs(c, P5.word, Visited(c, k));
      LowBitToggles(bit, Visited(c, k));
    }
  }

  /** Above bit 31 the patterns are all zeros at even and all ones at odd addresses. */
  lemma {:induction false} HighBitsFixed(bits: Word, adr: nat, w: Word)
    requires OneBit(bits) && !Low(bits) && w.bits <= 0xFFFF_FFFF
    ensures Masked(Inverted(adr, w), bits) == Masked(Inverted(adr, Word(0)), bits)
  {}

  lemma {:induction false} HighPattern(c: Config, p: Pat, adr: nat, bits: Word)
    requires c.Valid() && adr < Size(c) && OneBit(bits) && !Low(bits) && (p.Rep? ==> p.word.bits <= 0xFFFF_FFFF)
    ensures Masked(Pattern(c, p, adr), bits) == Masked(Inverted(adr, Word(0)), bits)
  {
    BoundedSize(c);
    var w := if p.Inc? then Wide(adr * Words(c)) else p.word;
    assert w.bits <= 0xFFFF_FFFF;
    assert Pattern(c, p, adr) == Inverted(adr, w);
    hide *;
    HighBitsFixed(bits, adr, w);
  }

  /** The values a line stuck at `level` does not disturb. */
  ghost predicate Undisturbed(adr: nat, bit: Word, level: Word, x: nat, d: Word) {
    x != adr || Masked(d, bit) == Masked(level, bit)
  }

  ghost function Undisturbing(adr: nat, bit: Word, level: Word): (nat, Word) -> bool {
    (x: nat, d: Word) => Undisturbed(adr, bit, level, x, d)
  }

  lemma {:induction false} ForcedSame(d: Word, bit: Word, level: Word)
    requires Masked(d, bit) == Masked(level, bit)
    ensures Forced(d, bit, level) == d
  {}

  lemma {:induction false} OnlyStuckFaithful(dev: Device, msk: Word, adr: nat, bit: Word, level: Word)
    requires OnlyStuck(dev, msk, adr, bit, level)
    ensures Faithful(dev, msk, Undisturbing(adr, bit, level))
  {
    forall hist: seq<Event>, x: nat |
           LastWrite(hist, x).Some? && Undisturbed(adr, bit, level, x, LastWrite(hist, x).value)
      ensures Masked(dev(hist, x), msk) == Masked(LastWrite(hist, x).value, msk)
    {
      if x == adr {
        ForcedSame(LastWrite(hist, x).value, bit, level);
      }
      hide LastWrite, Masked, Forced, StuckAt;
    }
    hide LastWrite, Masked, OnlyStuck;
  }

  /** All patterns of the checkerboard fit in 32 bits before they are inverted. */
  ghost predicate Narrow(e: Pass) {
    e.Range? && (e.read.Some? && e.read.value.Rep? ==> e.read.value.word.bits <= 0xFFFF_FFFF)
  }

  lemma {:induction false} NarrowBoard(c: Config, i: nat)
    requires i < |CheckerBoard(c)|
    ensures Narrow(CheckerBoard(c)[i])
  {
    hide On;
  }

  lemma {:induction false} HighUndisturbed(c: Config, p: Pat, adr: nat, bit: Word, level: Word)
    requires c.Valid() && adr < Size(c) && (p.Rep? ==> p.word.bits <= 0xFFFF_FFFF) && DataBit(c, bit) && !Low(bit)
    requires Masked(level, bit) == Masked(Inverted(adr, Word(0)), bit)
    ensures Masked(Masked(Pattern(c, p, adr), Mask(c)), bit) == Masked(level, bit)
  {
    var w := Pattern(c, p, adr);
    assert OneBit(bit) && bit.bits & Mask(c).bits == bit.bits;
    hide *;
    HighPattern(c, p, adr, bit);
    MaskedTwice(w, Mask(c));
    UnderBits(Masked(w, Mask(c)), w, Mask(c), bit);
  }

  lemma {:induction false} HighReturned(c: Config, e: Pass, k: nat, bit: Word, level: Word)
    requires c.Valid() && Narrow(e) && k < Visits(c) && DataBit(c, bit) && !Low(bit)
    requires Masked(level, bit) == Masked(Inverted(Visited(c, k), Word(0)), bit)
    ensures Returned(c, e, Undisturbing(Visited(c, k), bit, level))
  {
    var adr := Visited(c, k);
    hide Adr, Count, Masked, Mask, Pattern, Visited, Visits, Inverted, Low, DataBit, Config.Valid;
    forall j | 0 <= j < Count(c, e) && Expected(c, e, j).Some?
      ensures Undisturbed(adr, bit, level, Adr(c, e, j), Expected(c, e, j).value)
    {
      if Adr(c, e, j) == adr {
        HighUndisturbed(c, e.read.value, adr, bit, level);
      }
    }
    hide Expected, Undisturbed;
  }

  lemma {:induction false} HighStuckPasses(c: Config, dev: Device, hist: seq<Event>, k: nat, bit: Word, level: Word)
    requires c.Valid() && k < Visits(c) && DataBit(c, bit) && !Low(bit)
    requires OnlyStuck(dev, Mask(c), Visited(c, k), bit, level)
    requires Masked(level, bit) == Masked(Inverted(Visited(c, k), Word(0)), bit)
    ensures Passes(dev, Mask(c), hist, All(c, CheckerBoard(c)))
  {
    hide *;
    var b, good := CheckerBoard(c), Undisturbing(Visited(c, k), bit, level);
    OnlyStuckFaithful(dev, Mask(c), Visited(c, k), bit, level);
    Nothing(c, hist);
    CheckerBoardSafe(c, {}, None);
    forall i | 0 <= i < |b|
      ensures Returned(c, b[i], good)
    {
      NarrowBoard(c, i);
      HighReturned(c, b[i], k, bit, level);
    }
    SafePasses(c, dev, good, hist, {}, None, b);
  }

  lemma {:induction false} HighStuckAgrees(c: Config, dev: Device, hist: seq<Event>, k: nat, bit: Word, level: Word)
    requires c.Valid() && c.checker == 0xFF && k < Visits(c) && OneBit(bit) && !Low(bit)
    requires bit.bits & Mask(c).bits == bit.bits && StuckAt(dev, Visited(c, k), bit, level)
    requires Passes(dev, Mask(c), hist, All(c, CheckerBoard(c)))
    ensures Masked(level, bit) == Masked(Inverted(Visited(c, k), Word(0)), bit)
  {
    hide *;
    DefaultBoard(c);
    StuckPattern(c, dev, hist, 1, k, bit, level);
    HighPattern(c, Inc, Visited(c, k), bit);
  }

  /**
   A memory whose only fault is one stuck data line at one visited address passes exactly when the line
   is above bit 31 and stuck at the level the address parity keeps it at.
   */
  lemma {:induction false} StuckBitExactly(c: Config, dev: Device, hist: seq<Event>, k: nat, bit: Word, level: Word)
    requires c.Valid() && c.checker == 0xFF && k < Visits(c) && DataBit(c, bit)
    requires OnlyStuck(dev, Mask(c), Visited(c, k), bit, level)
    ensures Passes(dev, Mask(c), hist, All(c, CheckerBoard(c))) <==>
            !Low(bit) && Masked(level, bit) == Masked(Inverted(Visited(c, k), Word(0)), bit)
  {
    assert StuckAt(dev, Visited(c, k), bit, level) && OneBit(bit) && bit.bits & Mask(c).bits == bit.bits;
    hide *;
    if Low(bit) {
      StuckBitFound(c, dev, hist, k, bit, level);
    } else {
      if Passes(dev, Mask(c), hist, All(c, CheckerBoard(c))) {
        HighStuckAgrees(c, dev, hist, k, bit, level);
      }
      if Masked(level, bit) == Masked(Inverted(Visited(c, k), Word(0)), bit) {
        HighStuckPasses(c, dev, hist, k, bit, level);
      }
    }
  }

  // ----- aliased addresses

  lemma {:induction false} VisitTwo(c: Config, hist: seq<Event>, e: Pass, j: nat, a: nat, b: nat)
    requires c.Valid() && j < Count(c, e)
    ensures LastOfTwo(hist + Bus(Visit(c, e, j)), a, b) ==
            if (Adr(c, e, j) == a || Adr(c, e, j) == b) && Written(c, e, j).Some? then Written(c, e, j)
            else LastOfTwo(hist, a, b)
  {
    hide *;
    VisitIs(c, e, j);
    DoingTwo(hist, Adr(c, e, j), Expected(c, e, j), Written(c, e, j), a, b);
  }

  lemma {:induction false} DoingTwo(hist: seq<Event>, adr: nat, r: Option<Word>, w: Option<Word>, a: nat, b: nat)
    ensures LastOfTwo(hist + Bus(Doing(adr, r, w)), a, b) ==
            if (adr == a || adr == b) && w.Some? then w else LastOfTwo(hist, a, b)
  {
    VisitBus(adr, r, w);
    var h := if r.Some? then hist + [Rd(adr)] else hist;
    LastOfTwoAppend(hist, Rd(adr), a, b);
    if w.Some? {
      LastOfTwoAppend(h, Wr(adr, w.value), a, b);
      assert hist + Bus(Doing(adr, r, w)) == h + [Wr(adr, w.value)];
    } else {
      assert hist + Bus(Doing(adr, r, w)) == h;
    }
    hide LastOfTwo, Bus, Doing;
  }

  /** After one of two addresses is written and before the other is visited, that write is their last. */
  lemma {:induction false} LastIsFirst(c: Config, hist: seq<Event>, e: Pass, i: nat, n: nat, a: nat, b: nat)
    requires c.Valid() && i < n <= Count(c, e) && (Adr(c, e, i) == a || Adr(c, e, i) == b) && Written(c, e, i).Some?
    requires forall j | i < j < n :: Adr(c, e, j) != a && Adr(c, e, j) != b
    ensures LastOfTwo(hist + Bus(Steps(c, e, n)), a, b) == Written(c, e, i)
  {
    hide *;
    StepsIs(c, hist, e, n);
    VisitTwo(c, hist + Bus(Steps(c, e, n - 1)), e, n - 1, a, b);
    if i < n - 1 {
      LastIsFirst(c, hist, e, i, n - 1, a, b);
    }
  }

  /** Visits of a range pass between two positions are to other addresses. */
  lemma {:induction false} OtherPositions(c: Config, e: Pass, i: nat, j: nat)
    requires c.Valid() && e.Range? && i < Count(c, e) && j < Count(c, e) && i != j
    ensures Adr(c, e, i) != Adr(c, e, j)
  {
    var n := Visits(c);
    hide Visited, Visits, Config.Valid;
    if Adr(c, e, i) == Adr(c, e, j) {
      VisitedOnce(c, if e.up then i else n - 1 - i, if e.up then j else n - 1 - j);
    }
  }

  /** In a passed pass over aliased cells, what is written at the first is what is expected at the second. */
  lemma {:induction false} AliasMeets(c: Config, dev: Device, hist: seq<Event>, e: Pass, i: nat, j: nat)
    requires c.Valid() && e.Range? && i < j < Count(c, e) && Written(c, e, i).Some? && Expected(c, e, j).Some?
    requires Passes(dev, Mask(c), hist, Steps(c, e, Count(c, e)))
    requires Aliased(dev, Mask(c), Adr(c, e, i), Adr(c, e, j)) || Aliased(dev, Mask(c), Adr(c, e, j), Adr(c, e, i))
    ensures Masked(Written(c, e, i).value, Mask(c)) == Expected(c, e, j).value
  {
    var a, b, h := Adr(c, e, i), Adr(c, e, j), hist + Bus(Steps(c, e, j));
    forall k | i < k < j
      ensures Adr(c, e, k) != a && Adr(c, e, k) != b
    {
      OtherPositions(c, e, i, k);
      OtherPositions(c, e, k, j);
    }
    hide Passes, Steps, Bus, Adr, Written, Expected, Count, Mask, Masked, Config.Valid, Aliased;
    PassedCheck(c, dev, hist, e, Count(c, e), j);
    LastIsFirst(c, hist, e, i, j, a, b);
    LastIsFirst(c, hist, e, i, j, b, a);
    if Aliased(dev, Mask(c), a, b) {
      AliasReads(dev, Mask(c), h, a, b, b);
    } else {
      AliasReads(dev, Mask(c), h, b, a, b);
    }
  }

  lemma {:induction false} AliasReads(dev: Device, msk: Word, hist: seq<Event>, a: nat, b: nat, x: nat)
    requires Aliased(dev, msk, a, b) && (x == a || x == b) && LastOfTwo(hist, a, b).Some?
    ensures Masked(dev(hist, x), msk) == Masked(LastOfTwo(hist, a, b).value, msk)
  {
    hide LastOfTwo, Masked;
  }

  /** In a passed checkerboard pass, what is written at one aliased cell is what is expected at the other. */
  lemma {:induction false} AliasPattern(c: Config, dev: Device, hist: seq<Event>, i: nat, k: nat, l: nat)
    requires c.Valid() && i < |CheckerBoard(c)| && k < Visits(c) && l < Visits(c)
    requires var e := CheckerBoard(c)[i]; e.read.Some? && e.write.Some? && At(c, e, k) < At(c, e, l)
    requires Passes(dev, Mask(c), hist, All(c, CheckerBoard(c)))
    requires var a, b := Visited(c, k), Visited(c, l); Aliased(dev, Mask(c), a, b) || Aliased(dev, Mask(c), b, a)
    ensures var e := CheckerBoard(c)[i];
            Masked(Pattern(c, e.write.value, Visited(c, k)), Mask(c)) ==
            Masked(Pattern(c, e.read.value, Visited(c, l)), Mask(c))
  {
    var e := CheckerBoard(c)[i];
    assert Written(c, e, At(c, e, k)) == Some(Masked(Pattern(c, e.write.value, Visited(c, k)), Mask(c))) by {
      hide Pattern, Masked, Visited, Visits, Mask;
    }
    assert Expected(c, e, At(c, e, l)) == Some(Masked(Pattern(c, e.read.value, Visited(c, l)), Mask(c))) by {
      hide Pattern, Masked, Visited, Visits, Mask;
    }
    hide *;
    PassedPass(c, dev, hist, CheckerBoard(c), i);
    AliasMeets(c, dev, hist + Bus(All(c, CheckerBoard(c)[..i])), e, At(c, e, k), At(c, e, l));
    MaskedTwice(Pattern(c, e.write.value, Visited(c, k)), Mask(c));
  }

  /** Low bytes that tell the patterns of two addresses apart, whichever parities they have. */
  lemma {:induction false} PatternsDiffer(a: nat, b: nat, msk: Word)
    requires msk.bits & 0xFF == 0xFF
    ensures a % 2 == b % 2 ==> Masked(Inverted(b, P5.word), msk) != Masked(Inverted(a, A5.word), msk)
    ensures a % 2 != b % 2 ==> Masked(Inverted(a, FF.word), msk) != Masked(Inverted(b, P5.word), msk)
  {}

  /** Two visited addresses that select the same cell are found, whatever the other addresses do. */
  lemma {:induction false} AliasFound(c: Config, dev: Device, hist: seq<Event>, k: nat, l: nat)
    requires c.Valid() && c.checker == 0xFF && k < l < Visits(c)
    requires Aliased(dev, Mask(c), Visited(c, k), Visited(c, l))
    ensures !Passes(dev, Mask(c), hist, All(c, CheckerBoard(c)))
  {
    var a, b := Visited(c, k), Visited(c, l);
    DefaultBoard(c);
    var e3, e4 := CheckerBoard(c)[3], CheckerBoard(c)[4];
    assert At(c, e3, l) < At(c, e3, k) && At(c, e4, k) < At(c, e4, l);
    assert Mask(c).bits & 0xFF == 0xFF;
    hide *;
    if Passes(dev, Mask(c), hist, All(c, CheckerBoard(c))) {
      AliasPattern(c, dev, hist, 3, l, k);
      AliasPattern(c, dev, hist, 4, k, l);
      PatternsDiffer(a, b, Mask(c));
      PatternIs(c, P5.word, b);
      PatternIs(c, A5.word, a);
      PatternIs(c, FF.word, a);
    }
  }

  /** doMemTest ends with the checkerboard, so it finds the same faults. */
  lemma {:induction false} MemTestFinds(c: Config, dev: Device, hist: seq<Event>)
    requires c.Valid() && Passes(dev, Mask(c), hist, All(c, MemTest(c)))
    ensures exists h: seq<Event> :: Passes(dev, Mask(c), h, All(c, CheckerBoard(c)))
  {
    var walks := MemTest(c)[..8];
    assert MemTest(c) == walks + CheckerBoard(c);
    hide *;
    AllAppend(c, walks, CheckerBoard(c));
    PassesAppend(dev, Mask(c), hist, All(c, walks), All(c, CheckerBoard(c)));
  }
}
