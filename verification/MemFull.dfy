/** What the checkerboard and the full test find in any cell: lost words, stuck bits, aliased addresses. */
module MemFull {
  import opened Bits64
  import opened MemAccess
  import opened MemPatterns
  import opened MemRuns
  import opened MemTheorems
  import opened MemFaults
  import opened MemWalks
  import opened Wrappers
  import MemTest

  // ----- what every check of a safe sequence meets

  lemma {:induction false} CheckFinds(c: Config, hist: seq<Event>, walks: set<Kind>, range: Option<Pat>,
                                      passes: seq<Pass>, j: nat)
    requires c.Valid() && passes != [] && Holds(c, hist, walks, range) && Safe(walks, range, passes)
    requires j < Count(c, passes[0]) && Expected(c, passes[0], j).Some?
    ensures LastWrite(hist + Bus(Steps(c, passes[0], j)), Adr(c, passes[0], j)) == Expected(c, passes[0], j)
  {
    var e := passes[0];
    assert !(e.Walk? && e.writing);
    assert e.Range? ==> (Expected(c, e, j).Some? <==> e.read.Some?);
    assert e.Range? && e.read.Some? ==> e.read == range && HoldsRange(c, hist, range.value);
    assert e.Walk? && !e.writing ==> HoldsWalk(c, hist, e.kind) && e == Walk(e.kind, false);
    hide *;
    AnythingReturned(c, e);
    if e.Range? {
      RangeReady(c, hist, e, Anything());
    } else {
      WalkReady(c, hist, e.kind, Anything());
    }
    StillThere(c, hist, e, Anything(), j);
  }

  lemma {:induction false} SafeFinds(c: Config, hist: seq<Event>, walks: set<Kind>, range: Option<Pat>,
                                     passes: seq<Pass>, p: nat, j: nat)
    requires c.Valid() && Holds(c, hist, walks, range) && Safe(walks, range, passes) && p < |passes|
    requires j < Count(c, passes[p]) && Expected(c, passes[p], j).Some?
    ensures LastWrite(hist + Bus(All(c, passes[..p])) + Bus(Steps(c, passes[p], j)), Adr(c, passes[p], j))
            == Expected(c, passes[p], j)
    decreases p
  {
    hide *;
    if p == 0 {
      assert passes[..0] == [];
      NonePassed(c, hist);
      CheckFinds(c, hist, walks, range, passes, j);
    } else {
      var walks', range' := SafeStep(c, hist, walks, range, passes);
      FirstOf(c, hist, passes, p);
      SafeFinds(c, After(c, hist, passes[0]), walks', range', passes[1..], p - 1, j);
    }
  }

  // ----- lost words

  /** A cell that does not return one particular word. */
  ghost predicate Loses(dev: Device, msk: Word, adr: nat, w: Word) {
    forall hist: seq<Event> | LastWrite(hist, adr) == Some(Masked(w, msk)) ::
      Masked(dev(hist, adr), msk) != Masked(w, msk)
  }

  lemma {:induction false} LostHere(dev: Device, msk: Word, adr: nat, w: Word, hist: seq<Event>)
    requires Loses(dev, msk, adr, w) && LastWrite(hist, adr) == Some(Masked(w, msk))
    ensures Masked(dev(hist, adr), msk) != Masked(w, msk)
  {
    hide LastWrite, Masked;
  }

  /** A pass that checks for a pattern finds the cells that lose its word. */
  lemma {:induction false} PassFindsLoss(c: Config, dev: Device, hist: seq<Event>, passes: seq<Pass>, p: nat, k: nat,
                                         pat: Pat)
    requires c.Valid() && Safe({}, None, passes) && p < |passes| && k < Visits(c)
    requires passes[p].Range? && passes[p].read == Some(pat)
    requires Loses(dev, Mask(c), Visited(c, k), Pattern(c, pat, Visited(c, k)))
    ensures !Passes(dev, Mask(c), hist, All(c, passes))
  {
    var e, j, adr := passes[p], At(c, passes[p], k), Visited(c, k);
    assert Expected(c, e, j) == Some(Masked(Pattern(c, pat, adr), Mask(c))) by {
      hide Pattern, Masked, Visited, Visits, Mask, Inverted;
    }
    hide *;
    if Passes(dev, Mask(c), hist, All(c, passes)) {
      Nothing(c, hist);
      SafeFinds(c, hist, {}, None, passes, p, j);
      PassedPass(c, dev, hist, passes, p);
      PassedCheck(c, dev, hist + Bus(All(c, passes[..p])), e, Count(c, e), j);
      LostHere(dev, Mask(c), adr, Pattern(c, pat, adr), hist + Bus(All(c, passes[..p])) + Bus(Steps(c, e, j)));
    }
  }

  /** The six words of the checkerboard, inverted at odd addresses. */
  predicate BoardWord(w: Word, p: nat) {
    || (p == 3 && w == Word(0xAAAA_AAAA)) || (p == 4 && w == Word(0x5555_5555))
    || (p == 5 && w == Word(0xFFFF_FFFF)) || (p == 6 && w == Word(0x3333_3333))
    || (p == 7 && w == Word(0xCCCC_CCCC)) || (p == 8 && w == Word(0))
  }

  lemma {:induction false} BoardReads(c: Config, w: Word, p: nat)
    requires c.checker == 0xFF && BoardWord(w, p)
    ensures p < |CheckerBoard(c)| && CheckerBoard(c)[p].Range? && CheckerBoard(c)[p].read == Some(Rep(w))
  {}

  /** With the default mask, a visited cell that loses any of the six words is found. */
  lemma {:induction false} LossFound(c: Config, dev: Device, hist: seq<Event>, k: nat, w: Word, p: nat)
    requires c.Valid() && c.checker == 0xFF && k < Visits(c) && BoardWord(w, p)
    requires Loses(dev, Mask(c), Visited(c, k), Inverted(Visited(c, k), w))
    ensures !Passes(dev, Mask(c), hist, All(c, CheckerBoard(c)))
  {
    hide *;
    BoardReads(c, w, p);
    CheckerBoardSafe(c, {}, None);
    PatternIs(c, w, Visited(c, k));
    PassFindsLoss(c, dev, hist, CheckerBoard(c), p, k, Rep(w));
  }

  /** The address, or twice the address for 64-bit data, inverted at odd addresses. */
  function OwnWord(c: Config, adr: nat): Word
    requires c.Valid() && adr < Size(c)
  {
    BoundedSize(c);
    var w := Wide(if c.datSize == 64 then 2 * adr else adr);
    if adr % 2 == 0 then w else Not64(w)
  }

  lemma {:induction false} OwnWordIs(c: Config, adr: nat)
    requires c.Valid() && adr < Size(c)
    ensures OwnWord(c, adr) == Pattern(c, Inc, adr)
  {
    hide Wide, Not64;
  }

  lemma {:induction false} FirstRead(c: Config)
    ensures |CheckerBoard(c)| > 1 && CheckerBoard(c)[1] == Range(true, Some(Inc), None)
  {}

  /** Whatever the mask, a visited cell that loses its own address is found. */
  lemma {:induction false} AddressLossFound(c: Config, dev: Device, hist: seq<Event>, k: nat)
    requires c.Valid() && k < Visits(c) && Loses(dev, Mask(c), Visited(c, k), OwnWord(c, Visited(c, k)))
    ensures !Passes(dev, Mask(c), hist, All(c, CheckerBoard(c)))
  {
    hide *;
    FirstRead(c);
    OwnWordIs(c, Visited(c, k));
    CheckerBoardSafe(c, {}, None);
    PassFindsLoss(c, dev, hist, CheckerBoard(c), 1, k, Inc);
  }

  // ----- the full test

  /** What passes the full test passes the checkerboard it contains. */
  lemma {:induction false} FullIncludesBoard(c: Config, dev: Device, hist: seq<Event>, odd: bool)
      returns (h: seq<Event>)
    requires c.Valid() && Passes(dev, Mask(c), hist, All(c, RunTest(c, odd, true)))
    ensures Passes(dev, Mask(c), h, All(c, CheckerBoard(c)))
  {
    var b := RunTest(c, odd, true);
    var first := b[..12];
    assert b == first + CheckerBoard(c);
    hide *;
    AllAppend(c, first, CheckerBoard(c));
    PassesAppend(dev, Mask(c), hist, All(c, first), All(c, CheckerBoard(c)));
    h := hist + Bus(All(c, first));
  }

  lemma {:induction false} EveryAddress(c: Config, adr: nat)
    requires c.Valid() && c.step == 1 && adr < Size(c)
    ensures adr < Visits(c) && Visited(c, adr) == adr
  {
    VisitRange(c, adr);
    assert adr * 1 == adr;
    hide Visits, Size;
  }

  /**
   cepMemTest_runTest with the full test, on a memory of any address width, data width, base and seed: it fails if
   any cell has a bit stuck among the low 32, or if any two addresses select one cell.
   */
  lemma {:induction false} FullTestFinds(dev: Device, memBase: Word, adrWidth: nat, dataWidth: nat, seed: Word,
                                         odd: bool, a: nat, b: nat, bit: Word, level: Word)
    requires 3 <= adrWidth
    requires var c := MemTest.TestConfig(memBase, adrWidth, dataWidth, seed, true);
             && c.Valid() && a < Size(c) && b < Size(c)
             && ((DataBit(c, bit) && Low(bit) && StuckAt(dev, a, bit, level)) || (a < b && Aliased(dev, Mask(c), a, b)))
    ensures var c := MemTest.TestConfig(memBase, adrWidth, dataWidth, seed, true);
            !Passes(dev, Mask(c), [], All(c, RunTest(c, odd, true)))
  {
    var c := MemTest.TestConfig(memBase, adrWidth, dataWidth, seed, true);
    assert c.step == 1 && c.checker == 0xFF;
    EveryAddress(c, a);
    EveryAddress(c, b);
    hide *;
    if Passes(dev, Mask(c), [], All(c, RunTest(c, odd, true))) {
      var h := FullIncludesBoard(c, dev, [], odd);
      if a < b && Aliased(dev, Mask(c), a, b) {
        AliasFound(c, dev, h, a, b);
      } else {
        StuckBitFound(c, dev, h, a, bit, level);
      }
    }
  }
}
