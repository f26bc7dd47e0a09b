/** What the memory tests guarantee: no false alarms, and which faults they find. */
module MemTheorems {
  import opened Bits
  import opened Bits64
  import opened MemAccess
  import opened MemPatterns
  import opened Wrappers

  // ----- the four walks agree wherever their addresses meet

  lemma {:induction false} NotThreefold(i: nat, k: nat)
    ensures Pow2(i) != 3 * k
  {
    if i > 0 {
      if Pow2(i) == 3 * k {
        assert k % 2 == 0;
        NotThreefold(i - 1, k / 2);
        assert false;
      }
    }
  }

  /** The address walks seed their pattern with the address. */
  lemma {:induction false} AddressWalksAgree(c: Config, a: Kind, i: nat, b: Kind, j: nat)
    requires c.Valid() && i < WalkCount(c, a) && j < WalkCount(c, b) && WalkAdr(c, a, i) == WalkAdr(c, b, j)
    requires (a.OneAdr? || a.ZeroAdr?) && (b.OneAdr? || b.ZeroAdr?)
    ensures WalkPattern(c, a, i) == WalkPattern(c, b, j)
  {
    hide AddressPattern, WalkAdr, WalkCount, Config.Valid;
  }

  /** 3i and mask - 3j lie in different halves. */
  lemma {:induction false} DataWalksAgree(c: Config, a: Kind, i: nat, b: Kind, j: nat)
    requires i < WalkCount(c, a) && j < WalkCount(c, b) && WalkAdr(c, a, i) == WalkAdr(c, b, j)
    requires (a.OneDat? || a.ZeroDat?) && (b.OneDat? || b.ZeroDat?)
    ensures a == b && i == j
  {
    WalkFits(c, a, i);
    WalkFits(c, b, j);
    hide Pow2, MaxData, WalkCount;
  }

  /** 3i is no power of two, and the other addresses lie in different halves. */
  lemma {:induction false} MixedWalksApart(c: Config, a: Kind, i: nat, b: Kind, j: nat)
    requires i < WalkCount(c, a) && j < WalkCount(c, b)
    requires (a.OneAdr? || a.ZeroAdr?) && (b.OneDat? || b.ZeroDat?)
    ensures WalkAdr(c, a, i) != WalkAdr(c, b, j)
  {
    WalkFits(c, a, i);
    WalkFits(c, b, j);
    NotThreefold(i, j);
    hide Pow2, MaxData, WalkCount;
  }

  lemma {:induction false} WalksAgree(c: Config, a: Kind, i: nat, b: Kind, j: nat)
    requires c.Valid() && i < WalkCount(c, a) && j < WalkCount(c, b) && WalkAdr(c, a, i) == WalkAdr(c, b, j)
    ensures WalkPattern(c, a, i) == WalkPattern(c, b, j)
  {
    hide *;
    var x, y := a.OneAdr? || a.ZeroAdr?, b.OneAdr? || b.ZeroAdr?;
    if x && y {
      AddressWalksAgree(c, a, i, b, j);
    } else if !x && !y {
      DataWalksAgree(c, a, i, b, j);
    } else if x {
      MixedWalksApart(c, a, i, b, j);
    } else {
      MixedWalksApart(c, b, j, a, i);
    }
  }

  // ----- one visit

  lemma {:induction false} VisitWrites(c: Config, hist: seq<Event>, e: Pass, k: nat, adr: nat)
    requires c.Valid() && k < Count(c, e)
    ensures LastWrite(hist + Bus(Visit(c, e, k)), adr) ==
            if Adr(c, e, k) == adr && Written(c, e, k).Some? then Written(c, e, k) else LastWrite(hist, adr)
  {
    var a, r, w := Adr(c, e, k), Expected(c, e, k), Written(c, e, k);
    VisitBus(a, r, w);
    hide *;
    VisitLast(hist, a, r, w, adr);
    VisitIs(c, e, k);
  }

  ghost function Doing(a: nat, r: Option<Word>, w: Option<Word>): seq<Access> {
    (if r.Some? then [R(a, r.value)] else []) + if w.Some? then [W(a, w.value)] else []
  }

  lemma {:induction false} VisitIs(c: Config, e: Pass, k: nat)
    requires c.Valid() && k < Count(c, e)
    ensures Visit(c, e, k) == Doing(Adr(c, e, k), Expected(c, e, k), Written(c, e, k))
  {
    hide Adr, Expected, Written;
  }

  lemma {:induction false} VisitBus(a: nat, r: Option<Word>, w: Option<Word>)
    ensures Bus(Doing(a, r, w)) == (if r.Some? then [Rd(a)] else []) + if w.Some? then [Wr(a, w.value)] else []
  {
    var x := if r.Some? then [R(a, r.value)] else [];
    var y := if w.Some? then [W(a, w.value)] else [];
    BusAppend(x, y);
    assert r.Some? ==> Bus([R(a, r.value)]) == Bus([]) + [Rd(a)];
    assert w.Some? ==> Bus([W(a, w.value)]) == Bus([]) + [Wr(a, w.value)];
  }

  lemma {:induction false} VisitLast(hist: seq<Event>, a: nat, r: Option<Word>, w: Option<Word>, adr: nat)
    requires Bus(Doing(a, r, w)) == (if r.Some? then [Rd(a)] else []) + if w.Some? then [Wr(a, w.value)] else []
    ensures LastWrite(hist + Bus(Doing(a, r, w)), adr) == if a == adr && w.Some? then w else LastWrite(hist, adr)
  {
    var h := if r.Some? then hist + [Rd(a)] else hist;
    LastWriteAppend(hist, Rd(a), adr);
    if w.Some? {
      LastWriteAppend(h, Wr(a, w.value), adr);
      assert hist + Bus(Doing(a, r, w)) == h + [Wr(a, w.value)];
    } else {
      assert hist + Bus(Doing(a, r, w)) == h;
    }
    hide LastWrite, Bus, Doing;
  }

  lemma {:induction false} VisitPasses(c: Config, dev: Device, hist: seq<Event>, e: Pass, k: nat)
    requires c.Valid() && k < Count(c, e)
    ensures Passes(dev, Mask(c), hist, Visit(c, e, k)) <==>
            (Expected(c, e, k).Some? ==> Masked(dev(hist, Adr(c, e, k)), Mask(c)) == Expected(c, e, k).value)
  {
    var a, r, w, msk := Adr(c, e, k), Expected(c, e, k), Written(c, e, k), Mask(c);
    hide *;
    VisitIs(c, e, k);
    DoingPasses(dev, msk, hist, a, r, w);
  }

  lemma {:induction false} DoingPasses(dev: Device, msk: Word, hist: seq<Event>, a: nat, r: Option<Word>,
                                       w: Option<Word>)
    ensures Passes(dev, msk, hist, Doing(a, r, w)) <==> (r.Some? ==> Masked(dev(hist, a), msk) == r.value)
  {
    var x := if r.Some? then [R(a, r.value)] else [];
    var y := if w.Some? then [W(a, w.value)] else [];
    PassesAppend(dev, msk, hist, x, y);
    if r.Some? {
      PassesOne(dev, msk, hist, R(a, r.value));
    }
    if w.Some? {
      PassesOne(dev, msk, hist + Bus(x), W(a, w.value));
    }
    hide Masked, Bus;
  }

  // ----- a pass

  lemma {:induction false} StepsIs(c: Config, hist: seq<Event>, e: Pass, n: nat)
    requires c.Valid() && 0 < n <= Count(c, e)
    ensures Steps(c, e, n) == Steps(c, e, n - 1) + Visit(c, e, n - 1)
    ensures hist + Bus(Steps(c, e, n)) == hist + Bus(Steps(c, e, n - 1)) + Bus(Visit(c, e, n - 1))
  {
    assert Steps(c, e, n) == Steps(c, e, n - 1) + Visit(c, e, n - 1);
    hide *;
    BusAppend(Steps(c, e, n - 1), Visit(c, e, n - 1));
    Joined(hist, Bus(Steps(c, e, n - 1)), Bus(Visit(c, e, n - 1)));
  }

  lemma {:induction false} Joined(a: seq<Event>, b: seq<Event>, c: seq<Event>)
    ensures a + (b + c) == a + b + c
  {}

  lemma {:induction false} NoSteps(c: Config, hist: seq<Event>, e: Pass)
    requires c.Valid()
    ensures Steps(c, e, 0) == [] && hist + Bus(Steps(c, e, 0)) == hist
  {}

  /** If a pass writes nothing but d to an address, and d is there already or is written, d is there afterwards. */
  lemma {:induction false} Settles(c: Config, hist: seq<Event>, e: Pass, n: nat, adr: nat, d: Word)
    requires c.Valid() && n <= Count(c, e)
    requires forall j | 0 <= j < n && Adr(c, e, j) == adr && Written(c, e, j).Some? :: Written(c, e, j).value == d
    requires LastWrite(hist, adr) == Some(d)
             || exists j | 0 <= j < n :: Adr(c, e, j) == adr && Written(c, e, j) == Some(d)
    ensures LastWrite(hist + Bus(Steps(c, e, n)), adr) == Some(d)
  {
    hide *;
    if n == 0 {
      NoSteps(c, hist, e);
    } else {
      var h := hist + Bus(Steps(c, e, n - 1));
      StepsIs(c, hist, e, n);
      VisitWrites(c, h, e, n - 1, adr);
      if !(Adr(c, e, n - 1) == adr && Written(c, e, n - 1).Some?) {
        Settles(c, hist, e, n - 1, adr, d);
      }
    }
  }

  /** The memory holds what the pass expects, and returns it. */
  ghost predicate Prepared(c: Config, hist: seq<Event>, e: Pass, good: (nat, Word) -> bool)
    requires c.Valid()
  {
    forall j | 0 <= j < Count(c, e) && Expected(c, e, j).Some? ::
      LastWrite(hist, Adr(c, e, j)) == Expected(c, e, j) && good(Adr(c, e, j), Expected(c, e, j).value)
      && Masked(Expected(c, e, j).value, Mask(c)) == Expected(c, e, j).value
  }

  /** No address is written before it is checked. */
  ghost predicate ChecksFirst(c: Config, e: Pass)
    requires c.Valid()
  {
    forall i, j | 0 <= i < j < Count(c, e) && Expected(c, e, j).Some? && Written(c, e, i).Some? ::
      Adr(c, e, i) != Adr(c, e, j)
  }

  lemma {:induction false} FaithfulAt(dev: Device, msk: Word, good: (nat, Word) -> bool, hist: seq<Event>, adr: nat,
                                      d: Word)
    requires Faithful(dev, msk, good) && LastWrite(hist, adr) == Some(d) && good(adr, d)
    ensures Masked(dev(hist, adr), msk) == Masked(d, msk)
  {
    hide LastWrite, Masked;
  }

  lemma {:induction false} PreparedAt(c: Config, hist: seq<Event>, e: Pass, good: (nat, Word) -> bool, j: nat)
    requires c.Valid() && Prepared(c, hist, e, good) && ChecksFirst(c, e) && j < Count(c, e) && Expected(c, e, j).Some?
    ensures var a, d := Adr(c, e, j), Expected(c, e, j).value;
            && LastWrite(hist, a) == Some(d) && good(a, d) && Masked(d, Mask(c)) == d
            && forall i | 0 <= i < j && Written(c, e, i).Some? :: Adr(c, e, i) != a
  {
    hide LastWrite, Expected, Written, Adr, Mask, Masked, Count, Config.Valid;
  }

  /** A check finds what was there before the pass. */
  lemma {:induction false} StillThere(c: Config, hist: seq<Event>, e: Pass, good: (nat, Word) -> bool, j: nat)
    requires c.Valid() && Prepared(c, hist, e, good) && ChecksFirst(c, e) && j < Count(c, e) && Expected(c, e, j).Some?
    ensures LastWrite(hist + Bus(Steps(c, e, j)), Adr(c, e, j)) == Expected(c, e, j)
  {
    hide *;
    PreparedAt(c, hist, e, good, j);
    Settles(c, hist, e, j, Adr(c, e, j), Expected(c, e, j).value);
  }

  lemma {:induction false} ReadBack(c: Config, dev: Device, good: (nat, Word) -> bool, hist: seq<Event>, e: Pass,
                                    j: nat)
    requires c.Valid() && Faithful(dev, Mask(c), good) && Prepared(c, hist, e, good) && ChecksFirst(c, e)
    requires j < Count(c, e) && Expected(c, e, j).Some?
    ensures Masked(dev(hist + Bus(Steps(c, e, j)), Adr(c, e, j)), Mask(c)) == Expected(c, e, j).value
  {
    hide *;
    StillThere(c, hist, e, good, j);
    PreparedAt(c, hist, e, good, j);
    FaithfulAt(dev, Mask(c), good, hist + Bus(Steps(c, e, j)), Adr(c, e, j), Expected(c, e, j).value);
  }

  lemma {:induction false} StepPasses(c: Config, dev: Device, good: (nat, Word) -> bool, hist: seq<Event>, e: Pass,
                                      j: nat)
    requires c.Valid() && Faithful(dev, Mask(c), good) && Prepared(c, hist, e, good) && ChecksFirst(c, e)
    requires j < Count(c, e)
    ensures Passes(dev, Mask(c), hist + Bus(Steps(c, e, j)), Visit(c, e, j))
  {
    hide *;
    VisitPasses(c, dev, hist + Bus(Steps(c, e, j)), e, j);
    if Expected(c, e, j).Some? {
      ReadBack(c, dev, good, hist, e, j);
    }
  }

  lemma {:induction false} NothingPasses(dev: Device, mask: Word, hist: seq<Event>)
    ensures Passes(dev, mask, hist, [])
  {}

  lemma {:induction false} PreparedPasses(c: Config, dev: Device, good: (nat, Word) -> bool, hist: seq<Event>,
                                          e: Pass, n: nat)
    requires c.Valid() && n <= Count(c, e) && Faithful(dev, Mask(c), good)
    requires Prepared(c, hist, e, good) && ChecksFirst(c, e)
    ensures Passes(dev, Mask(c), hist, Steps(c, e, n))
  {
    hide *;
    if n == 0 {
      NoSteps(c, hist, e);
      NothingPasses(dev, Mask(c), hist);
    } else {
      StepPasses(c, dev, good, hist, e, n - 1);
      PreparedPasses(c, dev, good, hist, e, n - 1);
      StepsIs(c, hist, e, n);
      PassesAppend(dev, Mask(c), hist, Steps(c, e, n - 1), Visit(c, e, n - 1));
    }
  }

  // ----- which sequences of passes raise no false alarm

  /**
   Each check finds what was last written: `walks` are the walks still in memory, `range` the
   pattern all visited addresses hold.
   */
  ghost predicate Safe(walks: set<Kind>, range: Option<Pat>, passes: seq<Pass>)
    decreases |passes|
  {
    if passes == [] then true
    else
      match passes[0]
      case Walk(kind, writing) =>
        if writing then Safe(walks + {kind}, None, passes[1..]) else kind in walks && Safe(walks, range, passes[1..])
      case Range(_, read, write) =>
        && (read.Some? ==> read == range)
        && Safe(if write.Some? then {} else walks, if write.Some? then write else range, passes[1..])
  }

  ghost predicate HoldsWalk(c: Config, hist: seq<Event>, kind: Kind)
    requires c.Valid()
  {
    forall k | 0 <= k < WalkCount(c, kind) ::
      LastWrite(hist, WalkAdr(c, kind, k)) == Some(Masked(WalkPattern(c, kind, k), Mask(c)))
  }

  ghost predicate HoldsRange(c: Config, hist: seq<Event>, p: Pat)
    requires c.Valid()
  {
    forall k | 0 <= k < Visits(c) ::
      LastWrite(hist, Visited(c, k)) == Some(Masked(Pattern(c, p, Visited(c, k)), Mask(c)))
  }

  ghost predicate Holds(c: Config, hist: seq<Event>, walks: set<Kind>, range: Option<Pat>)
    requires c.Valid()
  {
    (forall kind | kind in walks :: HoldsWalk(c, hist, kind)) && (range.Some? ==> HoldsRange(c, hist, range.value))
  }

  ghost function After(c: Config, hist: seq<Event>, e: Pass): seq<Event>
    requires c.Valid()
  {
    hist + Bus(Steps(c, e, Count(c, e)))
  }

  lemma {:induction false} WalkWrites(c: Config, hist: seq<Event>, kind: Kind, other: Kind)
    requires c.Valid() && (other == kind || HoldsWalk(c, hist, other))
    ensures HoldsWalk(c, After(c, hist, Walk(kind, true)), other)
  {
    var e := Walk(kind, true);
    forall k | 0 <= k < WalkCount(c, other)
      ensures LastWrite(After(c, hist, e), WalkAdr(c, other, k)) == Some(Masked(WalkPattern(c, other, k), Mask(c)))
    {
      var adr, d := WalkAdr(c, other, k), Masked(WalkPattern(c, other, k), Mask(c));
      forall j | 0 <= j < WalkCount(c, kind) && WalkAdr(c, kind, j) == adr
        ensures WalkPattern(c, kind, j) == WalkPattern(c, other, k)
      {
        WalksAgree(c, kind, j, other, k);
      }
      hide WalkPattern, WalkAdr, WalkCount, LastWrite, Bus, Steps, Masked, Mask;
      assert other == kind ==> Adr(c, e, k) == adr && Written(c, e, k) == Some(d);
      Settles(c, hist, e, Count(c, e), adr, d);
    }
    hide *;
  }

  lemma {:induction false} CheckKeeps(c: Config, hist: seq<Event>, e: Pass, adr: nat)
    requires c.Valid() && LastWrite(hist, adr).Some? && forall j | 0 <= j < Count(c, e) :: Written(c, e, j) == None
    ensures LastWrite(After(c, hist, e), adr) == LastWrite(hist, adr)
  {
    hide LastWrite, Bus, Steps, Written, Count, Adr;
    Settles(c, hist, e, Count(c, e), adr, LastWrite(hist, adr).value);
  }

  lemma {:induction false} VisitedOnce(c: Config, i: nat, j: nat)
    requires c.Valid() && i < Visits(c) && j < Visits(c) && Visited(c, i) == Visited(c, j)
    ensures i == j
  {
    hide Visits, Pow2;
    MulInjective(i, j, c.step);
  }

  lemma {:induction false} MulInjective(i: nat, j: nat, m: nat)
    requires m > 0 && i * m == j * m
    ensures i == j
  {
    assert (i - j) * m == 0;
  }

  lemma {:induction false} RangeWrites(c: Config, hist: seq<Event>, e: Pass)
    requires c.Valid() && e.Range? && e.write.Some?
    ensures HoldsRange(c, After(c, hist, e), e.write.value)
  {
    forall k | 0 <= k < Visits(c)
      ensures LastWrite(After(c, hist, e), Visited(c, k)) ==
              Some(Masked(Pattern(c, e.write.value, Visited(c, k)), Mask(c)))
    {
      var j := if e.up then k else Visits(c) - 1 - k;
      hide Pattern, LastWrite, Bus, Steps, Visited, Visits, Mask, Masked;
      assert Adr(c, e, j) == Visited(c, k);
      var d := Masked(Pattern(c, e.write.value, Visited(c, k)), Mask(c));
      assert Written(c, e, j) == Some(d);
      Settles(c, hist, e, Count(c, e), Visited(c, k), d);
    }
    hide *;
  }

  /** The values every checked pattern puts on the bus are returned. */
  ghost predicate Returned(c: Config, e: Pass, good: (nat, Word) -> bool)
    requires c.Valid()
  {
    forall j | 0 <= j < Count(c, e) && Expected(c, e, j).Some? :: good(Adr(c, e, j), Expected(c, e, j).value)
  }

  lemma {:induction false} RangeReady(c: Config, hist: seq<Event>, e: Pass, good: (nat, Word) -> bool)
    requires c.Valid() && e.Range? && Returned(c, e, good)
    requires e.read.Some? ==> HoldsRange(c, hist, e.read.value)
    ensures Prepared(c, hist, e, good) && ChecksFirst(c, e)
  {
    hide Pattern, LastWrite, Visited, Visits, Mask, Masked;
    forall j | 0 <= j < Count(c, e) && Expected(c, e, j).Some?
      ensures LastWrite(hist, Adr(c, e, j)) == Expected(c, e, j)
      ensures Masked(Expected(c, e, j).value, Mask(c)) == Expected(c, e, j).value
    {
      MaskedTwice(Pattern(c, e.read.value, Adr(c, e, j)), Mask(c));
    }
    forall i, j | 0 <= i < j < Count(c, e)
      ensures Adr(c, e, i) != Adr(c, e, j)
    {
      var n := Visits(c);
      if Adr(c, e, i) == Adr(c, e, j) {
        VisitedOnce(c, if e.up then i else n - 1 - i, if e.up then j else n - 1 - j);
        assert false;
      }
    }
  }

  lemma {:induction false} WalkReady(c: Config, hist: seq<Event>, kind: Kind, good: (nat, Word) -> bool)
    requires c.Valid() && HoldsWalk(c, hist, kind) && Returned(c, Walk(kind, false), good)
    ensures Prepared(c, hist, Walk(kind, false), good) && ChecksFirst(c, Walk(kind, false))
  {
    var e := Walk(kind, false);
    hide WalkPattern, WalkAdr, WalkCount, LastWrite, Mask, Masked;
    forall j | 0 <= j < Count(c, e)
      ensures Masked(Expected(c, e, j).value, Mask(c)) == Expected(c, e, j).value
    {
      MaskedTwice(WalkPattern(c, kind, j), Mask(c));
    }
  }

  lemma {:induction false} AllIs(c: Config, passes: seq<Pass>, e: Pass)
    requires c.Valid()
    ensures All(c, passes + [e]) == All(c, passes) + Steps(c, e, Count(c, e))
  {
    var all := passes + [e];
    assert all[..|all| - 1] == passes && all[|all| - 1] == e;
    hide Steps, Count, Config.Valid;
  }

  lemma {:induction false} Assoc(x: seq<Access>, y: seq<Access>, z: seq<Access>)
    ensures (x + y) + z == x + (y + z)
  {}

  lemma {:induction false} Shift(e: Pass, rest: seq<Pass>)
    requires rest != []
    ensures var rest', last := rest[..|rest| - 1], rest[|rest| - 1];
            [e] + rest == ([e] + rest') + [last] && rest == rest' + [last]
  {}

  lemma {:induction false} FirstPass(c: Config, e: Pass, rest: seq<Pass>)
    requires c.Valid()
    ensures All(c, [e] + rest) == Steps(c, e, Count(c, e)) + All(c, rest)
  {
    if rest == [] {
      AllIs(c, [], e);
      assert [e] + rest == [] + [e] && All(c, []) == [];
      hide *;
      assert Steps(c, e, Count(c, e)) + [] == [] + Steps(c, e, Count(c, e));
    } else {
      var rest', last := rest[..|rest| - 1], rest[|rest| - 1];
      hide *;
      Shift(e, rest);
      FirstPass(c, e, rest');
      AllIs(c, [e] + rest', last);
      AllIs(c, rest', last);
      Assoc(Steps(c, e, Count(c, e)), All(c, rest'), Steps(c, last, Count(c, last)));
    }
  }

  /** What a memory holds after a pass, as far as the next passes rely on it. */
  lemma {:induction false} PassHolds(c: Config, hist: seq<Event>, walks: set<Kind>, range: Option<Pat>, e: Pass)
    requires c.Valid() && Holds(c, hist, walks, range)
    ensures e.Walk? && e.writing ==> Holds(c, After(c, hist, e), walks + {e.kind}, None)
    ensures e.Walk? && !e.writing ==> Holds(c, After(c, hist, e), walks, range)
    ensures e.Range? ==>
              Holds(c, After(c, hist, e), if e.write.Some? then {} else walks, if e.write.Some? then e.write else range)
  {
    hide HoldsWalk, HoldsRange, After, Safe;
    if e.Walk? && e.writing {
      forall kind | kind in walks + {e.kind}
        ensures HoldsWalk(c, After(c, hist, e), kind)
      {
        WalkWrites(c, hist, e.kind, kind);
      }
    } else if e.Range? && e.write.Some? {
      RangeWrites(c, hist, e);
    } else {
      assert forall j | 0 <= j < Count(c, e) :: Written(c, e, j) == None by {
        hide Adr, Count, Pattern, WalkPattern;
      }
      forall kind | kind in walks
        ensures HoldsWalk(c, After(c, hist, e), kind)
      {
        WalkKept(c, hist, e, kind);
      }
      if range.Some? {
        RangeKept(c, hist, e, range.value);
      }
    }
  }

  lemma {:induction false} WalkKept(c: Config, hist: seq<Event>, e: Pass, kind: Kind)
    requires c.Valid() && HoldsWalk(c, hist, kind) && forall j | 0 <= j < Count(c, e) :: Written(c, e, j) == None
    ensures HoldsWalk(c, After(c, hist, e), kind)
  {
    hide After, Written, Count, LastWrite, WalkAdr, WalkPattern, WalkCount, Mask, Masked;
    forall k | 0 <= k < WalkCount(c, kind)
      ensures LastWrite(After(c, hist, e), WalkAdr(c, kind, k)) == LastWrite(hist, WalkAdr(c, kind, k))
    {
      CheckKeeps(c, hist, e, WalkAdr(c, kind, k));
    }
  }

  lemma {:induction false} RangeKept(c: Config, hist: seq<Event>, e: Pass, p: Pat)
    requires c.Valid() && HoldsRange(c, hist, p) && forall j | 0 <= j < Count(c, e) :: Written(c, e, j) == None
    ensures HoldsRange(c, After(c, hist, e), p)
  {
    hide After, Written, Count, LastWrite, Visited, Visits, Pattern, Mask, Masked;
    forall k | 0 <= k < Visits(c)
      ensures LastWrite(After(c, hist, e), Visited(c, k)) == LastWrite(hist, Visited(c, k))
    {
      CheckKeeps(c, hist, e, Visited(c, k));
    }
  }

  /**
   A sequence of passes in which each check follows its writing passes on every memory that returns what it
   expects.
   */
  lemma {:induction false} SafePasses(c: Config, dev: Device, good: (nat, Word) -> bool, hist: seq<Event>,
                                      walks: set<Kind>, range: Option<Pat>, passes: seq<Pass>)
    requires c.Valid() && Faithful(dev, Mask(c), good) && Holds(c, hist, walks, range) && Safe(walks, range, passes)
    requires forall i | 0 <= i < |passes| :: Returned(c, passes[i], good)
    ensures Passes(dev, Mask(c), hist, All(c, passes))
    decreases |passes|
  {
    if passes != [] {
      var e, rest := passes[0], passes[1..];
      assert passes == [e] + rest && Returned(c, e, good);
      assert e.Range? && e.read.Some? ==> e.read == range;
      assert e.Walk? && !e.writing ==> e.kind in walks && HoldsWalk(c, hist, e.kind);
      hide HoldsWalk, HoldsRange, Faithful, Prepared, ChecksFirst, Returned, Passes, All, Steps, Mask, Count, Bus;
      hide Config.Valid;
      if e.Range? {
        RangeReady(c, hist, e, good);
      } else if e.writing {
        assert Prepared(c, hist, e, good) && ChecksFirst(c, e) by { WriteReady(c, hist, e, good); }
      } else {
        WalkReady(c, hist, e.kind, good);
      }
      PreparedPasses(c, dev, good, hist, e, Count(c, e));
      FirstPass(c, e, rest);
      PassesAppend(dev, Mask(c), hist, Steps(c, e, Count(c, e)), All(c, rest));
      PassHolds(c, hist, walks, range, e);
      var w := if e.Walk? && e.writing then walks + {e.kind} else if e.Range? && e.write.Some? then {} else walks;
      var r := if e.Walk? && e.writing then None else if e.Range? && e.write.Some? then e.write else range;
      SafePasses(c, dev, good, After(c, hist, e), w, r, rest);
    }
  }

  lemma {:induction false} WriteReady(c: Config, hist: seq<Event>, e: Pass, good: (nat, Word) -> bool)
    requires c.Valid() && e.Walk? && e.writing
    ensures Prepared(c, hist, e, good) && ChecksFirst(c, e)
  {
    hide Adr, Count, WalkPattern;
  }
}
