/**
 Lane-wise atomic counters: up to four cores clear their own lane of a shared word and add to it eight
 times. A step is one atomic operation on the word; the interleaving of the cores is arbitrary.
 */
module LockfreeAtomic {
  import opened Bits64

  /** 16-bit lanes of a 64-bit word, or 8-bit lanes of a 32-bit word. */
  datatype Width = Wide | Narrow

  function LaneMask(wd: Width, k: nat): Word
    requires k < 4
  {
    if wd.Wide? then
      Word(if k == 0 then 0xFFFF else if k == 1 then 0xFFFF_0000
           else if k == 2 then 0xFFFF_0000_0000 else 0xFFFF_0000_0000_0000)
    else
      Word(if k == 0 then 0xFF else if k == 1 then 0xFF00 else if k == 2 then 0xFF_0000 else 0xFF00_0000)
  }

  function One(wd: Width, k: nat): Word
    requires k < 4
  {
    if wd.Wide? then
      Word(if k == 0 then 1 else if k == 1 then 0x1_0000 else if k == 2 then 0x1_0000_0000 else 0x1_0000_0000_0000)
    else
      Word(if k == 0 then 1 else if k == 1 then 0x100 else if k == 2 then 0x1_0000 else 0x100_0000)
  }

  /** One in every lane. */
  function FullAdd(wd: Width): Word {
    Word(if wd.Wide? then 0x0001_0001_0001_0001 else 0x0101_0101)
  }

  /** Addition on the whole word, wrapping around at its width. */
  function Plus(wd: Width, x: Word, y: Word): Word {
    if wd.Wide? then Sum64(x, y) else Sum32(x, y)
  }

  function Sum64(x: Word, y: Word): Word { Word(x.bits + y.bits) }

  function Sum32(x: Word, y: Word): Word { Word((x.bits + y.bits) & 0xFFFF_FFFF) }

  function Cleared(x: Word, mask: Word): Word {
    Word(x.bits & !mask.bits)
  }

  /** n times an addend. */
  function Times(wd: Width, x: Word, n: nat): Word {
    if n == 0 then Word(0) else Plus(wd, Times(wd, x, n - 1), x)
  }

  // ----- the cores

  datatype Pc = Clear | Add(i: nat) | Check(tout: nat) | Done

  datatype Core = Core(cpuId: nat, pc: Pc, exp: Word, expFull: Word, errCnt: nat)

  datatype State = State(word: Word, cores: seq<Core>)

  const TIMEOUT: nat := 2000

  /** One atomic operation of a core: the word it leaves, and what it makes of the word it saw. */
  function Act(wd: Width, c: Core, word: Word): (Word, Core)
    requires c.cpuId < 4
  {
    var mask, add := LaneMask(wd, c.cpuId), One(wd, c.cpuId);
    match c.pc
    case Clear => (Cleared(word, mask), c.(pc := Add(1), exp := Word(0), expFull := Word(0), errCnt := 0))
    case Add(i) =>
      (Plus(wd, word, add),
       if Differ(c.exp, word, mask) != Word(0) then c.(pc := Done, errCnt := i)
       else c.(pc := if i < 8 then Add(i + 1) else if wd.Narrow? then Check(TIMEOUT) else Done,
               exp := Plus(wd, c.exp, add), expFull := Plus(wd, c.expFull, FullAdd(wd))))
    case Check(tout) =>
      (word,
       if word == c.expFull then c.(pc := Done)
       else if tout <= 1 then c.(pc := Done, errCnt := c.errCnt + 0x100)
       else c.(pc := Check(tout - 1)))
    case Done => (word, c)
  }

  ghost predicate Shaped(st: State) {
    && (forall k | 0 <= k < |st.cores| :: st.cores[k].cpuId < 4)
    && (forall j, k | 0 <= j < k < |st.cores| :: st.cores[j].cpuId != st.cores[k].cpuId)
  }

  ghost function Step(wd: Width, st: State, k: nat): State
    requires Shaped(st)
  {
    if k >= |st.cores| then st
    else
      var a := Act(wd, st.cores[k], st.word);
      State(a.0, st.cores[k := a.1])
  }

  // ----- lanes under the operations

  function Lane(wd: Width, w: Word, k: nat): Word
    requires k < 4
  {
    Masked(w, LaneMask(wd, k))
  }

  /** An addition to a lane that is not all ones stays in it. */
  ghost predicate StaysIn(wd: Width, w: Word, k: nat)
    requires k < 4
  {
    var w' := Plus(wd, w, One(wd, k));
    && Lane(wd, w', k) == Plus(wd, Lane(wd, w, k), One(wd, k))
    && (k != 0 ==> Lane(wd, w', 0) == Lane(wd, w, 0)) && (k != 1 ==> Lane(wd, w', 1) == Lane(wd, w, 1))
    && (k != 2 ==> Lane(wd, w', 2) == Lane(wd, w, 2)) && (k != 3 ==> Lane(wd, w', 3) == Lane(wd, w, 3))
  }

  lemma {:induction false} Wide0(w: Word)
    requires Masked(w, Word(0xFFFF)) != Word(0xFFFF)
    ensures Masked(Sum64(w, Word(0x1)), Word(0xFFFF)) == Sum64(Masked(w, Word(0xFFFF)), Word(0x1))
    ensures Masked(Sum64(w, Word(0x1)), Word(0xFFFF0000)) == Masked(w, Word(0xFFFF0000))
    ensures Masked(Sum64(w, Word(0x1)), Word(0xFFFF00000000)) == Masked(w, Word(0xFFFF00000000))
    ensures Masked(Sum64(w, Word(0x1)), Word(0xFFFF000000000000)) == Masked(w, Word(0xFFFF000000000000))
  {}

  lemma {:induction false} Wide1(w: Word)
    requires Masked(w, Word(0xFFFF0000)) != Word(0xFFFF0000)
    ensures Masked(Sum64(w, Word(0x10000)), Word(0xFFFF0000)) == Sum64(Masked(w, Word(0xFFFF0000)), Word(0x10000))
    ensures Masked(Sum64(w, Word(0x10000)), Word(0xFFFF)) == Masked(w, Word(0xFFFF))
    ensures Masked(Sum64(w, Word(0x10000)), Word(0xFFFF00000000)) == Masked(w, Word(0xFFFF00000000))
    ensures Masked(Sum64(w, Word(0x10000)), Word(0xFFFF000000000000)) == Masked(w, Word(0xFFFF000000000000))
  {}

  lemma {:induction false} Wide2(w: Word)
    requires Masked(w, Word(0xFFFF00000000)) != Word(0xFFFF00000000)
    ensures Masked(Sum64(w, Word(0x100000000)), Word(0xFFFF00000000)) ==
            Sum64(Masked(w, Word(0xFFFF00000000)), Word(0x100000000))
    ensures Masked(Sum64(w, Word(0x100000000)), Word(0xFFFF)) == Masked(w, Word(0xFFFF))
    ensures Masked(Sum64(w, Word(0x100000000)), Word(0xFFFF0000)) == Masked(w, Word(0xFFFF0000))
    ensures Masked(Sum64(w, Word(0x100000000)), Word(0xFFFF000000000000)) == Masked(w, Word(0xFFFF000000000000))
  {}

  lemma {:induction false} Wide3(w: Word)
    requires Masked(w, Word(0xFFFF000000000000)) != Word(0xFFFF000000000000)
    ensures Masked(Sum64(w, Word(0x1000000000000)), Word(0xFFFF000000000000)) ==
            Sum64(Masked(w, Word(0xFFFF000000000000)), Word(0x1000000000000))
    ensures Masked(Sum64(w, Word(0x1000000000000)), Word(0xFFFF)) == Masked(w, Word(0xFFFF))
    ensures Masked(Sum64(w, Word(0x1000000000000)), Word(0xFFFF0000)) == Masked(w, Word(0xFFFF0000))
    ensures Masked(Sum64(w, Word(0x1000000000000)), Word(0xFFFF00000000)) == Masked(w, Word(0xFFFF00000000))
  {}

  lemma {:induction false} Narrow0(w: Word)
    requires Masked(w, Word(0xFF)) != Word(0xFF)
    ensures Masked(Sum32(w, Word(0x1)), Word(0xFF)) == Sum32(Masked(w, Word(0xFF)), Word(0x1))
    ensures Masked(Sum32(w, Word(0x1)), Word(0xFF00)) == Masked(w, Word(0xFF00))
    ensures Masked(Sum32(w, Word(0x1)), Word(0xFF0000)) == Masked(w, Word(0xFF0000))
    ensures Masked(Sum32(w, Word(0x1)), Word(0xFF000000)) == Masked(w, Word(0xFF000000))
  {}

  lemma {:induction false} Narrow1(w: Word)
    requires Masked(w, Word(0xFF00)) != Word(0xFF00)
    ensures Masked(Sum32(w, Word(0x100)), Word(0xFF00)) == Sum32(Masked(w, Word(0xFF00)), Word(0x100))
    ensures Masked(Sum32(w, Word(0x100)), Word(0xFF)) == Masked(w, Word(0xFF))
    ensures Masked(Sum32(w, Word(0x100)), Word(0xFF0000)) == Masked(w, Word(0xFF0000))
    ensures Masked(Sum32(w, Word(0x100)), Word(0xFF000000)) == Masked(w, Word(0xFF000000))
  {}

  lemma {:induction false} Narrow2(w: Word)
    requires Masked(w, Word(0xFF0000)) != Word(0xFF0000)
    ensures Masked(Sum32(w, Word(0x10000)), Word(0xFF0000)) == Sum32(Masked(w, Word(0xFF0000)), Word(0x10000))
    ensures Masked(Sum32(w, Word(0x10000)), Word(0xFF)) == Masked(w, Word(0xFF))
    ensures Masked(Sum32(w, Word(0x10000)), Word(0xFF00)) == Masked(w, Word(0xFF00))
    ensures Masked(Sum32(w, Word(0x10000)), Word(0xFF000000)) == Masked(w, Word(0xFF000000))
  {}

  lemma {:induction false} Narrow3(w: Word)
    requires Masked(w, Word(0xFF000000)) != Word(0xFF000000)
    ensures Masked(Sum32(w, Word(0x1000000)), Word(0xFF000000)) == Sum32(Masked(w, Word(0xFF000000)), Word(0x1000000))
    ensures Masked(Sum32(w, Word(0x1000000)), Word(0xFF)) == Masked(w, Word(0xFF))
    ensures Masked(Sum32(w, Word(0x1000000)), Word(0xFF00)) == Masked(w, Word(0xFF00))
    ensures Masked(Sum32(w, Word(0x1000000)), Word(0xFF0000)) == Masked(w, Word(0xFF0000))
  {}

  lemma {:induction false} AddStays(wd: Width, w: Word, k: nat)
    requires k < 4 && Lane(wd, w, k) != LaneMask(wd, k)
    ensures StaysIn(wd, w, k)
  {
    hide Masked, Sum64, Sum32;
    if wd.Wide? {
      if k == 0 { Wide0(w); } else if k == 1 { Wide1(w); } else if k == 2 { Wide2(w); } else { Wide3(w); }
    } else {
      if k == 0 { Narrow0(w); } else if k == 1 { Narrow1(w); } else if k == 2 { Narrow2(w); } else { Narrow3(w); }
    }
  }

  lemma {:induction false} ClearedLanes(wd: Width, w: Word, k: nat, j: nat)
    requires k < 4 && j < 4
    ensures Lane(wd, Cleared(w, LaneMask(wd, k)), j) == if j == k then Word(0) else Lane(wd, w, j)
  {
    var m, n := LaneMask(wd, k), LaneMask(wd, j);
    if j != k {
      MasksApart(wd, k, j);
    }
    assert Lane(wd, Cleared(w, m), j) == Masked(Cleared(w, m), n) && Lane(wd, w, j) == Masked(w, n);
    hide *;
    if j != k {
      ClearedUnder(w, m, n);
    } else {
      ClearedItself(w, m);
    }
  }

  lemma {:induction false} MasksApart(wd: Width, k: nat, j: nat)
    requires k < 4 && j < 4 && k != j
    ensures Masked(LaneMask(wd, k), LaneMask(wd, j)) == Word(0)
  {}

  lemma {:induction false} ClearedUnder(w: Word, m: Word, n: Word)
    requires Masked(m, n) == Word(0)
    ensures Masked(Cleared(w, m), n) == Masked(w, n)
  {}

  lemma {:induction false} ClearedItself(w: Word, m: Word)
    ensures Masked(Cleared(w, m), m) == Word(0)
  {}

  // ----- the counter values

  /** After n additions to a cleared lane. */
  function Count(wd: Width, k: nat, n: nat): Word
    requires k < 4
  {
    if n == 0 then Word(0) else Plus(wd, Count(wd, k, n - 1), One(wd, k))
  }

  function Placed(wd: Width, k: nat, t: bv64): Word
    requires k < 4
  {
    if wd.Wide? then
      Word(if k == 0 then t else if k == 1 then t << 16 else if k == 2 then t << 32 else t << 48)
    else
      Word(if k == 0 then t else if k == 1 then t << 8 else if k == 2 then t << 16 else t << 24)
  }

  lemma {:induction false} PlacedNext(wd: Width, k: nat, t: bv64)
    requires k < 4 && t < 8
    ensures Plus(wd, Placed(wd, k, t), One(wd, k)) == Placed(wd, k, t + 1)
  {}

  lemma {:induction false} PlacedSmall(wd: Width, k: nat, t: bv64)
    requires k < 4 && t < 8
    ensures Placed(wd, k, t) != LaneMask(wd, k)
  {}

  function Tally(n: nat): bv64 {
    if n == 0 then 0 else if n == 1 then 1 else if n == 2 then 2 else if n == 3 then 3
    else if n == 4 then 4 else if n == 5 then 5 else if n == 6 then 6 else if n == 7 then 7 else 8
  }

  lemma {:induction false} TallyNext(n: nat)
    requires n < 8
    ensures Tally(n) < 8 && Tally(n + 1) == Tally(n) + 1
  {}

  lemma {:induction false} CountIs(wd: Width, k: nat, n: nat)
    requires k < 4 && n <= 8
    ensures Count(wd, k, n) == Placed(wd, k, Tally(n))
  {
    if n == 0 {
      assert Placed(wd, k, 0) == Word(0) && Tally(0) == 0;
    } else {
      assert Count(wd, k, n) == Plus(wd, Count(wd, k, n - 1), One(wd, k));
      hide *;
      CountIs(wd, k, n - 1);
      TallyNext(n - 1);
      PlacedNext(wd, k, Tally(n - 1));
    }
  }

  /** A lane counts to eight without reaching its end. */
  lemma {:induction false} CountSmall(wd: Width, k: nat, n: nat)
    requires k < 4 && n < 8
    ensures Count(wd, k, n) != LaneMask(wd, k) && Count(wd, k, n + 1) == Plus(wd, Count(wd, k, n), One(wd, k))
  {
    assert Count(wd, k, n + 1) == Plus(wd, Count(wd, k, n), One(wd, k));
    hide *;
    CountIs(wd, k, n);
    TallyNext(n);
    PlacedSmall(wd, k, Tally(n));
  }

  /** n in every lane. */
  function FullCount(wd: Width, n: nat): Word {
    if n == 0 then Word(0) else Plus(wd, FullCount(wd, n - 1), FullAdd(wd))
  }

  function AllLanes(n: nat): Word {
    Word(if n == 0 then 0 else if n == 1 then 0x1010101 else if n == 2 then 0x2020202
         else if n == 3 then 0x3030303 else if n == 4 then 0x4040404 else if n == 5 then 0x5050505
         else if n == 6 then 0x6060606 else if n == 7 then 0x7070707 else 0x8080808)
  }

  lemma {:induction false} AllLanesNext(n: nat)
    requires n < 8
    ensures Plus(Narrow, AllLanes(n), FullAdd(Narrow)) == AllLanes(n + 1)
  {}

  lemma {:induction false} FullCountIs(n: nat)
    requires n <= 8
    ensures FullCount(Narrow, n) == AllLanes(n)
  {
    if n == 0 {
      assert AllLanes(0) == Word(0);
    } else {
      assert FullCount(Narrow, n) == Plus(Narrow, FullCount(Narrow, n - 1), FullAdd(Narrow));
      hide *;
      FullCountIs(n - 1);
      AllLanesNext(n - 1);
    }
  }

  lemma {:induction false} EightLane(k: nat)
    requires k < 4
    ensures Lane(Narrow, Word(0x0808_0808), k) == Placed(Narrow, k, 8)
  {}

  ghost predicate Fits(wd: Width, w: Word) {
    wd.Narrow? ==> Masked(w, Word(0xFFFF_FFFF)) == w
  }

  /** A 32-bit word with eight in every lane is the word the cores wait for, and no other is. */
  lemma {:induction false} FullMeansEight(w: Word)
    requires Fits(Narrow, w)
    ensures w == FullCount(Narrow, 8) <==>
            Lane(Narrow, w, 0) == Count(Narrow, 0, 8) && Lane(Narrow, w, 1) == Count(Narrow, 1, 8)
            && Lane(Narrow, w, 2) == Count(Narrow, 2, 8) && Lane(Narrow, w, 3) == Count(Narrow, 3, 8)
  {
    FullCountIs(8);
    assert AllLanes(8) == Word(0x0808_0808);
    assert Masked(w, Word(0xFFFF_FFFF)) == w;
    hide *;
    CountEight(0);
    CountEight(1);
    CountEight(2);
    CountEight(3);
    if Lane(Narrow, w, 0) == Placed(Narrow, 0, 8) && Lane(Narrow, w, 1) == Placed(Narrow, 1, 8)
       && Lane(Narrow, w, 2) == Placed(Narrow, 2, 8) && Lane(Narrow, w, 3) == Placed(Narrow, 3, 8) {
      EightInAll(w);
    }
  }

  lemma {:induction false} CountEight(k: nat)
    requires k < 4
    ensures Count(Narrow, k, 8) == Placed(Narrow, k, 8) == Lane(Narrow, Word(0x0808_0808), k)
  {
    assert Tally(8) == 8;
    hide *;
    CountIs(Narrow, k, 8);
    EightLane(k);
  }

  lemma {:induction false} EightInAll(w: Word)
    requires Masked(w, Word(0xFFFF_FFFF)) == w
    requires Lane(Narrow, w, 0) == Placed(Narrow, 0, 8) && Lane(Narrow, w, 1) == Placed(Narrow, 1, 8)
    requires Lane(Narrow, w, 2) == Placed(Narrow, 2, 8) && Lane(Narrow, w, 3) == Placed(Narrow, 3, 8)
    ensures w == Word(0x0808_0808)
  {}

  lemma {:induction false} SumFits(wd: Width, w: Word, x: Word)
    ensures Fits(wd, Plus(wd, w, x))
  {}

  lemma {:induction false} RawClearFits(w: bv64, x: bv64)
    requires w & 0xFFFF_FFFF == w
    ensures (w & !x) & 0xFFFF_FFFF == w & !x
  {}

  lemma {:induction false} ClearFits32(w: Word, x: Word)
    requires Masked(w, Word(0xFFFF_FFFF)) == w
    ensures Masked(Cleared(w, x), Word(0xFFFF_FFFF)) == Cleared(w, x)
  {
    RawClearFits(w.bits, x.bits);
  }

  lemma {:induction false} ClearFits(wd: Width, w: Word, x: Word)
    requires Fits(wd, w)
    ensures Fits(wd, Cleared(w, x))
  {
    if wd.Narrow? {
      ClearFits32(w, x);
    }
    hide Cleared, Masked;
  }

  // ----- the invariant

  /** A core and the lane that is its own. */
  ghost predicate OnCourse(wd: Width, c: Core, word: Word) {
    && c.cpuId < 4
    && match c.pc
       case Clear => c.errCnt == 0
       case Add(i) =>
         && 1 <= i <= 8 && c.errCnt == 0 && c.exp == Count(wd, c.cpuId, i - 1) && c.expFull == FullCount(wd, i - 1)
         && Lane(wd, word, c.cpuId) == Count(wd, c.cpuId, i - 1)
       case Check(_) =>
         && wd.Narrow? && c.errCnt == 0 && c.expFull == FullCount(wd, 8)
         && Lane(wd, word, c.cpuId) == Count(wd, c.cpuId, 8)
       case Done =>
         (c.errCnt == 0 || (wd.Narrow? && c.errCnt == 0x100)) && Lane(wd, word, c.cpuId) == Count(wd, c.cpuId, 8)
  }

  ghost predicate Inv(wd: Width, st: State) {
    Shaped(st) && Fits(wd, st.word) && forall k | 0 <= k < |st.cores| :: OnCourse(wd, st.cores[k], st.word)
  }

  /** An operation of a core changes no lane but its own. */
  lemma {:induction false} OtherLanes(wd: Width, c: Core, word: Word, j: nat)
    requires OnCourse(wd, c, word) && j < 4 && j != c.cpuId
    ensures Lane(wd, Act(wd, c, word).0, j) == Lane(wd, word, j)
  {
    var k := c.cpuId;
    hide Lane, Plus, Cleared, LaneMask, One, Count, FullCount, Differ;
    if c.pc.Clear? {
      ClearedLanes(wd, word, k, j);
    } else if c.pc.Add? {
      CountSmall(wd, k, c.pc.i - 1);
      AddStays(wd, word, k);
    }
  }

  /** A core finds in its lane what it expects. */
  lemma {:induction false} NoMismatch(wd: Width, c: Core, word: Word)
    requires OnCourse(wd, c, word) && c.pc.Add?
    ensures Differ(c.exp, word, LaneMask(wd, c.cpuId)) == Word(0)
  {
    var m := LaneMask(wd, c.cpuId);
    assert c.exp == Masked(word, m);
    hide *;
    MaskedTwice(word, m);
    DifferUnder(c.exp, word, m);
  }

  lemma {:induction false} ClearOnCourse(wd: Width, c: Core, word: Word)
    requires c.cpuId < 4 && c.pc.Clear? && Fits(wd, word)
    ensures var a := Act(wd, c, word); Fits(wd, a.0) && OnCourse(wd, a.1, a.0) && a.1.cpuId == c.cpuId
  {
    var k := c.cpuId;
    assert Count(wd, k, 0) == Word(0) == FullCount(wd, 0);
    hide Lane, Plus, Cleared, LaneMask, One, Count, FullCount, Differ, Fits, FullAdd;
    ClearedLanes(wd, word, k, k);
    ClearFits(wd, word, LaneMask(wd, k));
  }

  lemma {:induction false} AddActs(wd: Width, c: Core, word: Word)
    requires OnCourse(wd, c, word) && c.pc.Add?
    ensures Act(wd, c, word) ==
            (Plus(wd, word, One(wd, c.cpuId)),
             c.(pc := if c.pc.i < 8 then Add(c.pc.i + 1) else if wd.Narrow? then Check(TIMEOUT) else Done,
                exp := Count(wd, c.cpuId, c.pc.i), expFull := FullCount(wd, c.pc.i)))
  {
    assert c.cpuId < 4 && 1 <= c.pc.i <= 8;
    assert c.exp == Count(wd, c.cpuId, c.pc.i - 1) && c.expFull == FullCount(wd, c.pc.i - 1);
    NoMismatch(wd, c, word);
    hide Lane, Plus, LaneMask, One, Count, FullCount, Differ, FullAdd, OnCourse;
    CountSmall(wd, c.cpuId, c.pc.i - 1);
    FullNext(wd, c.pc.i - 1);
  }

  lemma {:induction false} AddOnCourse(wd: Width, c: Core, word: Word)
    requires OnCourse(wd, c, word) && c.pc.Add?
    ensures var a := Act(wd, c, word); Fits(wd, a.0) && OnCourse(wd, a.1, a.0) && a.1.cpuId == c.cpuId
  {
    var k, i := c.cpuId, c.pc.i;
    assert k < 4 && 1 <= i <= 8 && c.errCnt == 0 && Lane(wd, word, k) == Count(wd, k, i - 1);
    AddActs(wd, c, word);
    hide Act, Lane, Plus, LaneMask, One, Count, FullCount, Fits;
    CountSmall(wd, k, i - 1);
    AddStays(wd, word, k);
    SumFits(wd, word, One(wd, k));
  }

  /** A core's own operation keeps it on course. */
  lemma {:induction false} ActOnCourse(wd: Width, c: Core, word: Word)
    requires OnCourse(wd, c, word) && Fits(wd, word)
    ensures Fits(wd, Act(wd, c, word).0) && OnCourse(wd, Act(wd, c, word).1, Act(wd, c, word).0)
    ensures Act(wd, c, word).1.cpuId == c.cpuId
  {
    hide Lane, Plus, Cleared, LaneMask, One, Count, FullCount, Differ, Fits, FullAdd;
    if c.pc.Clear? {
      ClearOnCourse(wd, c, word);
    } else if c.pc.Add? {
      AddOnCourse(wd, c, word);
    }
  }

  lemma {:induction false} FullNext(wd: Width, n: nat)
    ensures FullCount(wd, n + 1) == Plus(wd, FullCount(wd, n), FullAdd(wd))
  {
    hide Plus, FullAdd;
  }

  lemma {:induction false} StepPreserves(wd: Width, st: State, k: nat)
    requires Inv(wd, st)
    ensures Inv(wd, Step(wd, st, k)) && |Step(wd, st, k).cores| == |st.cores|
  {
    if k < |st.cores| {
      var c, st' := st.cores[k], Step(wd, st, k);
      var a := Act(wd, c, st.word);
      assert OnCourse(wd, c, st.word) && st' == State(a.0, st.cores[k := a.1]);
      ActOnCourse(wd, c, st.word);
      hide Act, Fits, Step;
      forall j | 0 <= j < |st.cores|
        ensures OnCourse(wd, st'.cores[j], st'.word)
      {
        if j != k {
          assert OnCourse(wd, st.cores[j], st.word) && st.cores[j].cpuId != c.cpuId;
          OtherLanes(wd, c, st.word, st.cores[j].cpuId);
          hide Lane, Count, FullCount;
        }
      }
      hide OnCourse;
    }
  }

  // ----- runs

  ghost predicate Participants(ids: seq<nat>) {
    (forall k | 0 <= k < |ids| :: ids[k] < 4) && forall j, k | 0 <= j < k < |ids| :: ids[j] != ids[k]
  }

  function Initial(word: Word, ids: seq<nat>): State {
    State(word, seq(|ids|, k requires 0 <= k < |ids| => Core(ids[k], Clear, Word(0), Word(0), 0)))
  }

  /** From any initial word, after any interleaving of atomic operations. */
  ghost function Reached(wd: Width, word: Word, ids: seq<nat>, steps: seq<nat>): (st: State)
    requires Participants(ids) && Fits(wd, word)
    ensures Inv(wd, st) && |st.cores| == |ids|
  {
    if steps == [] then Initial(word, ids)
    else
      var before := Reached(wd, word, ids, steps[..|steps| - 1]);
      StepPreserves(wd, before, steps[|steps| - 1]);
      Step(wd, before, steps[|steps| - 1])
  }

  lemma {:induction false} Same(wd: Width, word: Word, ids: seq<nat>, steps: seq<nat>, k: nat)
    requires Participants(ids) && Fits(wd, word) && k < |ids|
    ensures Reached(wd, word, ids, steps).cores[k].cpuId == ids[k]
  {
    if steps != [] {
      var before, j := steps[..|steps| - 1], steps[|steps| - 1];
      Same(wd, word, ids, before, k);
      var st := Reached(wd, word, ids, before);
      assert Reached(wd, word, ids, steps) == Step(wd, st, j);
      if j < |ids| {
        assert OnCourse(wd, st.cores[j], st.word);
        ActOnCourse(wd, st.cores[j], st.word);
      }
      hide Act, Inv, Reached, OnCourse, Fits;
    }
  }

  /**
   In every interleaving, from any initial word: no core sees a mismatch in its lane, so the 64-bit test never
   fails and the 32-bit test can fail only by its final wait; a core that has made its additions has eight in
   its lane, and it stays there.
   */
  lemma {:induction false} LanesCountExactly(wd: Width, word: Word, ids: seq<nat>, steps: seq<nat>, k: nat)
    requires Participants(ids) && Fits(wd, word) && k < |ids|
    ensures var st := Reached(wd, word, ids, steps);
            var c := st.cores[k];
            && c.cpuId == ids[k]
            && (wd.Wide? ==> c.errCnt == 0) && (wd.Narrow? ==> c.errCnt == 0 || (c.errCnt == 0x100 && c.pc.Done?))
            && (c.pc.Add? ==> Lane(wd, st.word, ids[k]) == Count(wd, ids[k], c.pc.i - 1))
            && (c.pc.Check? || c.pc.Done? ==> Lane(wd, st.word, ids[k]) == Count(wd, ids[k], 8))
  {
    var st := Reached(wd, word, ids, steps);
    Same(wd, word, ids, steps, k);
    assert OnCourse(wd, st.cores[k], st.word);
    hide Reached, Inv, Lane, Count, FullCount;
  }

  /** The lanes of cores that take no part keep their initial bits. */
  lemma {:induction false} ForeignLanesUntouched(wd: Width, word: Word, ids: seq<nat>, steps: seq<nat>, j: nat)
    requires Participants(ids) && Fits(wd, word) && j < 4 && j !in ids
    ensures Lane(wd, Reached(wd, word, ids, steps).word, j) == Lane(wd, word, j)
  {
    if steps != [] {
      var before, k := steps[..|steps| - 1], steps[|steps| - 1];
      ForeignLanesUntouched(wd, word, ids, before, j);
      var st := Reached(wd, word, ids, before);
      assert Reached(wd, word, ids, steps) == Step(wd, st, k);
      if k < |ids| {
        Same(wd, word, ids, before, k);
        assert OnCourse(wd, st.cores[k], st.word);
        OtherLanes(wd, st.cores[k], st.word, j);
      }
      hide Act, Inv, Reached, OnCourse, Lane, Fits;
    }
  }

  // ----- the final wait of the 32-bit test

  ghost predicate EightIn(w: Word, j: nat)
    requires j < 4
  {
    Lane(Narrow, w, j) == Count(Narrow, j, 8)
  }

  /** Every lane without a core of its own holds eight. */
  ghost predicate OthersHoldEight(word: Word, ids: seq<nat>) {
    forall j: nat | j < 4 && j !in ids :: EightIn(word, j)
  }

  /** The core has ended its test without error. */
  ghost predicate Succeeds(word: Word, ids: seq<nat>, steps: seq<nat>, k: nat)
    requires Participants(ids) && Fits(Narrow, word) && k < |ids|
  {
    var c := Reached(Narrow, word, ids, steps).cores[k]; c.pc.Done? && c.errCnt == 0
  }

  /** A read of the wait finds the full count exactly when all four lanes hold eight. */
  lemma {:induction false} ReadFindsEight(c: Core, word: Word)
    requires OnCourse(Narrow, c, word) && Fits(Narrow, word) && c.pc.Check?
    ensures word == c.expFull <==> EightIn(word, 0) && EightIn(word, 1) && EightIn(word, 2) && EightIn(word, 3)
  {
    assert c.expFull == FullCount(Narrow, 8);
    EightIs(word);
    hide *;
    FullMeansEight(word);
  }

  lemma {:induction false} EightIs(w: Word)
    ensures EightIn(w, 0) <==> Lane(Narrow, w, 0) == Count(Narrow, 0, 8)
    ensures EightIn(w, 1) <==> Lane(Narrow, w, 1) == Count(Narrow, 1, 8)
    ensures EightIn(w, 2) <==> Lane(Narrow, w, 2) == Count(Narrow, 2, 8)
    ensures EightIn(w, 3) <==> Lane(Narrow, w, 3) == Count(Narrow, 3, 8)
  {
    hide Lane, Count;
  }

  lemma {:induction false} ReachedNext(word: Word, ids: seq<nat>, steps: seq<nat>, k: nat)
    requires Participants(ids) && Fits(Narrow, word)
    ensures Reached(Narrow, word, ids, steps + [k]) == Step(Narrow, Reached(Narrow, word, ids, steps), k)
  {
    assert (steps + [k])[..|steps|] == steps;
    hide Participants, Fits, Inv, Step;
  }

  /** An operation ends a test without error only by a read that finds eight in all lanes. */
  lemma {:induction false} EndsByRead(c: Core, word: Word, j: nat)
    requires OnCourse(Narrow, c, word) && Fits(Narrow, word) && j < 4 && !EightIn(word, j)
    requires !(c.pc.Done? && c.errCnt == 0)
    ensures var d := Act(Narrow, c, word).1; !(d.pc.Done? && d.errCnt == 0)
  {
    if c.pc.Check? {
      ReadFindsEight(c, word);
    } else if c.pc.Add? {
      AddActs(Narrow, c, word);
    }
    hide EightIn, Count, FullCount, Lane, Differ, Plus, Cleared, LaneMask, One, FullAdd, Fits;
  }

  /** A lane that is nobody's and not eight: no core ever succeeds. */
  lemma {:induction false} NoneSucceeds(word: Word, ids: seq<nat>, steps: seq<nat>, j: nat, k: nat)
    requires Participants(ids) && Fits(Narrow, word) && j < 4 && j !in ids && !EightIn(word, j) && k < |ids|
    ensures !Succeeds(word, ids, steps, k)
  {
    if steps != [] {
      var before, i := steps[..|steps| - 1], steps[|steps| - 1];
      NoneSucceeds(word, ids, before, j, k);
      assert steps == before + [i];
      ReachedNext(word, ids, before, i);
      var st := Reached(Narrow, word, ids, before);
      ForeignLanesUntouched(Narrow, word, ids, before, j);
      assert OnCourse(Narrow, st.cores[k], st.word) && Fits(Narrow, st.word);
      hide Act, Reached, Inv, OnCourse, Lane, Fits, Count;
      if i == k {
        EndsByRead(st.cores[k], st.word, j);
      }
    }
  }

  // ----- one core after the other

  /** Where core k stands after m steps of the first round: nine steps each. */
  function PcAt(k: nat, m: nat): Pc {
    if m <= 9 * k then Clear else if m < 9 * k + 9 then Add(m - 9 * k) else Check(TIMEOUT)
  }

  function FirstRound(m: nat): seq<nat> {
    seq(m, i requires 0 <= i < m => i / 9)
  }

  ghost predicate Stands(st: State, m: nat) {
    forall k | 0 <= k < |st.cores| :: st.cores[k].pc == PcAt(k, m)
  }

  lemma {:induction false} NextPc(c: Core, word: Word, k: nat, m: nat)
    requires OnCourse(Narrow, c, word) && c.pc == PcAt(k, m) && 9 * k <= m < 9 * k + 9
    ensures Act(Narrow, c, word).1.pc == PcAt(k, m + 1)
  {
    if c.pc.Add? {
      AddActs(Narrow, c, word);
    }
    hide Count, FullCount, Lane, Differ, Plus, Cleared, LaneMask, One, FullAdd;
  }

  lemma {:induction false} FirstRoundStep(st: State, m: nat)
    requires Inv(Narrow, st) && Stands(st, m) && m < 9 * |st.cores|
    ensures Stands(Step(Narrow, st, m / 9), m + 1)
  {
    var k := m / 9;
    assert OnCourse(Narrow, st.cores[k], st.word);
    NextPc(st.cores[k], st.word, k, m);
    hide Act, OnCourse, Fits;
  }

  lemma {:induction false} FirstRoundRuns(word: Word, ids: seq<nat>, m: nat)
    requires Participants(ids) && Fits(Narrow, word) && m <= 9 * |ids|
    ensures Stands(Reached(Narrow, word, ids, FirstRound(m)), m)
  {
    if m == 0 {
      assert FirstRound(0) == [];
    } else {
      FirstRoundRuns(word, ids, m - 1);
      assert FirstRound(m) == FirstRound(m - 1) + [(m - 1) / 9];
      hide Stands, Step, Inv, FirstRound, Reached;
      ReachedNext(word, ids, FirstRound(m - 1), (m - 1) / 9);
      FirstRoundStep(Reached(Narrow, word, ids, FirstRound(m - 1)), m - 1);
    }
  }

  function SecondRound(n: nat, m: nat): seq<nat> {
    FirstRound(9 * n) + seq(m, i requires 0 <= i < m => i)
  }

  /** All lanes hold eight; the first m cores have found that, the others are about to read. */
  ghost predicate Found(st: State, m: nat) {
    && (forall j | 0 <= j < 4 :: EightIn(st.word, j))
    && forall k | 0 <= k < |st.cores| ::
         if k < m then st.cores[k].pc.Done? && st.cores[k].errCnt == 0 else st.cores[k].pc.Check?
  }

  lemma {:induction false} ReadActs(c: Core, word: Word)
    requires OnCourse(Narrow, c, word) && c.pc.Check? && word == c.expFull
    ensures Act(Narrow, c, word) == (word, c.(pc := Done)) && c.errCnt == 0
  {
    hide Count, FullCount, Lane;
  }

  lemma {:induction false} SecondRoundStep(st: State, m: nat)
    requires Inv(Narrow, st) && Found(st, m) && m < |st.cores|
    ensures Found(Step(Narrow, st, m), m + 1)
  {
    assert OnCourse(Narrow, st.cores[m], st.word) && EightIn(st.word, 0) && EightIn(st.word, 1);
    assert EightIn(st.word, 2) && EightIn(st.word, 3);
    hide EightIn, Fits, Act, OnCourse, Shaped;
    ReadFindsEight(st.cores[m], st.word);
    ReadActs(st.cores[m], st.word);
  }

  lemma {:induction false} FirstRoundFound(word: Word, ids: seq<nat>)
    requires Participants(ids) && Fits(Narrow, word) && OthersHoldEight(word, ids)
    ensures Found(Reached(Narrow, word, ids, FirstRound(9 * |ids|)), 0)
  {
    var steps := FirstRound(9 * |ids|);
    var st := Reached(Narrow, word, ids, steps);
    FirstRoundRuns(word, ids, 9 * |ids|);
    assert forall k | 0 <= k < |ids| :: st.cores[k].pc == PcAt(k, 9 * |ids|) == Check(TIMEOUT);
    forall j | 0 <= j < 4
      ensures EightIn(st.word, j)
    {
      if j in ids {
        var k :| 0 <= k < |ids| && ids[k] == j;
        LanesCountExactly(Narrow, word, ids, steps, k);
      } else {
        assert EightIn(word, j);
        ForeignLanesUntouched(Narrow, word, ids, steps, j);
      }
      hide Lane, Count, Fits, Inv, Reached, FirstRound;
    }
    hide EightIn, Fits, Inv, Reached, FirstRound;
  }

  lemma {:induction false} SecondRoundRuns(word: Word, ids: seq<nat>, m: nat)
    requires Participants(ids) && Fits(Narrow, word) && OthersHoldEight(word, ids) && m <= |ids|
    ensures Found(Reached(Narrow, word, ids, SecondRound(|ids|, m)), m)
  {
    if m == 0 {
      assert SecondRound(|ids|, 0) == FirstRound(9 * |ids|);
      FirstRoundFound(word, ids);
    } else {
      SecondRoundRuns(word, ids, m - 1);
      assert SecondRound(|ids|, m) == SecondRound(|ids|, m - 1) + [m - 1];
      hide Found, Step, Inv, SecondRound, Reached, OthersHoldEight;
      ReachedNext(word, ids, SecondRound(|ids|, m - 1), m - 1);
      SecondRoundStep(Reached(Narrow, word, ids, SecondRound(|ids|, m - 1)), m - 1);
    }
  }

  /** One core after the other, then one read each: if the other lanes hold eight, all succeed. */
  lemma {:induction false} AllCanSucceed(word: Word, ids: seq<nat>) returns (steps: seq<nat>)
    requires Participants(ids) && Fits(Narrow, word) && OthersHoldEight(word, ids)
    ensures forall k | 0 <= k < |ids| :: Succeeds(word, ids, steps, k)
  {
    steps := SecondRound(|ids|, |ids|);
    SecondRoundRuns(word, ids, |ids|);
    hide Reached, SecondRound, Fits, Participants, OthersHoldEight, EightIn;
  }

  /**
   The 32-bit test: some interleaving lets a core end without error if and only if every lane without a core of
   its own holds eight from the start. Otherwise every core that ends reports 0x100, whatever the interleaving.
   */
  lemma {:induction false} WaitSucceedsExactly(word: Word, ids: seq<nat>, k: nat)
    requires Participants(ids) && Fits(Narrow, word) && k < |ids|
    ensures (exists steps: seq<nat> :: Succeeds(word, ids, steps, k)) <==> OthersHoldEight(word, ids)
    ensures !OthersHoldEight(word, ids) ==>
              forall steps: seq<nat> ::
                var c := Reached(Narrow, word, ids, steps).cores[k]; c.pc.Done? ==> c.errCnt == 0x100
  {
    if OthersHoldEight(word, ids) {
      var steps := AllCanSucceed(word, ids);
      assert Succeeds(word, ids, steps, k);
    } else {
      var j: nat :| j < 4 && j !in ids && !EightIn(word, j);
      forall steps: seq<nat>
        ensures !Succeeds(word, ids, steps, k)
        ensures var c := Reached(Narrow, word, ids, steps).cores[k]; c.pc.Done? ==> c.errCnt == 0x100
      {
        NoneSucceeds(word, ids, steps, j, k);
        LanesCountExactly(Narrow, word, ids, steps, k);
      }
    }
    hide Reached, EightIn, Fits, Lane, Count;
  }

  /** Three cores on a word that is zero: none of them ever succeeds. */
  lemma {:induction false} ThreeCoresFail(steps: seq<nat>, k: nat)
    requires k < 3
    ensures Participants([0, 1, 2]) && Fits(Narrow, Word(0))
    ensures var c := Reached(Narrow, Word(0), [0, 1, 2], steps).cores[k]; c.pc.Done? ==> c.errCnt == 0x100
  {
    ZeroIsNotEight();
    assert !OthersHoldEight(Word(0), [0, 1, 2]) by { assert 3 !in [0, 1, 2]; }
    assert Fits(Narrow, Word(0)) by { ZeroFits(); }
    hide Reached, Fits, OthersHoldEight, EightIn;
    WaitSucceedsExactly(Word(0), [0, 1, 2], k);
  }

  lemma {:induction false} ZeroFits()
    ensures Fits(Narrow, Word(0))
  {}

  lemma {:induction false} ZeroIsNotEight()
    ensures !EightIn(Word(0), 3)
  {
    CountIs(Narrow, 3, 8);
    assert Tally(8) == 8;
    hide Count;
  }
}
