/**
 The precision-code generators as clocked hardware (section 3.3.2.2 of IS-GPS-200): four
 short-cycled registers with cycle counters, the hold of X1B and X2B at the end of an epoch,
 the 37-chip hold of X2A, and the holds of both X2 registers at the end of the week.
 */
module PCodeWeek {
  import opened Bits
  import opened Lfsr

  /** Cycle lengths, cycles per epoch and epochs per week. */
  datatype Timing = Timing(aPeriod: nat, bPeriod: nat, aLoops: nat, bLoops: nat, epochs: nat)
  {
    function X1Period(): nat { aPeriod * aLoops }
    function X2Period(): nat { X1Period() + 37 }
    function Week(): nat { epochs * X1Period() }
    /** Chips from the start of the last X2 epoch of the week to the end of the week. */
    function LastEpoch(): nat
      requires X2Period() > 0
    {
      Week() % X2Period()
    }

    /** The proportions both sets of constants have. */
    ghost predicate Valid() {
      && aPeriod > 0 && bPeriod > 0 && aLoops > 0 && bLoops > 0 && epochs > 0
      && bPeriod * bLoops <= X1Period()
      && aPeriod <= LastEpoch() <= bPeriod * bLoops
      && LastEpoch() % bPeriod < aPeriod < bPeriod + LastEpoch() % bPeriod + 1
    }
  }

  /** Initial contents and taps of one register. */
  datatype Reg = Reg(init: Stages, taps: set<nat>)

  datatype Regs = Regs(x1a: Reg, x1b: Reg, x2a: Reg, x2b: Reg)

  /** A register in operation: contents, chip within the cycle, completed cycles in the epoch. */
  datatype Gen = Gen(stages: Stages, chip: nat, cycle: nat)

  ghost function Fresh(r: Reg): Gen { Gen(r.init, 0, 0) }

  ghost predicate LastChip(g: Gen, period: nat) { g.chip + 1 == period }

  /** One clock of a short-cycled register. */
  ghost function Advance(g: Gen, r: Reg, period: nat): Gen {
    if LastChip(g, period) then Gen(r.init, 0, g.cycle + 1)
    else Gen(Clock(g.stages, r.taps), g.chip + 1, g.cycle)
  }

  /** Everything that is clocked, plus the epoch counter and the count of held X2A chips. */
  datatype State = State(x1a: Gen, x1b: Gen, x2a: Gen, x2b: Gen, epoch: nat, held: nat)

  ghost function Start(r: Regs): State {
    State(Fresh(r.x1a), Fresh(r.x1b), Fresh(r.x2a), Fresh(r.x2b), 0, 0)
  }

  ghost predicate X1EpochEnds(t: Timing, s: State) {
    LastChip(s.x1a, t.aPeriod) && s.x1a.cycle + 1 == t.aLoops
  }

  /** The last X1A cycle of the week. */
  ghost predicate Closing(t: Timing, s: State) {
    s.epoch + 1 == t.epochs && s.x1a.cycle + 1 == t.aLoops
  }

  ghost function NextX1B(t: Timing, r: Regs, s: State): Gen {
    if LastChip(s.x1b, t.bPeriod) && s.x1b.cycle + 1 == t.bLoops then s.x1b
    else Advance(s.x1b, r.x1b, t.bPeriod)
  }

  ghost function NextX2(t: Timing, g: Gen, r: Reg, period: nat, loops: nat, closing: bool): Gen {
    if LastChip(g, period) && (closing || g.cycle + 1 == loops) then g else Advance(g, r, period)
  }

  /** One chip of time. */
  ghost function Step(t: Timing, r: Regs, s: State): State {
    if X1EpochEnds(t, s) && s.epoch + 1 == t.epochs then
      Start(r)
    else
      var x1a, x1b, epoch :=
        if X1EpochEnds(t, s) then Fresh(r.x1a) else Advance(s.x1a, r.x1a, t.aPeriod),
        if X1EpochEnds(t, s) then Fresh(r.x1b) else NextX1B(t, r, s),
        if X1EpochEnds(t, s) then s.epoch + 1 else s.epoch;
      if s.held == 37 then
        State(x1a, x1b, Fresh(r.x2a), Fresh(r.x2b), epoch, 0)
      else
        var closing := Closing(t, s);
        var atEnd := LastChip(s.x2a, t.aPeriod) && s.x2a.cycle + 1 == t.aLoops && !closing;
        State(x1a, x1b,
              NextX2(t, s.x2a, r.x2a, t.aPeriod, t.aLoops, closing),
              NextX2(t, s.x2b, r.x2b, t.bPeriod, t.bLoops, closing),
              epoch, if atEnd then s.held + 1 else s.held)
  }

  /** The state n chips after the start of a week. */
  ghost function Run(t: Timing, r: Regs, n: nat): State {
    if n == 0 then Start(r) else Step(t, r, Run(t, r, n - 1))
  }

  ghost function X1Chip(s: State): bool { Output(s.x1a.stages) != Output(s.x1b.stages) }

  ghost function X2Chip(s: State): bool { Output(s.x2a.stages) != Output(s.x2b.stages) }

  // ----- where every register stands, by arithmetic alone

  ghost function At(r: Reg, chip: nat, cycle: nat): Gen { Gen(Clocked(r.init, r.taps, chip), chip, cycle) }

  /** Position u of a register with that period, not held. */
  ghost function Free(r: Reg, period: nat, u: nat): Gen
    requires period > 0
  {
    At(r, Rem(u, period), Quot(u, period))
  }

  /** A register that runs freely below position `limit`, a whole number of cycles, and is held after. */
  ghost function Capped(r: Reg, period: nat, limit: nat, u: nat): Gen
    requires period > 0
  {
    if u < limit then Free(r, period, u) else Free(r, period, if limit > 0 then limit - 1 else 0)
  }

  lemma RemSucc(u: nat, m: nat)
    requires m > 0
    ensures Rem(u, m) < m
    ensures if Rem(u, m) + 1 == m then Rem(u + 1, m) == 0 && Quot(u + 1, m) == Quot(u, m) + 1
            else Rem(u + 1, m) == Rem(u, m) + 1 && Quot(u + 1, m) == Quot(u, m)
  {
    var q, v := u / m, u % m;
    if v + 1 == m {
      assert u + 1 == (q + 1) * m + 0;
      QuotRemUnique(u + 1, m, q + 1, 0);
    } else {
      QuotRemUnique(u + 1, m, q, v + 1);
    }
  }

  /** A free register moves one position per clock. */
  lemma AdvanceFree(r: Reg, period: nat, u: nat)
    requires period > 0
    ensures Advance(Free(r, period, u), r, period) == Free(r, period, u + 1)
  {
    hide Rem, Quot;
    RemSucc(u, period);
  }

  /** The last chip of cycle k - 1 is position k * period - 1. */
  lemma LastChipOfCycle(r: Reg, period: nat, u: nat, k: nat)
    requires period > 0 && k > 0
    ensures LastChip(Free(r, period, u), period) && Free(r, period, u).cycle + 1 == k <==> u + 1 == k * period
  {
    if u + 1 == k * period {
      assert u == (k - 1) * period + (period - 1);
      QuotRemUnique(u, period, k - 1, period - 1);
    }
  }

  /** A register held at the end of cycle k - 1, one clock. */
  lemma CappedStep(r: Reg, period: nat, k: nat, u: nat)
    requires period > 0 && k > 0
    ensures var g := Capped(r, period, k * period, u);
            var next := if LastChip(g, period) && g.cycle + 1 == k then g else Advance(g, r, period);
            Capped(r, period, k * period, u + 1) == next
  {
    hide Rem, Quot, Free;
    MultipleAtLeast(k, period);
    LastChipOfCycle(r, period, u, k);
    LastChipOfCycle(r, period, k * period - 1, k);
    AdvanceFree(r, period, u);
  }

  lemma MultipleAtLeast(k: nat, period: nat)
    requires period > 0 && k > 0
    ensures k * period >= period
  {}

  /** A register held at the first cycle end it meets, given that this is the end of cycle k - 1. */
  lemma ClosingStep(r: Reg, period: nat, k: nat, u: nat)
    requires period > 0 && k > 0 && k * period <= u + period
    ensures var g := Capped(r, period, k * period, u);
            Capped(r, period, k * period, u + 1) == if LastChip(g, period) then g else Advance(g, r, period)
  {
    hide Rem, Quot, Free, Advance;
    CappedStep(r, period, k, u);
    MultipleAtLeast(k, period);
    LastChipOfCycle(r, period, k * period - 1, k);
    if u < k * period {
      LastCycle(r, period, k, u);
    }
  }

  lemma LastCycle(r: Reg, period: nat, k: nat, u: nat)
    requires period > 0 && k > 0 && k * period - period <= u < k * period
    ensures Free(r, period, u).cycle + 1 == k
  {
    assert (k - 1) * period == k * period - period;
    QuotRemUnique(u, period, k - 1, u - (k * period - period));
  }

  // ----- the whole state, by arithmetic

  ghost function X2Limit(period: nat, normal: nat, closing: bool, last: nat): nat
    requires period > 0
  {
    if closing then Quot(last, period) * period else normal
  }

  ghost function Closed(t: Timing, r: Regs, n: nat): State
    requires t.Valid()
  {
    var u, v, e, closing := Rem(n, t.X1Period()), Rem(n, t.X2Period()), t.LastEpoch(), n + t.aPeriod >= t.Week();
    State(Free(r.x1a, t.aPeriod, u),
          Capped(r.x1b, t.bPeriod, t.bLoops * t.bPeriod, u),
          Capped(r.x2a, t.aPeriod, X2Limit(t.aPeriod, t.aLoops * t.aPeriod, closing, e), v),
          Capped(r.x2b, t.bPeriod, X2Limit(t.bPeriod, t.bLoops * t.bPeriod, closing, e), v),
          Quot(n, t.X1Period()),
          if v >= t.X1Period() then v - t.X1Period() + 1 else 0)
  }

  lemma Split(x: nat, m: nat)
    requires m > 0
    ensures Rem(x, m) < m && x == Quot(x, m) * m + Rem(x, m)
  {}

  lemma ValidBasics(t: Timing)
    requires t.Valid()
    ensures t.X1Period() == t.aLoops * t.aPeriod && t.X1Period() >= t.aPeriod && t.X2Period() > 0
    ensures t.Week() >= t.X1Period() && t.Week() == Quot(t.Week(), t.X2Period()) * t.X2Period() + t.LastEpoch()
    ensures t.bPeriod * t.bLoops == t.bLoops * t.bPeriod
  {
    MultipleAtLeast(t.aLoops, t.aPeriod);
    MultipleAtLeast(t.epochs, t.X1Period());
    Split(t.Week(), t.X2Period());
  }

  lemma EpochEndsAt(t: Timing, r: Regs, n: nat)
    requires t.Valid()
    ensures X1EpochEnds(t, Closed(t, r, n)) <==> Rem(n, t.X1Period()) + 1 == t.X1Period()
  {
    ValidBasics(t);
    LastChipOfCycle(r.x1a, t.aPeriod, Rem(n, t.X1Period()), t.aLoops);
    hide Rem, Quot, Free;
  }

  lemma LastCycleFrom(a: nat, loops: nat, u: nat)
    requires a > 0 && loops > 0 && u < loops * a
    ensures Quot(u, a) + 1 == loops <==> u + a >= loops * a
  {
    var q, v := Quot(u, a), Rem(u, a);
    Split(u, a);
    assert (loops - 1) * a == loops * a - a;
    if u + a >= loops * a {
      QuotRemUnique(u, a, loops - 1, u - (loops - 1) * a);
    }
  }

  lemma ClosingAt(t: Timing, r: Regs, n: nat)
    requires t.Valid() && n < t.Week()
    ensures Closing(t, Closed(t, r, n)) <==> n + t.aPeriod >= t.Week()
  {
    var p := t.X1Period();
    var z, u := Quot(n, p), Rem(n, p);
    ValidBasics(t);
    Split(n, p);
    LastCycleFrom(t.aPeriod, t.aLoops, u);
    LastCycleFrom(p, t.epochs, n);
    assert (t.epochs - 1) * p == t.Week() - p;
    hide Rem, Quot;
    assert z + 1 == t.epochs ==> n == t.Week() - p + u;
  }

  /** In the last X1A cycle of the week X2 is in its last epoch, short of the first hold. */
  lemma ClosingPhase(t: Timing, n: nat)
    requires t.Valid() && n <= t.Week() <= n + t.aPeriod
    ensures n < t.Week() ==> Rem(n, t.X2Period()) == t.LastEpoch() - (t.Week() - n)
  {
    ValidBasics(t);
    if n < t.Week() {
      QuotRemUnique(n, t.X2Period(), Quot(t.Week(), t.X2Period()), t.LastEpoch() - (t.Week() - n));
    }
  }

  lemma FreeAtZero(r: Reg, period: nat, limit: nat)
    requires period > 0 && limit > 0
    ensures Free(r, period, 0) == Fresh(r) == Capped(r, period, limit, 0)
  {}

  lemma LastEpochCycles(t: Timing)
    requires t.Valid()
    ensures var e := t.LastEpoch();
            && 0 < Quot(e, t.aPeriod) && 0 < Quot(e, t.bPeriod)
            && e - t.aPeriod < Quot(e, t.aPeriod) * t.aPeriod <= e
            && e - t.aPeriod < Quot(e, t.bPeriod) * t.bPeriod < e - t.aPeriod + t.bPeriod + 1
  {
    RoundDown(t.LastEpoch(), t.aPeriod);
    RoundDown(t.LastEpoch(), t.bPeriod);
  }

  lemma RoundDown(e: nat, m: nat)
    requires m > 0 && e % m < e
    ensures Quot(e, m) > 0 && Quot(e, m) * m == e - e % m
  {}

  lemma StepX1(t: Timing, r: Regs, n: nat)
    requires t.Valid() && n + 1 < t.Week()
    ensures var s, c := Step(t, r, Closed(t, r, n)), Closed(t, r, n + 1);
            s.x1a == c.x1a && s.x1b == c.x1b && s.epoch == c.epoch
  {
    var p, u := t.X1Period(), Rem(n, t.X1Period());
    EpochEndsAt(t, r, n);
    ValidBasics(t);
    RemSucc(n, p);
    Split(n, p);
    FreeAtZero(r.x1a, t.aPeriod, 1);
    MultipleAtLeast(t.bLoops, t.bPeriod);
    FreeAtZero(r.x1b, t.bPeriod, t.bLoops * t.bPeriod);
    AdvanceFree(r.x1a, t.aPeriod, u);
    CappedStep(r.x1b, t.bPeriod, t.bLoops, u);
    EpochAtWeekEnd(t, r, n);
    hide Rem, Quot, Free, Capped, Fresh, Advance, X1EpochEnds, Timing.Valid, Timing.Week;
  }

  lemma CappedBelow(r: Reg, period: nat, limit: nat, other: nat, u: nat)
    requires period > 0 && u < limit && u < other
    ensures Capped(r, period, limit, u) == Capped(r, period, other, u)
  {}

  /** The step into, or inside, the last X1A cycle of the week. */
  lemma StepX2Closing(t: Timing, r: Regs, n: nat)
    requires t.Valid() && n + 1 < t.Week() <= n + t.aPeriod
    ensures var s, c := Step(t, r, Closed(t, r, n)), Closed(t, r, n + 1);
            s.x2a == c.x2a && s.x2b == c.x2b && s.held == c.held
  {
    var e, v := t.LastEpoch(), Rem(n, t.X2Period());
    ValidBasics(t);
    LastEpochCycles(t);
    ClosingAt(t, r, n);
    ClosingPhase(t, n);
    ClosingPhase(t, n + 1);
    ClosingStep(r.x2a, t.aPeriod, Quot(e, t.aPeriod), v);
    ClosingStep(r.x2b, t.bPeriod, Quot(e, t.bPeriod), v);
    EpochAtWeekEnd(t, r, n);
    hide Rem, Quot, Free, Capped, Fresh, Advance, X1EpochEnds, Closing;
  }

  /** The week ends with the last chip of its last epoch. */
  lemma EpochAtWeekEnd(t: Timing, r: Regs, n: nat)
    requires t.Valid() && n < t.Week()
    ensures var s := Closed(t, r, n);
            X1EpochEnds(t, s) && s.epoch + 1 == t.epochs <==> n + 1 == t.Week()
  {
    EpochEndsAt(t, r, n);
    ValidBasics(t);
    LastCell(n, t.X1Period(), t.epochs);
    hide Rem, Quot, X1EpochEnds;
  }

  lemma LastCell(n: nat, p: nat, k: nat)
    requires p > 0 && k > 0
    ensures Rem(n, p) + 1 == p && Quot(n, p) + 1 == k <==> n + 1 == k * p
  {
    Split(n, p);
    if n + 1 == k * p {
      assert (k - 1) * p == k * p - p;
      QuotRemUnique(n, p, k - 1, p - 1);
    }
    hide Rem, Quot;
    assert Quot(n, p) == k - 1 ==> Quot(n, p) * p == (k - 1) * p == k * p - p;
  }

  lemma StepX2(t: Timing, r: Regs, n: nat)
    requires t.Valid() && n + t.aPeriod < t.Week()
    ensures var s, c := Step(t, r, Closed(t, r, n)), Closed(t, r, n + 1);
            s.x2a == c.x2a && s.x2b == c.x2b && s.held == c.held
  {
    var e, v := t.LastEpoch(), Rem(n, t.X2Period());
    ValidBasics(t);
    LastEpochCycles(t);
    ClosingAt(t, r, n);
    RemSucc(n, t.X2Period());
    MultipleAtLeast(t.bLoops, t.bPeriod);
    MultipleAtLeast(t.aLoops, t.aPeriod);
    LastChipOfCycle(r.x2a, t.aPeriod, v, t.aLoops);
    CappedStep(r.x2a, t.aPeriod, t.aLoops, v);
    CappedStep(r.x2b, t.bPeriod, t.bLoops, v);
    LastChipOfCycle(r.x2a, t.aPeriod, t.aLoops * t.aPeriod - 1, t.aLoops);
    EpochAtWeekEnd(t, r, n);
    var la, lb := Quot(e, t.aPeriod) * t.aPeriod, Quot(e, t.bPeriod) * t.bPeriod;
    if n + 1 + t.aPeriod == t.Week() {
      ClosingPhase(t, n + 1);
      CappedBelow(r.x2a, t.aPeriod, t.aLoops * t.aPeriod, la, e - t.aPeriod);
      CappedBelow(r.x2b, t.bPeriod, t.bLoops * t.bPeriod, lb, e - t.aPeriod);
    }
    FreeAtZero(r.x2a, t.aPeriod, t.aLoops * t.aPeriod);
    FreeAtZero(r.x2b, t.bPeriod, t.bLoops * t.bPeriod);
    FreeAtZero(r.x2a, t.aPeriod, la);
    FreeAtZero(r.x2b, t.bPeriod, lb);
    assert LastChip(Capped(r.x2a, t.aPeriod, t.aLoops * t.aPeriod, v), t.aPeriod)
        && Capped(r.x2a, t.aPeriod, t.aLoops * t.aPeriod, v).cycle + 1 == t.aLoops
        <==> v + 1 >= t.X1Period();
    hide Rem, Quot, Free, Capped, Fresh, Advance, X1EpochEnds, Closing;
  }

  lemma StepClosed(t: Timing, r: Regs, n: nat)
    requires t.Valid() && n < t.Week()
    ensures Step(t, r, Closed(t, r, n)) == if n + 1 == t.Week() then Start(r) else Closed(t, r, n + 1)
  {
    EpochAtWeekEnd(t, r, n);
    if n + 1 < t.Week() {
      hide Step, Closed, X1EpochEnds;
      StepX1(t, r, n);
      if n + t.aPeriod < t.Week() {
        StepX2(t, r, n);
      } else {
        StepX2Closing(t, r, n);
      }
    }
  }

  lemma StartClosed(t: Timing, r: Regs)
    requires t.Valid()
    ensures Closed(t, r, 0) == Start(r)
  {
    ValidBasics(t);
    LastEpochCycles(t);
    MultipleAtLeast(t.aLoops, t.aPeriod);
    MultipleAtLeast(t.bLoops, t.bPeriod);
    FreeAtZero(r.x1a, t.aPeriod, 1);
    FreeAtZero(r.x1b, t.bPeriod, t.bLoops * t.bPeriod);
    FreeAtZero(r.x2a, t.aPeriod, t.aLoops * t.aPeriod);
    FreeAtZero(r.x2b, t.bPeriod, t.bLoops * t.bPeriod);
    FreeAtZero(r.x2a, t.aPeriod, Quot(t.LastEpoch(), t.aPeriod) * t.aPeriod);
    FreeAtZero(r.x2b, t.bPeriod, Quot(t.LastEpoch(), t.bPeriod) * t.bPeriod);
    QuotRemUnique(0, t.X1Period(), 0, 0);
    QuotRemUnique(0, t.X2Period(), 0, 0);
    hide Rem, Quot, Free, Capped, Fresh, Timing.Valid;
  }

  lemma {:induction false} RunNext(t: Timing, r: Regs, n: nat)
    ensures Run(t, r, n) == if n == 0 then Start(r) else Step(t, r, Run(t, r, n - 1))
  {
    hide Step;
  }

  lemma {:induction false} RunStarts(t: Timing, r: Regs)
    requires t.Valid()
    ensures t.Week() > 0 && Run(t, r, 0) == Closed(t, r, Rem(0, t.Week()))
  {
    ValidBasics(t);
    hide *;
    RunNext(t, r, 0);
    QuotRemUnique(0, t.Week(), 0, 0);
    StartClosed(t, r);
  }

  lemma {:induction false} ClosedGoesOn(t: Timing, r: Regs, n: nat)
    requires t.Valid() && t.Week() > 0
    ensures Step(t, r, Closed(t, r, Rem(n, t.Week()))) == Closed(t, r, Rem(n + 1, t.Week()))
  {
    hide *;
    RemSucc(n, t.Week());
    StartClosed(t, r);
    StepClosed(t, r, Rem(n, t.Week()));
  }

  /** The clocked generators, at any time, in any week. */
  lemma {:induction false} RunIsClosed(t: Timing, r: Regs, n: nat)
    requires t.Valid()
    ensures t.Week() > 0 && Run(t, r, n) == Closed(t, r, Rem(n, t.Week()))
  {
    hide *;
    RunStarts(t, r);
    if n > 0 {
      RunIsClosed(t, r, n - 1);
      RunNext(t, r, n);
      ClosedGoesOn(t, r, n - 1);
    }
  }
}
