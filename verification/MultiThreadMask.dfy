/**
 Cores above bit 15 of the core mask: a thread ends its loop by the low sixteen bits but searches all of them.
 When a thread can claim such a core, and what becomes of it.
 */
module MultiThreadMask {
  import opened MultiThread
  import opened Wrappers

  /** Thread k has claimed a core above bit 15. */
  ghost predicate ClaimsHigh(c: Setup, ids: seq<nat>, steps: seq<(nat, nat)>, k: nat)
    requires NoTwice(ids) && k < |ids|
  {
    exists i: nat :: i in Reached(c, ids, steps).threads[k].claims && i >= 16
  }

  ghost predicate HasLow(c: Setup) {
    exists i: nat :: i in c.cores && i < 16
  }

  ghost predicate HasHigh(c: Setup) {
    exists i: nat :: i in c.cores && 16 <= i < c.maxTest
  }

  lemma {:induction false} ReachedNext(c: Setup, ids: seq<nat>, steps: seq<(nat, nat)>, k: nat, e: nat)
    requires NoTwice(ids)
    ensures Reached(c, ids, steps + [(k, e)]) == Step(c, Reached(c, ids, steps), k, e)
  {
    assert (steps + [(k, e)])[..|steps|] == steps;
    hide Inv, Step, NoTwice;
  }

  /** The thread's own part of a step. */
  lemma {:induction false} StepOwn(c: Setup, st: State, k: nat, e: nat)
    requires Inv(c, st) && k < |st.threads|
    ensures var i := About(st.threads[k].pc);
            && (i.Some? ==> i.value < c.maxTest)
            && var a := Act(c, st.threads[k], st.lock, if i.Some? then st.words[i.value] else 0, e);
            Step(c, st, k, e) == State(a.lock, if i.Some? then st.words[i.value := a.word] else st.words,
                                       st.threads[k := a.t])
  {
    assert Orderly(c, st.threads[k]);
    hide Act, NoTwice, Claimed, Wanted, LockHeld, WordHeld, Consistent;
  }

  // ----- never without a high core, without a low one, or alone

  /** What is claimed is in the mask and among the words searched. */
  lemma {:induction false} ClaimsInRange(c: Setup, ids: seq<nat>, steps: seq<(nat, nat)>, k: nat, i: nat)
    requires NoTwice(ids) && k < |ids| && i in Reached(c, ids, steps).threads[k].claims
    ensures i in c.cores && i < c.maxTest
  {
    if steps != [] {
      var before, j, e := steps[..|steps| - 1], steps[|steps| - 1].0, steps[|steps| - 1].1;
      var st := Reached(c, ids, before);
      assert steps == before + [(j, e)];
      ReachedNext(c, ids, before, j, e);
      if i in st.threads[k].claims {
        ClaimsInRange(c, ids, before, k, i);
      } else {
        assert Orderly(c, st.threads[k]);
        if j < |ids| {
          StepOwn(c, st, j, e);
        }
        hide Inv, Orderly, Reached;
      }
    }
  }

  /** Without a low core no thread gets past its loop. */
  lemma {:induction false} NoLowNoClaim(c: Setup, ids: seq<nat>, steps: seq<(nat, nat)>, k: nat)
    requires NoTwice(ids) && k < |ids| && !HasLow(c)
    ensures var t := Reached(c, ids, steps).threads[k]; (t.pc.Loop? || t.pc.Exit?) && t.claims == [] && t.done == {}
  {
    if steps != [] {
      var before, j, e := steps[..|steps| - 1], steps[|steps| - 1].0, steps[|steps| - 1].1;
      var st := Reached(c, ids, before);
      assert steps == before + [(j, e)];
      ReachedNext(c, ids, before, j, e);
      NoLowNoClaim(c, ids, before, k);
      assert Wanted(c) == {};
      if j < |ids| {
        StepOwn(c, st, j, e);
      }
      hide Inv, Reached, HasLow, Wanted;
    }
  }

  /** The place a thread searches at. */
  function Place(pc: Pc): Option<nat> {
    match pc
    case Scan(i, _) => Some(i)
    case Request(i, _, _) => Some(i)
    case Confirm(i, _, _) => Some(i)
    case Look(i, _) => Some(i)
    case Claim(i, _) => Some(i)
    case _ => None
  }

  /** A thread that is alone works through the cores from below, and stops when the low ones are done. */
  ghost predicate Ascending(c: Setup, t: Thread) {
    && (forall i | i in t.done :: i < 16)
    && (Place(t.pc).Some? ==>
          t.done != Wanted(c) && forall i | i in c.cores && i < Place(t.pc).value :: i in t.done)
    && (t.pc.Unlock? ==> t.pc.got && t.pc.i < 16)
  }

  /** So it never stands at a high core. */
  lemma {:induction false} AscendingLow(c: Setup, t: Thread)
    requires Ascending(c, t) && Orderly(c, t) && Place(t.pc).Some?
    ensures Place(t.pc).value < 16
  {
    assert forall i | i in t.done :: i in Wanted(c);
    assert Place(t.pc).value >= 16 ==> forall i | i in Wanted(c) :: i in t.done;
    assert Place(t.pc).value >= 16 ==> t.done == Wanted(c);
  }

  lemma {:induction false} AloneStep(c: Setup, st: State, e: nat)
    requires Inv(c, st) && |st.threads| == 1 && Ascending(c, st.threads[0])
    ensures Ascending(c, Step(c, st, 0, e).threads[0])
  {
    var t := st.threads[0];
    assert Orderly(c, t);
    StepOwn(c, st, 0, e);
    if t.pc.Look? {
      assert WordHeld(st, t.pc.i);
      assert st.words[t.pc.i] == 0;
    }
    if Place(t.pc).Some? {
      AscendingLow(c, t);
    }
    hide Inv, Wanted, Orderly, Consistent, WordHeld, LockHeld;
  }

  lemma {:induction false} AloneAscends(c: Setup, ids: seq<nat>, steps: seq<(nat, nat)>)
    requires NoTwice(ids) && |ids| == 1
    ensures Ascending(c, Reached(c, ids, steps).threads[0])
  {
    if steps != [] {
      var before, j, e := steps[..|steps| - 1], steps[|steps| - 1].0, steps[|steps| - 1].1;
      var st := Reached(c, ids, before);
      assert steps == before + [(j, e)];
      ReachedNext(c, ids, before, j, e);
      AloneAscends(c, ids, before);
      hide Inv, Ascending, Reached;
      if j == 0 {
        AloneStep(c, st, e);
      }
    }
  }

  lemma {:induction false} AscendingClaims(c: Setup, t: Thread, i: nat)
    requires Ascending(c, t) && Orderly(c, t) && i in t.claims
    ensures i < 16
  {
    var claims := set x | x in t.claims;
    assert i in claims && claims == Claimed(t);
    if i !in t.done {
      assert t.pc.Unlock?;
    }
    hide Wanted, NoTwice;
  }

  lemma {:induction false} AloneClaimsLow(c: Setup, ids: seq<nat>, steps: seq<(nat, nat)>, i: nat)
    requires NoTwice(ids) && |ids| == 1 && i in Reached(c, ids, steps).threads[0].claims
    ensures i < 16
  {
    AloneAscends(c, ids, steps);
    assert Orderly(c, Reached(c, ids, steps).threads[0]);
    hide *;
    AscendingClaims(c, Reached(c, ids, steps).threads[0], i);
  }

  /** Without a high core within reach, without a low core, or alone, no thread ever claims a high core. */
  lemma {:induction false} OnlyLowClaims(c: Setup, ids: seq<nat>, steps: seq<(nat, nat)>, k: nat)
    requires NoTwice(ids) && k < |ids| && !(|ids| >= 2 && HasLow(c) && HasHigh(c))
    ensures !ClaimsHigh(c, ids, steps, k)
  {
    forall i: nat | i in Reached(c, ids, steps).threads[k].claims
      ensures i < 16
    {
      ClaimsInRange(c, ids, steps, k, i);
      if !HasLow(c) {
        NoLowNoClaim(c, ids, steps, k);
      } else if |ids| < 2 {
        AloneClaimsLow(c, ids, steps, i);
      }
    }
    hide Reached, NoTwice;
  }

  // ----- a run in which a high core is claimed: the first thread holds a low core, the second goes on to the high ones

  /** Where the first two threads stand; the others have not started. */
  ghost predicate Standing(c: Setup, ids: seq<nat>, st: State, t: Thread, lock: Option<nat>, words: seq<nat>) {
    && |st.threads| == |ids| >= 2 && st.threads[0] == t && st.threads[1] == Thread(ids[1], Loop, {}, 0, [])
    && st.lock == lock && st.words == words && |words| == c.maxTest
  }

  lemma {:induction false} Go(c: Setup, ids: seq<nat>, steps: seq<(nat, nat)>, t: Thread, lock: Option<nat>,
                              words: seq<nat>)
    requires NoTwice(ids) && Standing(c, ids, Reached(c, ids, steps), t, lock, words)
    ensures About(t.pc).Some? ==> About(t.pc).value < c.maxTest
    ensures var i := About(t.pc);
            var a := Act(c, t, lock, if i.Some? then words[i.value] else 0, 0);
            Standing(c, ids, Reached(c, ids, steps + [(0, 0)]), a.t, a.lock,
                     if i.Some? then words[i.value := a.word] else words)
  {
    ReachedNext(c, ids, steps, 0, 0);
    StepOwn(c, Reached(c, ids, steps), 0, 0);
    hide Reached, Step, Inv, Act;
  }

  /** The first thread takes the first core at or above i. */
  lemma {:induction false} Seek(c: Setup, ids: seq<nat>, steps: seq<(nat, nat)>, i: nat, l: nat)
      returns (reached: seq<(nat, nat)>, m: nat)
    requires NoTwice(ids) && |ids| >= 2 && i <= l < c.maxTest && l in c.cores
    requires Standing(c, ids, Reached(c, ids, steps), Thread(ids[0], Scan(i, ROUNDS), {}, 0, []), None, Zeros(c))
    ensures m <= l && m in c.cores
    ensures Standing(c, ids, Reached(c, ids, reached), Thread(ids[0], Run(m), {m}, 0, [m]), None,
                     Zeros(c)[m := Sig(ids[0])])
    decreases l - i
  {
    hide Reached, Standing;
    var t := Thread(ids[0], Scan(i, ROUNDS), {}, 0, []);
    Go(c, ids, steps, t, None, Zeros(c));
    if i in c.cores {
      m := i;
      reached := Take(c, ids, steps + [(0, 0)], i);
    } else {
      assert Act(c, t, None, 0, 0).t == Thread(ids[0], Scan(i + 1, ROUNDS), {}, 0, []);
      reached, m := Seek(c, ids, steps + [(0, 0)], i + 1, l);
    }
  }

  function Zeros(c: Setup): seq<nat> {
    seq(c.maxTest, i => 0)
  }

  lemma {:induction false} Take(c: Setup, ids: seq<nat>, steps: seq<(nat, nat)>, i: nat)
      returns (reached: seq<(nat, nat)>)
    requires NoTwice(ids) && i < c.maxTest && |ids| >= 2
    requires Standing(c, ids, Reached(c, ids, steps), Thread(ids[0], Request(i, ROUNDS, TRIES), {}, 0, []), None,
                      Zeros(c))
    ensures Standing(c, ids, Reached(c, ids, reached), Thread(ids[0], Run(i), {i}, 0, [i]), None,
                     Zeros(c)[i := Sig(ids[0])])
  {
    hide Reached, Standing;
    var id, z := ids[0], Zeros(c);
    var w := z[i := Sig(id)];
    assert z[i := 0] == z && w[i := Sig(id)] == w && z[i] == 0 && w[i] == Sig(id);
    reached := steps;
    Go(c, ids, reached, Thread(id, Request(i, ROUNDS, TRIES), {}, 0, []), None, z);
    reached := reached + [(0, 0)];
    Go(c, ids, reached, Thread(id, Confirm(i, ROUNDS, TRIES), {}, 0, []), Some(id), z);
    reached := reached + [(0, 0)];
    Go(c, ids, reached, Thread(id, Look(i, ROUNDS), {}, 0, []), Some(id), z);
    reached := reached + [(0, 0)];
    Go(c, ids, reached, Thread(id, Claim(i, ROUNDS), {}, 0, []), Some(id), z);
    reached := reached + [(0, 0)];
    assert [] + [i] == [i];
    Go(c, ids, reached, Thread(id, Unlock(i, ROUNDS, true), {}, 0, [i]), Some(id), w);
    reached := reached + [(0, 0)];
    assert {} + {i} == {i};
  }

  /** On its way to the high core h, within its first round. */
  ghost predicate Early(pc: Pc, h: nat) {
    match pc
    case Loop => true
    case Scan(i, rounds) => i <= h && rounds == ROUNDS
    case Request(i, rounds, _) => i <= h && rounds == ROUNDS
    case Confirm(i, rounds, _) => i <= h && rounds == ROUNDS
    case Look(i, rounds) => i <= h && rounds == ROUNDS
    case Claim(i, rounds) => i <= h && rounds == ROUNDS
    case Unlock(i, rounds, got) => i <= h && rounds == ROUNDS && (!got ==> i < h)
    case Run(_) => true
    case Free(_) => true
    case Exit(_) => false
  }

  /** The low core m is held by another thread, the register is free for the second thread, h is free or its own. */
  ghost predicate Pressing(c: Setup, t: Thread, lock: Option<nat>, words: seq<nat>, m: nat, h: nat) {
    && |words| == c.maxTest && m in c.cores && m < 16 <= h < c.maxTest && h in c.cores && words[m] != 0
    && t.errCnt == 0 && m !in Claimed(t)
    && (if t.pc.Confirm? || Owning(t.pc) then lock == Some(t.id) else lock == None)
    && (h !in Claimed(t) ==> words[h] == 0 && Early(t.pc, h))
  }

  lemma {:induction false} PressOn(c: Setup, t: Thread, lock: Option<nat>, words: seq<nat>, m: nat, h: nat)
    requires Pressing(c, t, lock, words, m, h) && h !in Claimed(t) && Orderly(c, t) && Consistent(t, lock, words)
    ensures var i := About(t.pc);
            && (i.Some? ==> i.value < c.maxTest)
            && var a := Act(c, t, lock, if i.Some? then words[i.value] else 0, 0);
            Pressing(c, a.t, a.lock, if i.Some? then words[i.value := a.word] else words, m, h)
  {
    assert m in Wanted(c) && m !in t.done;
    hide NoTwice, Wanted;
  }

  /** The second thread alone, until it has claimed h. */
  lemma {:induction false} Press(c: Setup, ids: seq<nat>, steps: seq<(nat, nat)>, m: nat, h: nat)
      returns (reached: seq<(nat, nat)>)
    requires NoTwice(ids) && |ids| >= 2
    requires var st := Reached(c, ids, steps); Pressing(c, st.threads[1], st.lock, st.words, m, h)
    ensures h in Reached(c, ids, reached).threads[1].claims
    decreases Budget(c, Reached(c, ids, steps).threads[1])
  {
    var st := Reached(c, ids, steps);
    var t := st.threads[1];
    assert Orderly(c, t) && Consistent(t, st.lock, st.words);
    if h in Claimed(t) {
      reached := steps;
      assert h in (set x | x in t.claims);
    } else {
      assert !t.pc.Exit?;
      hide Inv, Reached, Orderly, Consistent, Pressing, NoTwice, Claimed;
      var i := About(t.pc);
      StepOwn(c, st, 1, 0);
      PressOn(c, t, st.lock, st.words, m, h);
      BudgetFalls(c, t, st.lock, if i.Some? then st.words[i.value] else 0, 0);
      ReachedNext(c, ids, steps, 1, 0);
      hide Budget, Act;
      reached := Press(c, ids, steps + [(1, 0)], m, h);
    }
  }

  lemma {:induction false} FirstHolds(c: Setup, ids: seq<nat>, l: nat) returns (steps: seq<(nat, nat)>, m: nat)
    requires NoTwice(ids) && |ids| >= 2 && l in c.cores && l < 16 && l < c.maxTest
    ensures m in c.cores && m < 16 && m < c.maxTest
    ensures Standing(c, ids, Reached(c, ids, steps), Thread(ids[0], Run(m), {m}, 0, [m]), None,
                     Zeros(c)[m := Sig(ids[0])])
  {
    var t := Thread(ids[0], Loop, {}, 0, []);
    assert Reached(c, ids, []) == Initial(c, ids);
    assert Standing(c, ids, Initial(c, ids), t, None, Zeros(c));
    hide Standing, Reached, NoTwice;
    Go(c, ids, [], t, None, Zeros(c));
    assert l in Wanted(c);
    assert Act(c, t, None, 0, 0).t == Thread(ids[0], Scan(0, ROUNDS), {}, 0, []);
    steps, m := Seek(c, ids, [] + [(0, 0)], 0, l);
  }

  lemma {:induction false} PressingStarts(c: Setup, ids: seq<nat>, st: State, m: nat, h: nat)
    requires m in c.cores && m < 16 <= h < c.maxTest && h in c.cores && |ids| >= 2
    requires Standing(c, ids, st, Thread(ids[0], Run(m), {m}, 0, [m]), None, Zeros(c)[m := Sig(ids[0])])
    ensures Pressing(c, st.threads[1], st.lock, st.words, m, h)
  {}

  /** Two threads, a low core and a high one: some run has the second thread claim the high one. */
  lemma {:induction false} HighIsClaimed(c: Setup, ids: seq<nat>, l: nat, h: nat) returns (steps: seq<(nat, nat)>)
    requires NoTwice(ids) && |ids| >= 2 && l in c.cores && l < 16 <= h < c.maxTest && h in c.cores
    ensures ClaimsHigh(c, ids, steps, 1)
  {
    var first, m := FirstHolds(c, ids, l);
    hide Reached, NoTwice, Standing;
    PressingStarts(c, ids, Reached(c, ids, first), m, h);
    steps := Press(c, ids, first, m, h);
  }

  /**
   Some run has some thread claim a core above bit 15 if and only if there are two threads, a core below bit 16
   to keep them in their loop, and a core above it among the words searched.
   */
  lemma {:induction false} HighClaimsExactly(c: Setup, ids: seq<nat>)
    requires NoTwice(ids)
    ensures (exists steps: seq<(nat, nat)>, k: nat | k < |ids| :: ClaimsHigh(c, ids, steps, k)) <==>
            |ids| >= 2 && HasLow(c) && HasHigh(c)
  {
    if |ids| >= 2 && HasLow(c) && HasHigh(c) {
      var l: nat :| l in c.cores && l < 16;
      var h: nat :| h in c.cores && 16 <= h < c.maxTest;
      var steps := HighIsClaimed(c, ids, l, h);
      assert ClaimsHigh(c, ids, steps, 1);
    } else {
      forall steps: seq<(nat, nat)>, k: nat | k < |ids|
        ensures !ClaimsHigh(c, ids, steps, k)
      {
        OnlyLowClaims(c, ids, steps, k);
      }
    }
  }

  // ----- what becomes of such a thread

  lemma {:induction false} ClaimStays(c: Setup, st: State, j: nat, e: nat, k: nat, i: nat)
    requires Inv(c, st) && k < |st.threads| && i in st.threads[k].claims
    ensures k < |Step(c, st, j, e).threads| && i in Step(c, st, j, e).threads[k].claims
  {
    if j < |st.threads| {
      StepOwn(c, st, j, e);
      hide Step;
    }
    hide Inv;
  }

  lemma {:induction false} ClaimsStay(c: Setup, ids: seq<nat>, steps: seq<(nat, nat)>, more: seq<(nat, nat)>,
                                      k: nat, i: nat)
    requires NoTwice(ids) && k < |ids| && i in Reached(c, ids, steps).threads[k].claims
    ensures i in Reached(c, ids, steps + more).threads[k].claims
    decreases |more|
  {
    hide *;
    if more == [] {
      assert steps + more == steps;
    } else {
      var n := |more| - 1;
      var j, e := more[n].0, more[n].1;
      assert steps + more == (steps + more[..n]) + [(j, e)];
      ClaimsStay(c, ids, steps, more[..n], k, i);
      ReachedNext(c, ids, steps + more[..n], j, e);
      ClaimStays(c, Reached(c, ids, steps + more[..n]), j, e, k, i);
    }
  }

  /** A thread that has claimed a core above bit 15 never returns 0, however the run goes on. */
  lemma {:induction false} HighNeverReturnsZero(c: Setup, ids: seq<nat>, steps: seq<(nat, nat)>,
                                                more: seq<(nat, nat)>, k: nat)
    requires NoTwice(ids) && k < |ids| && ClaimsHigh(c, ids, steps, k)
    ensures Reached(c, ids, steps + more).threads[k].pc != Exit(0)
  {
    var i: nat :| i in Reached(c, ids, steps).threads[k].claims && i >= 16;
    ClaimsStay(c, ids, steps, more, k, i);
    ZeroMeansAllClaimed(c, ids, steps + more, k);
  }

  /** Cores 0 and 16 with 17 words searched and two threads: a run in which a thread can no longer return 0. */
  lemma {:induction false} SixteenIsClaimed() returns (steps: seq<(nat, nat)>)
    ensures NoTwice([1, 2])
    ensures forall more: seq<(nat, nat)> :: Reached(Setup({0, 16}, 17), [1, 2], steps + more).threads[1].pc != Exit(0)
  {
    steps := HighIsClaimed(Setup({0, 16}, 17), [1, 2], 0, 16);
    forall more: seq<(nat, nat)>
      ensures Reached(Setup({0, 16}, 17), [1, 2], steps + more).threads[1].pc != Exit(0)
    {
      HighNeverReturnsZero(Setup({0, 16}, 17), [1, 2], steps, more, 1);
    }
  }
}
