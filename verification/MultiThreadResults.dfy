/** What a thread returns, in terms of the tests it was handed and their results. */
module MultiThreadResults {
  import opened MultiThread
  import opened MultiThreadMask
  import opened Wrappers

  /** The results of the core tests thread k has run, in order. */
  ghost function Results(c: Setup, ids: seq<nat>, steps: seq<(nat, nat)>, k: nat): seq<nat>
    requires NoTwice(ids) && k < |ids|
  {
    if steps == [] then []
    else
      var before, step := steps[..|steps| - 1], steps[|steps| - 1];
      var rest := Results(c, ids, before, k);
      if step.0 == k && Reached(c, ids, before).threads[k].pc.Run? then rest + [step.1] else rest
  }

  function Sum(s: seq<nat>): nat {
    if s == [] then 0 else Sum(s[..|s| - 1]) + s[|s| - 1]
  }

  lemma {:induction false} SumZero(s: seq<nat>)
    ensures Sum(s) == 0 <==> forall j | 0 <= j < |s| :: s[j] == 0
  {
    if s != [] {
      var p := s[..|s| - 1];
      SumZero(p);
      assert forall j | 0 <= j < |p| :: p[j] == s[j];
    }
  }

  ghost function Set(s: seq<nat>): set<nat> {
    set i | i in s
  }

  /** Errors so far, tests run so far, and what the loop looks for as long as it goes on. */
  ghost predicate Counted(c: Setup, t: Thread, results: seq<nat>) {
    && t.errCnt == Sum(results)
    && |t.claims| == |results| + (if t.pc.Run? || (t.pc.Unlock? && t.pc.got) then 1 else 0)
    && (!t.pc.Loop? && !t.pc.Free? && !t.pc.Exit? ==> t.errCnt == 0)
    && (Place(t.pc).Some? || (t.pc.Unlock? && !t.pc.got) ==> t.done != Wanted(c))
    && (t.pc.Exit? ==> t.pc.rc == if t.errCnt > 0 then t.errCnt else if t.done == Wanted(c) then 0 else 1)
  }

  lemma {:induction false} ActCounted(c: Setup, t: Thread, lock: Option<nat>, word: nat, errors: nat, results: seq<nat>)
    requires Counted(c, t, results)
    ensures Counted(c, Act(c, t, lock, word, errors).t, if t.pc.Run? then results + [errors] else results)
  {
    assert (results + [errors])[..|results|] == results;
    hide Wanted;
  }

  lemma {:induction false} RunCounted(c: Setup, ids: seq<nat>, steps: seq<(nat, nat)>, k: nat)
    requires NoTwice(ids) && k < |ids|
    ensures Counted(c, Reached(c, ids, steps).threads[k], Results(c, ids, steps, k))
  {
    if steps == [] {
      assert Reached(c, ids, []) == Initial(c, ids);
    } else {
      var before, j, e := steps[..|steps| - 1], steps[|steps| - 1].0, steps[|steps| - 1].1;
      var st := Reached(c, ids, before);
      assert steps == before + [(j, e)];
      RunCounted(c, ids, before, k);
      ReachedNext(c, ids, before, j, e);
      hide Reached, Inv, Counted, Step;
      if j < |ids| {
        StepOwn(c, st, j, e);
        if j == k {
          var i := About(st.threads[k].pc);
          var word := if i.Some? then st.words[i.value] else 0;
          ActCounted(c, st.threads[k], st.lock, word, e, Results(c, ids, before, k));
        }
      } else {
        StepBeyond(c, st, j, e);
      }
    }
  }

  lemma {:induction false} StepBeyond(c: Setup, st: State, j: nat, e: nat)
    requires Inv(c, st) && j >= |st.threads|
    ensures Step(c, st, j, e) == st
  {
    hide Inv;
  }

  lemma {:induction false} ExitClaims(c: Setup, t: Thread)
    requires Orderly(c, t) && t.pc.Exit?
    ensures NoTwice(t.claims) && Set(t.claims) == t.done
  {
    hide Wanted, NoTwice;
  }

  /**
   A thread that has returned: it has run the test of each core it claimed, once. It returns the sum of their
   results if that is not zero; else 0 if it has claimed the low cores of the mask and no others, and 1 if it gave
   up before.
   */
  lemma {:induction false} ReturnsExactly(c: Setup, ids: seq<nat>, steps: seq<(nat, nat)>, k: nat)
    requires NoTwice(ids) && k < |ids| && Reached(c, ids, steps).threads[k].pc.Exit?
    ensures var t, r := Reached(c, ids, steps).threads[k], Results(c, ids, steps, k);
            && NoTwice(t.claims) && |r| == |t.claims|
            && t.pc.rc == if Sum(r) > 0 then Sum(r) else if Set(t.claims) == Wanted(c) then 0 else 1
  {
    var t := Reached(c, ids, steps).threads[k];
    RunCounted(c, ids, steps, k);
    assert Orderly(c, t);
    hide Reached, Results, Orderly, Sum, Wanted, NoTwice;
    ExitClaims(c, t);
  }

  /** It returns 0 if and only if it has claimed the low cores of the mask, no others, and every result was 0. */
  lemma {:induction false} ZeroExactly(c: Setup, ids: seq<nat>, steps: seq<(nat, nat)>, k: nat)
    requires NoTwice(ids) && k < |ids| && Reached(c, ids, steps).threads[k].pc.Exit?
    ensures var t, r := Reached(c, ids, steps).threads[k], Results(c, ids, steps, k);
            t.pc.rc == 0 <==> (forall i: nat :: i in t.claims <==> i in c.cores && i < 16)
                              && forall j | 0 <= j < |r| :: r[j] == 0
  {
    var t, r := Reached(c, ids, steps).threads[k], Results(c, ids, steps, k);
    ReturnsExactly(c, ids, steps, k);
    SumZero(r);
    LowClaims(c, t.claims);
    hide Reached, Results, Sum, Wanted, NoTwice, Set;
  }

  lemma {:induction false} LowClaims(c: Setup, claims: seq<nat>)
    ensures Set(claims) == Wanted(c) <==> forall i: nat :: i in claims <==> i in c.cores && i < 16
  {
    if forall i: nat :: i in claims <==> i in c.cores && i < 16 {
      assert forall i :: i in Set(claims) <==> i in Wanted(c);
      assert Set(claims) == Wanted(c);
    }
    if Set(claims) == Wanted(c) {
      forall i: nat
        ensures i in claims <==> i in c.cores && i < 16
      {
        assert i in claims <==> i in Set(claims);
        assert i in Wanted(c) <==> i in c.cores && i < 16;
      }
    }
  }

  // ----- a run that returns 0

  /** A low core still to be claimed, at or behind the place of the search. */
  ghost predicate Ahead(c: Setup, t: Thread, w: nat) {
    && w in c.cores && w < 16 && w !in t.done
    && (Place(t.pc).Some? ==> Place(t.pc).value <= w)
  }

  function RoundsOf(pc: Pc): nat {
    match pc
    case Scan(_, r) => r
    case Request(_, r, _) => r
    case Confirm(_, r, _) => r
    case Look(_, r) => r
    case Claim(_, r) => r
    case Unlock(_, r, _) => r
    case _ => ROUNDS
  }

  /** A thread that is the only one to have started, and whose tests succeed. */
  ghost predicate Smooth(c: Setup, t: Thread, lock: Option<nat>, words: seq<nat>) {
    && |words| == c.maxTest && t.errCnt == 0 && RoundsOf(t.pc) == ROUNDS
    && (if t.pc.Confirm? || Owning(t.pc) then lock == Some(t.id) else lock == None)
    && (forall i | 0 <= i < |words| :: words[i] != 0 ==> Holding(t.pc) && t.pc.i == i)
    && (Place(t.pc).Some? ==> exists w :: Ahead(c, t, w))
    && (t.pc.Unlock? ==> t.pc.got)
    && (forall i | i in Claimed(t) :: i < 16)
    && (t.pc.Exit? ==> t.pc.rc == 0)
  }

  /** The low cores of the mask are among the words searched. */
  ghost predicate InReach(c: Setup) {
    forall i | i in c.cores && i < 16 :: i < c.maxTest
  }

  lemma {:induction false} SomeAhead(c: Setup, t: Thread)
    requires t.done <= c.cores && (forall i | i in t.done :: i < 16) && t.done != Wanted(c)
    ensures exists w :: w in c.cores && w < 16 && w !in t.done
  {
    assert forall i | i in t.done :: i in Wanted(c);
    var w :| w in Wanted(c) && w !in t.done;
  }

  lemma {:induction false} SmoothLoop(c: Setup, t: Thread, lock: Option<nat>, words: seq<nat>)
    requires Smooth(c, t, lock, words) && Orderly(c, t) && t.pc.Loop?
    ensures Smooth(c, Act(c, t, lock, 0, 0).t, lock, words)
  {
    if t.done != Wanted(c) {
      assert forall i | i in t.done :: i in Claimed(t);
      SomeAhead(c, t);
      var w :| w in c.cores && w < 16 && w !in t.done;
      assert Ahead(c, Act(c, t, lock, 0, 0).t, w);
    }
    hide Wanted, NoTwice;
  }

  lemma {:induction false} SmoothSearch(c: Setup, t: Thread, lock: Option<nat>, words: seq<nat>)
    requires Smooth(c, t, lock, words) && Orderly(c, t) && InReach(c) && Place(t.pc).Some? && !t.pc.Claim?
    ensures var i := About(t.pc);
            && (i.Some? ==> i.value < c.maxTest)
            && var a := Act(c, t, lock, if i.Some? then words[i.value] else 0, 0);
            a.word == (if i.Some? then words[i.value] else 0) && Smooth(c, a.t, a.lock, words)
  {
    var w :| Ahead(c, t, w);
    var i := About(t.pc);
    var a := Act(c, t, lock, if i.Some? then words[i.value] else 0, 0);
    assert Claimed(a.t) == Claimed(t);
    assert Ahead(c, a.t, w);
    hide Wanted, NoTwice, Claimed;
  }

  lemma {:induction false} SmoothRest(c: Setup, t: Thread, lock: Option<nat>, words: seq<nat>)
    requires Smooth(c, t, lock, words) && Orderly(c, t) && InReach(c)
    requires t.pc.Claim? || t.pc.Unlock? || t.pc.Run? || t.pc.Free?
    ensures var i := About(t.pc);
            && i.Some? && i.value < c.maxTest
            && var a := Act(c, t, lock, words[i.value], 0);
            Smooth(c, a.t, a.lock, words[i.value := a.word])
  {
    var a := Act(c, t, lock, words[About(t.pc).value], 0);
    if t.pc.Claim? {
      var w :| Ahead(c, t, w);
      assert t.pc.i < 16;
    }
    assert forall i | i in Claimed(a.t) :: i in Claimed(t) || (t.pc.Claim? && i == t.pc.i);
    hide Wanted, NoTwice;
  }

  lemma {:induction false} SmoothOn(c: Setup, t: Thread, lock: Option<nat>, words: seq<nat>)
    requires Smooth(c, t, lock, words) && Orderly(c, t) && InReach(c) && !t.pc.Exit?
    ensures var i := About(t.pc);
            && (i.Some? ==> i.value < c.maxTest)
            && var a := Act(c, t, lock, if i.Some? then words[i.value] else 0, 0);
            Smooth(c, a.t, a.lock, if i.Some? then words[i.value := a.word] else words)
  {
    assert |words| == c.maxTest;
    hide Wanted, NoTwice, Claimed, Orderly, Smooth, InReach;
    if t.pc.Loop? {
      SmoothLoop(c, t, lock, words);
    } else if Place(t.pc).Some? && !t.pc.Claim? {
      SmoothSearch(c, t, lock, words);
      var i := About(t.pc);
      assert i.Some? ==> words[i.value := words[i.value]] == words;
    } else {
      SmoothRest(c, t, lock, words);
    }
  }

  lemma {:induction false} SmoothEnds(c: Setup, ids: seq<nat>, steps: seq<(nat, nat)>, k: nat)
      returns (reached: seq<(nat, nat)>)
    requires NoTwice(ids) && k < |ids| && InReach(c)
    requires var st := Reached(c, ids, steps); Smooth(c, st.threads[k], st.lock, st.words)
    ensures Reached(c, ids, reached).threads[k].pc == Exit(0)
    decreases Budget(c, Reached(c, ids, steps).threads[k])
  {
    var st := Reached(c, ids, steps);
    var t := st.threads[k];
    assert Orderly(c, t);
    if t.pc.Exit? {
      reached := steps;
    } else {
      hide Inv, Reached, Orderly, Smooth, NoTwice;
      var i := About(t.pc);
      StepOwn(c, st, k, 0);
      SmoothOn(c, t, st.lock, st.words);
      BudgetFalls(c, t, st.lock, if i.Some? then st.words[i.value] else 0, 0);
      ReachedNext(c, ids, steps, k, 0);
      hide Budget, Act;
      reached := SmoothEnds(c, ids, steps + [(k, 0)], k);
    }
  }

  /** Some run has thread k return 0 if and only if the low cores of the mask are among the words searched. */
  lemma {:induction false} ZeroPossible(c: Setup, ids: seq<nat>, k: nat)
    requires NoTwice(ids) && k < |ids|
    ensures (exists steps: seq<(nat, nat)> :: Reached(c, ids, steps).threads[k].pc == Exit(0)) <==> InReach(c)
  {
    if InReach(c) {
      var t := Reached(c, ids, []).threads[k];
      assert t == Thread(ids[k], Loop, {}, 0, []);
      assert Smooth(c, t, Reached(c, ids, []).lock, Reached(c, ids, []).words);
      var steps := SmoothEnds(c, ids, [], k);
    } else {
      forall steps: seq<(nat, nat)>
        ensures Reached(c, ids, steps).threads[k].pc != Exit(0)
      {
        var i :| i in c.cores && i < 16 && i >= c.maxTest;
        ZeroMeansAllClaimed(c, ids, steps, k);
        if i in Reached(c, ids, steps).threads[k].claims {
          ClaimsInRange(c, ids, steps, k, i);
        }
      }
    }
  }
}
