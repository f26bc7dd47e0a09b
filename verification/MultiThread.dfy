/**
 Test claiming by floating threads: every test has a word in shared memory, guarded by one test-and-set
 lock register. Every step is one access to the register or to a word; the interleaving is arbitrary.
 */
module MultiThread {
  import opened Wrappers

  /** The cores to be tested, as bit positions of the core mask, and the number of words searched. */
  datatype Setup = Setup(cores: set<nat>, maxTest: nat)

  const ROUNDS: nat := 2000
  const TRIES: nat := 1000

  datatype Pc =
    | Loop
    | Scan(i: nat, rounds: nat)
    | Request(i: nat, rounds: nat, tries: nat) | Confirm(i: nat, rounds: nat, tries: nat)
    | Look(i: nat, rounds: nat) | Claim(i: nat, rounds: nat) | Unlock(i: nat, rounds: nat, got: bool)
    | Run(i: nat) | Free(i: nat)
    | Exit(rc: nat)

  /** A thread: its done mask, its error count, and the tests it has claimed, in order. */
  datatype Thread = Thread(id: nat, pc: Pc, done: set<nat>, errCnt: nat, claims: seq<nat>)

  /** The register holds the owner; a word is zero or the signature of a thread. */
  datatype State = State(lock: Option<nat>, words: seq<nat>, threads: seq<Thread>)

  function Sig(id: nat): nat { 0x1_0000 + id }

  /** The done mask that ends a thread: the low sixteen bits of the core mask. */
  function Wanted(c: Setup): set<nat> {
    set k | k in c.cores && k < 16
  }

  // ----- one step of one thread: the register and the word it sees, and its choice of a test result

  datatype Access = Access(t: Thread, lock: Option<nat>, word: nat)

  /** The step, given the register and the content of the word it is about. */
  function Act(c: Setup, t: Thread, lock: Option<nat>, word: nat, errors: nat): Access {
    match t.pc
    case Loop =>
      Access(t.(pc := if t.done != Wanted(c) && t.errCnt == 0 then Scan(0, ROUNDS) else Exit(t.errCnt)), lock, word)
    case Scan(i, rounds) =>
      Access(t.(pc := if rounds == 0 then Exit(1)
                      else if i >= c.maxTest then Scan(0, rounds - 1)
                      else if i in c.cores && i !in t.done then Request(i, rounds, TRIES)
                      else Scan(i + 1, rounds)), lock, word)
    case Request(i, rounds, tries) =>
      Access(t.(pc := Confirm(i, rounds, tries)), if lock.None? then Some(t.id) else lock, word)
    case Confirm(i, rounds, tries) =>
      Access(t.(pc := if lock == Some(t.id) then Look(i, rounds)
                      else if tries > 1 then Request(i, rounds, tries - 1) else Exit(1)), lock, word)
    case Look(i, rounds) =>
      Access(t.(pc := if word == 0 then Claim(i, rounds) else Unlock(i, rounds, false)), lock, word)
    case Claim(i, rounds) =>
      Access(t.(pc := Unlock(i, rounds, true), claims := t.claims + [i]), lock, Sig(t.id))
    case Unlock(i, rounds, got) =>
      Access(t.(pc := if got then Run(i) else Scan(i + 1, rounds), done := if got then t.done + {i} else t.done),
             if lock == Some(t.id) then None else lock, word)
    case Run(i) =>
      Access(t.(pc := Free(i), errCnt := t.errCnt + errors), lock, word)
    case Free(i) =>
      Access(t.(pc := Loop), lock, 0)
    case Exit(_) =>
      Access(t, lock, word)
  }

  /** The test a thread is about. */
  function About(pc: Pc): Option<nat> {
    match pc
    case Look(i, _) => Some(i)
    case Claim(i, _) => Some(i)
    case Unlock(i, _, _) => Some(i)
    case Run(i) => Some(i)
    case Free(i) => Some(i)
    case Request(i, _, _) => Some(i)
    case Confirm(i, _, _) => Some(i)
    case _ => None
  }

  function Step(c: Setup, st: State, k: nat, errors: nat): (st': State)
    requires |st.words| == c.maxTest
    ensures |st'.words| == c.maxTest && |st'.threads| == |st.threads|
  {
    if k >= |st.threads| then st
    else
      var t := st.threads[k];
      var i := About(t.pc);
      if i.None? || i.value >= c.maxTest then
        var a := Act(c, t, st.lock, 0, errors);
        State(a.lock, st.words, st.threads[k := a.t])
      else
        var a := Act(c, t, st.lock, st.words[i.value], errors);
        State(a.lock, st.words[i.value := a.word], st.threads[k := a.t])
  }

  // ----- the invariant

  predicate Owning(pc: Pc) { pc.Look? || pc.Claim? || pc.Unlock? }

  /** From the claim to the release of the word. */
  predicate Holding(pc: Pc) { (pc.Unlock? && pc.got) || pc.Run? || pc.Free? }

  /** Tests claimed so far: the done mask, and the one claimed but not yet marked. */
  function Claimed(t: Thread): set<nat> {
    t.done + if t.pc.Unlock? && t.pc.got then {t.pc.i} else {}
  }

  ghost predicate NoTwice(s: seq<nat>) {
    forall a, b | 0 <= a < b < |s| :: s[a] != s[b]
  }

  /** What a thread knows of itself. */
  ghost predicate Orderly(c: Setup, t: Thread) {
    && t.done <= c.cores
    && (About(t.pc).Some? ==> About(t.pc).value < c.maxTest && About(t.pc).value in c.cores)
    && (About(t.pc).Some? && !t.pc.Run? && !t.pc.Free? ==> About(t.pc).value !in t.done)
    && ((t.pc.Run? || t.pc.Free?) ==> t.pc.i in t.done)
    && (t.pc.Scan? ==> t.pc.i <= c.maxTest)
    && (set i | i in t.claims) == Claimed(t) && NoTwice(t.claims)
    && (t.pc.Exit? && t.pc.rc == 0 ==> t.done == Wanted(c) && t.errCnt == 0)
  }

  /** What it knows of the register and of the word it is about. */
  ghost predicate Consistent(t: Thread, lock: Option<nat>, words: seq<nat>) {
    && (Owning(t.pc) ==> lock == Some(t.id))
    && (t.pc.Claim? ==> t.pc.i < |words| && words[t.pc.i] == 0)
    && (Holding(t.pc) ==> t.pc.i < |words| && words[t.pc.i] == Sig(t.id))
  }

  ghost predicate Distinct(st: State) {
    forall j, k | 0 <= j < k < |st.threads| :: st.threads[j].id != st.threads[k].id
  }

  /** The register is held only by a thread that is about to find out or knows. */
  ghost predicate LockHeld(st: State) {
    st.lock.Some? ==>
      exists k | 0 <= k < |st.threads| ::
        st.threads[k].id == st.lock.value && (st.threads[k].pc.Confirm? || Owning(st.threads[k].pc))
  }

  /** A word that is not zero has a holder. */
  ghost predicate WordHeld(st: State, i: nat)
    requires i < |st.words|
  {
    st.words[i] != 0 ==> exists k | 0 <= k < |st.threads| :: Holding(st.threads[k].pc) && st.threads[k].pc.i == i
  }

  ghost predicate Inv(c: Setup, st: State) {
    && |st.words| == c.maxTest && Distinct(st)
    && (forall k | 0 <= k < |st.threads| :: Orderly(c, st.threads[k]))
    && (forall k | 0 <= k < |st.threads| :: Consistent(st.threads[k], st.lock, st.words))
    && LockHeld(st)
    && (forall i | 0 <= i < |st.words| :: WordHeld(st, i))
  }

  // ----- preservation

  lemma {:induction false} ClaimsGrow(s: seq<nat>, i: nat)
    requires NoTwice(s) && i !in s
    ensures NoTwice(s + [i]) && (set x | x in s + [i]) == (set x | x in s) + {i}
  {}

  lemma {:induction false} ActOrderly(c: Setup, t: Thread, lock: Option<nat>, word: nat, errors: nat)
    requires Orderly(c, t)
    ensures Orderly(c, Act(c, t, lock, word, errors).t)
  {
    if t.pc.Claim? {
      assert forall x | x in t.claims :: x in (set y | y in t.claims);
      assert t.pc.i !in t.claims;
      ClaimsGrow(t.claims, t.pc.i);
    }
    hide NoTwice, Wanted;
  }

  /** The step of a thread against the register and its word, before and after. */
  lemma {:induction false} ActConsistent(c: Setup, t: Thread, lock: Option<nat>, words: seq<nat>, errors: nat)
    requires Orderly(c, t) && |words| == c.maxTest && Consistent(t, lock, words)
    ensures var i := About(t.pc);
            var a := Act(c, t, lock, if i.Some? then words[i.value] else 0, errors);
            Consistent(a.t, a.lock, if i.Some? then words[i.value := a.word] else words)
  {
    hide NoTwice, Wanted, Claimed;
  }

  /** What a step does to the register and the words, as others see it. */
  ghost predicate Touches(t: Thread, lock: Option<nat>, lock': Option<nat>, words: seq<nat>, words': seq<nat>) {
    && |words'| == |words|
    && (lock' == lock || (lock.None? && lock' == Some(t.id)) || (lock == Some(t.id) && lock'.None?))
    && (words' == words
        || (t.pc.Claim? && t.pc.i < |words| && words' == words[t.pc.i := Sig(t.id)])
        || (t.pc.Free? && t.pc.i < |words| && words' == words[t.pc.i := 0]))
  }

  lemma {:induction false} StepTouches(c: Setup, st: State, k: nat, errors: nat)
    requires k < |st.threads| && |st.words| == c.maxTest && Orderly(c, st.threads[k])
    ensures Touches(st.threads[k], st.lock, Step(c, st, k, errors).lock, st.words, Step(c, st, k, errors).words)
  {
    var t := st.threads[k];
    var i := About(t.pc);
    if i.Some? {
      assert st.words[i.value := st.words[i.value]] == st.words;
    }
    hide NoTwice, Wanted, Claimed;
  }

  lemma {:induction false} OthersConsistent(t: Thread, u: Thread, lock: Option<nat>, lock': Option<nat>,
                                            words: seq<nat>, words': seq<nat>)
    requires Consistent(t, lock, words) && Consistent(u, lock, words) && t.id != u.id
    requires Touches(t, lock, lock', words, words')
    ensures Consistent(u, lock', words')
  {}

  lemma {:induction false} StepThread(c: Setup, st: State, k: nat, errors: nat)
    requires k < |st.threads| && |st.words| == c.maxTest && Orderly(c, st.threads[k])
    requires Consistent(st.threads[k], st.lock, st.words)
    ensures var st', i := Step(c, st, k, errors), About(st.threads[k].pc);
            var a := Act(c, st.threads[k], st.lock, if i.Some? then st.words[i.value] else 0, errors);
            && st'.threads == st.threads[k := a.t] && st'.lock == a.lock
            && Orderly(c, a.t) && Consistent(a.t, st'.lock, st'.words) && a.t.id == st.threads[k].id
  {
    var t := st.threads[k];
    var i := About(t.pc);
    assert i.Some? ==> i.value < c.maxTest;
    var word := if i.Some? then st.words[i.value] else 0;
    ActOrderly(c, t, st.lock, word, errors);
    ActConsistent(c, t, st.lock, st.words, errors);
    hide Orderly, Consistent;
  }

  /** Who holds the register after a step. */
  lemma {:induction false} StepLock(c: Setup, st: State, k: nat, errors: nat)
    requires Inv(c, st) && k < |st.threads|
    ensures LockHeld(Step(c, st, k, errors))
  {
    var t, st' := st.threads[k], Step(c, st, k, errors);
    assert Orderly(c, t) && Consistent(t, st.lock, st.words) && LockHeld(st);
    StepThread(c, st, k, errors);
    var t' := st'.threads[k];
    assert t'.id == t.id;
    if st'.lock.Some? {
      if st'.lock == Some(t.id) {
        assert t'.pc.Confirm? || Owning(t'.pc) by {
          if st.lock.Some? {
            var j :| 0 <= j < |st.threads| && st.threads[j].id == st.lock.value
                     && (st.threads[j].pc.Confirm? || Owning(st.threads[j].pc));
            assert j == k;
          }
          hide Orderly, Consistent, LockHeld;
        }
        assert st'.threads[k].id == st'.lock.value;
      } else {
        assert st'.lock == st.lock;
        var j :| 0 <= j < |st.threads| && st.threads[j].id == st.lock.value
                 && (st.threads[j].pc.Confirm? || Owning(st.threads[j].pc));
        assert st'.threads[j] == st.threads[j];
      }
    }
  }

  /** Who holds a word after a step. */
  lemma {:induction false} StepWord(c: Setup, st: State, k: nat, errors: nat, i: nat)
    requires Inv(c, st) && k < |st.threads| && i < |st.words|
    ensures WordHeld(Step(c, st, k, errors), i)
  {
    var t, st' := st.threads[k], Step(c, st, k, errors);
    assert Orderly(c, t) && Consistent(t, st.lock, st.words) && WordHeld(st, i);
    StepThread(c, st, k, errors);
    StepTouches(c, st, k, errors);
    if st'.words[i] != 0 {
      if st.words[i] == 0 || (Holding(t.pc) && t.pc.i == i) {
        assert Holding(st'.threads[k].pc) && st'.threads[k].pc.i == i;
      } else {
        var j :| 0 <= j < |st.threads| && Holding(st.threads[j].pc) && st.threads[j].pc.i == i;
        assert st'.threads[j] == st.threads[j];
      }
    }
  }

  lemma {:induction false} StepPreserves(c: Setup, st: State, k: nat, errors: nat)
    requires Inv(c, st)
    ensures Inv(c, Step(c, st, k, errors))
  {
    if k < |st.threads| {
      var t, st' := st.threads[k], Step(c, st, k, errors);
      assert Orderly(c, t) && Consistent(t, st.lock, st.words);
      StepThread(c, st, k, errors);
      StepTouches(c, st, k, errors);
      StepLock(c, st, k, errors);
      forall i | 0 <= i < |st'.words|
        ensures WordHeld(st', i)
      {
        StepWord(c, st, k, errors, i);
      }
      hide Step, Act, Orderly, Consistent, Touches, LockHeld, WordHeld;
      forall j | 0 <= j < |st.threads|
        ensures Orderly(c, st'.threads[j]) && Consistent(st'.threads[j], st'.lock, st'.words)
      {
        if j != k {
          assert t.id != st.threads[j].id;
          OthersConsistent(t, st.threads[j], st.lock, st'.lock, st.words, st'.words);
        }
      }
    }
  }

  // ----- runs

  /** After cepMultiThread_setup: all words zero, the register free, every thread at the head of its loop. */
  function Initial(c: Setup, ids: seq<nat>): State {
    State(None, seq(c.maxTest, i => 0), seq(|ids|, k requires 0 <= k < |ids| => Thread(ids[k], Loop, {}, 0, [])))
  }

  /** Steps of any threads in any order, with any test results. */
  ghost function Reached(c: Setup, ids: seq<nat>, steps: seq<(nat, nat)>): (st: State)
    requires NoTwice(ids)
    ensures Inv(c, st) && |st.threads| == |ids|
  {
    if steps == [] then
      InitialInv(c, ids);
      Initial(c, ids)
    else
      var before := Reached(c, ids, steps[..|steps| - 1]);
      StepPreserves(c, before, steps[|steps| - 1].0, steps[|steps| - 1].1);
      Step(c, before, steps[|steps| - 1].0, steps[|steps| - 1].1)
  }

  lemma {:induction false} InitialInv(c: Setup, ids: seq<nat>)
    requires NoTwice(ids)
    ensures Inv(c, Initial(c, ids))
  {
    var st := Initial(c, ids);
    forall k | 0 <= k < |ids|
      ensures Orderly(c, st.threads[k])
    {
      assert (set i | i in st.threads[k].claims) == {} == Claimed(st.threads[k]);
    }
  }

  /** No two threads hold the same test between claim and release, in any interleaving. */
  lemma {:induction false} NeverTwoHolders(c: Setup, ids: seq<nat>, steps: seq<(nat, nat)>, j: nat, k: nat)
    requires NoTwice(ids) && j < |ids| && k < |ids| && j != k
    ensures var ts := Reached(c, ids, steps).threads;
            Holding(ts[j].pc) && Holding(ts[k].pc) ==> ts[j].pc.i != ts[k].pc.i
  {
    var st := Reached(c, ids, steps);
    assert Consistent(st.threads[j], st.lock, st.words) && Consistent(st.threads[k], st.lock, st.words);
    assert st.threads[j].id != st.threads[k].id;
    hide Reached, Orderly, LockHeld, WordHeld;
  }

  /** Nor do two threads ever both know that they own the register. */
  lemma {:induction false} NeverTwoOwners(c: Setup, ids: seq<nat>, steps: seq<(nat, nat)>, j: nat, k: nat)
    requires NoTwice(ids) && j < |ids| && k < |ids| && j != k
    ensures var ts := Reached(c, ids, steps).threads; !(Owning(ts[j].pc) && Owning(ts[k].pc))
  {
    var st := Reached(c, ids, steps);
    assert Consistent(st.threads[j], st.lock, st.words) && Consistent(st.threads[k], st.lock, st.words);
    assert st.threads[j].id != st.threads[k].id;
    hide Reached, Orderly, LockHeld, WordHeld;
  }

  lemma {:induction false} ClaimsAreWanted(c: Setup, t: Thread, i: nat)
    requires Orderly(c, t) && t.pc == Exit(0)
    ensures NoTwice(t.claims) && (i in t.claims <==> i in c.cores && i < 16)
  {
    var claims := set x | x in t.claims;
    assert claims == Claimed(t) == t.done == Wanted(c);
    assert i in t.claims <==> i in claims;
    assert i in Wanted(c) <==> i in c.cores && i < 16;
    hide *;
  }

  /** A thread that returns 0 has claimed every core in the low sixteen bits of the mask, each once, and no other. */
  lemma {:induction false} ZeroMeansAllClaimed(c: Setup, ids: seq<nat>, steps: seq<(nat, nat)>, k: nat)
    requires NoTwice(ids) && k < |ids|
    ensures var t := Reached(c, ids, steps).threads[k];
            t.pc == Exit(0) ==> NoTwice(t.claims) && forall i: nat :: i in t.claims <==> i in c.cores && i < 16
  {
    var t := Reached(c, ids, steps).threads[k];
    assert Orderly(c, t);
    hide *;
    if t.pc == Exit(0) {
      forall i: nat
        ensures NoTwice(t.claims) && (i in t.claims <==> i in c.cores && i < 16)
      {
        ClaimsAreWanted(c, t, i);
      }
    }
  }

  lemma {:induction false} NobodyHolds(st: State, i: nat)
    requires i < |st.words| && WordHeld(st, i) && forall k | 0 <= k < |st.threads| :: st.threads[k].pc.Exit?
    ensures st.words[i] == 0
  {
    assert forall k | 0 <= k < |st.threads| :: !Holding(st.threads[k].pc);
  }

  lemma {:induction false} NobodyOwns(st: State)
    requires LockHeld(st) && forall k | 0 <= k < |st.threads| :: st.threads[k].pc.Exit?
    ensures st.lock == None
  {
    assert forall k | 0 <= k < |st.threads| :: !(st.threads[k].pc.Confirm? || Owning(st.threads[k].pc));
  }

  /** When all threads have returned, with whatever result, the register is free and every word is zero. */
  lemma {:induction false} AllReleased(c: Setup, ids: seq<nat>, steps: seq<(nat, nat)>)
    requires NoTwice(ids) && forall k | 0 <= k < |ids| :: Reached(c, ids, steps).threads[k].pc.Exit?
    ensures var st := Reached(c, ids, steps); st.lock == None && forall i | 0 <= i < |st.words| :: st.words[i] == 0
  {
    var st := Reached(c, ids, steps);
    assert LockHeld(st) && forall i | 0 <= i < |st.words| :: WordHeld(st, i);
    hide *;
    NobodyOwns(st);
    forall i | 0 <= i < |st.words|
      ensures st.words[i] == 0
    {
      NobodyHolds(st, i);
    }
  }

  // ----- termination

  const WEIGHT: nat := 2 * TRIES + 6

  /** What is left of a search that is about to look at test i. */
  function Searching(c: Setup, i: nat, rounds: nat): int {
    (rounds * (c.maxTest + 1) + (c.maxTest - i)) * WEIGHT + 1
  }

  /** What is left before the next test is claimed or the thread returns. */
  function Inner(c: Setup, pc: Pc): int {
    var whole := Searching(c, 0, ROUNDS) + 1;
    match pc
    case Loop => whole
    case Free(_) => whole + 1
    case Run(_) => whole + 2
    case Scan(i, rounds) => Searching(c, i, rounds)
    case Request(i, rounds, tries) => Searching(c, i + 1, rounds) + 2 * tries + 5
    case Confirm(i, rounds, tries) => Searching(c, i + 1, rounds) + 2 * tries + 4
    case Look(i, rounds) => Searching(c, i + 1, rounds) + 3
    case Claim(i, rounds) => Searching(c, i + 1, rounds) + 2
    case Unlock(i, rounds, got) => if got then whole + 3 else Searching(c, i + 1, rounds) + 1
    case Exit(_) => 0
  }

  /** Cores the thread has not claimed. */
  function Open(c: Setup, t: Thread): nat {
    |c.cores - Claimed(t)|
  }

  lemma {:induction false} SearchGoesOn(c: Setup, i: nat, rounds: nat)
    ensures i <= c.maxTest ==> Searching(c, i, rounds) > 0
    ensures Searching(c, i, rounds) == Searching(c, i + 1, rounds) + WEIGHT
    ensures rounds > 0 ==> Searching(c, 0, rounds - 1) < Searching(c, c.maxTest, rounds)
  {
    var m := c.maxTest;
    assert (rounds * (m + 1) + (m - i)) * WEIGHT == (rounds * (m + 1) + (m - (i + 1))) * WEIGHT + WEIGHT;
    if rounds > 0 {
      assert rounds * (m + 1) == (rounds - 1) * (m + 1) + m + 1;
    }
    if i <= m {
      assert rounds * (m + 1) >= 0;
    }
  }

  /** A step that does not claim brings the claim or the return nearer. */
  lemma {:induction false} InnerFalls(c: Setup, t: Thread, lock: Option<nat>, word: nat, errors: nat)
    requires Orderly(c, t) && !t.pc.Exit? && !t.pc.Claim?
    ensures Inner(c, Act(c, t, lock, word, errors).t.pc) < Inner(c, t.pc)
  {
    SearchGoesOn(c, 0, ROUNDS);
    match t.pc
    case Scan(i, rounds) =>
      SearchGoesOn(c, i, rounds);
    case Request(i, rounds, tries) =>
      SearchGoesOn(c, i + 1, rounds);
    case Confirm(i, rounds, tries) =>
      SearchGoesOn(c, i + 1, rounds);
    case Look(i, rounds) =>
    case Unlock(i, rounds, got) =>
    case _ =>
    hide Searching, NoTwice, Wanted, Claimed;
  }

  lemma {:induction false} InnerBounded(c: Setup, t: Thread)
    requires Orderly(c, t)
    ensures 0 <= Inner(c, t.pc)
  {
    SearchGoesOn(c, 0, ROUNDS);
    if t.pc.Scan? {
      SearchGoesOn(c, t.pc.i, t.pc.rounds);
    } else if About(t.pc).Some? {
      SearchGoesOn(c, About(t.pc).value + 1, if t.pc.Run? || t.pc.Free? then 0 else t.pc.rounds);
    }
    hide Searching, NoTwice, Wanted, Claimed;
  }

  /** A claim leaves one core less to claim. */
  lemma {:induction false} OpenFalls(c: Setup, t: Thread, lock: Option<nat>, word: nat, errors: nat)
    requires Orderly(c, t)
    ensures Open(c, Act(c, t, lock, word, errors).t) == if t.pc.Claim? then Open(c, t) - 1 else Open(c, t)
  {
    var t' := Act(c, t, lock, word, errors).t;
    if t.pc.Claim? {
      assert c.cores - Claimed(t') == (c.cores - Claimed(t)) - {t.pc.i};
      assert t.pc.i in c.cores - Claimed(t);
    } else {
      assert Claimed(t') == Claimed(t);
    }
    hide NoTwice, Wanted;
  }

  /** More steps than this a thread does not have. */
  function Budget(c: Setup, t: Thread): int {
    Open(c, t) * (Searching(c, 0, ROUNDS) + 5) + Inner(c, t.pc)
  }

  lemma {:induction false} ClaimedInner(c: Setup, t: Thread, lock: Option<nat>, word: nat, errors: nat)
    requires t.pc.Claim?
    ensures Inner(c, Act(c, t, lock, word, errors).t.pc) == Searching(c, 0, ROUNDS) + 4
  {
    hide Searching;
  }

  lemma {:induction false} SumFalls(n: nat, n': nat, w: int, x: int, x': int)
    requires w > 0 && x >= 0 && x' >= 0
    requires (n' == n && x' < x) || (n' == n - 1 && x' < w)
    ensures 0 <= n' * w + x' < n * w + x
  {
    assert (n - 1) * w == n * w - w;
    assert n' * w >= 0;
  }

  /** A step uses up one core, or brings the next claim or the return nearer. */
  lemma {:induction false} PartsFall(c: Setup, t: Thread, lock: Option<nat>, word: nat, errors: nat)
    requires Orderly(c, t) && !t.pc.Exit?
    ensures var t', w := Act(c, t, lock, word, errors).t, Searching(c, 0, ROUNDS) + 5;
            (Open(c, t') == Open(c, t) && Inner(c, t'.pc) < Inner(c, t.pc))
            || (Open(c, t') == Open(c, t) - 1 && Inner(c, t'.pc) < w)
  {
    hide *;
    OpenFalls(c, t, lock, word, errors);
    if t.pc.Claim? {
      ClaimedInner(c, t, lock, word, errors);
    } else {
      InnerFalls(c, t, lock, word, errors);
    }
  }

  lemma {:induction false} BudgetIs(c: Setup, t: Thread)
    ensures Budget(c, t) == Open(c, t) * (Searching(c, 0, ROUNDS) + 5) + Inner(c, t.pc)
  {
    hide Open, Searching, Inner;
  }

  lemma {:induction false} BudgetFalls(c: Setup, t: Thread, lock: Option<nat>, word: nat, errors: nat)
    requires Orderly(c, t) && !t.pc.Exit?
    ensures 0 <= Budget(c, Act(c, t, lock, word, errors).t) < Budget(c, t)
  {
    var t' := Act(c, t, lock, word, errors).t;
    var w := Searching(c, 0, ROUNDS) + 5;
    hide *;
    BudgetIs(c, t);
    BudgetIs(c, t');
    ActOrderly(c, t, lock, word, errors);
    InnerBounded(c, t);
    InnerBounded(c, t');
    PartsFall(c, t, lock, word, errors);
    SearchGoesOn(c, 0, ROUNDS);
    SumFalls(Open(c, t), Open(c, t'), w, Inner(c, t.pc), Inner(c, t'.pc));
  }

  /** How often thread k was scheduled. */
  function Turns(steps: seq<(nat, nat)>, k: nat): nat {
    if steps == [] then 0 else Turns(steps[..|steps| - 1], k) + if steps[|steps| - 1].0 == k then 1 else 0
  }

  /** A thread that has not returned has used up as much of its budget as it had turns. */
  lemma {:induction false} TurnsSpent(c: Setup, ids: seq<nat>, steps: seq<(nat, nat)>, k: nat)
    requires NoTwice(ids) && k < |ids|
    ensures var t := Reached(c, ids, steps).threads[k];
            0 <= Budget(c, t)
            && (!t.pc.Exit? ==> Budget(c, t) + Turns(steps, k) <= Budget(c, Thread(ids[k], Loop, {}, 0, [])))
  {
    if steps == [] {
      assert Reached(c, ids, steps) == Initial(c, ids);
      assert Orderly(c, Reached(c, ids, steps).threads[k]);
      BudgetSound(c, Thread(ids[k], Loop, {}, 0, []));
      hide Budget, Orderly;
    } else {
      var before, j, e := steps[..|steps| - 1], steps[|steps| - 1].0, steps[|steps| - 1].1;
      TurnsSpent(c, ids, before, k);
      var st := Reached(c, ids, before);
      assert Reached(c, ids, steps) == Step(c, st, j, e);
      assert Orderly(c, st.threads[k]);
      assert (j < |ids| ==> Orderly(c, st.threads[j]) && Consistent(st.threads[j], st.lock, st.words));
      hide Budget, Reached, Orderly, Consistent, Inv, Step;
      if j == k {
        StepThread(c, st, k, e);
        var i := About(st.threads[k].pc);
        BudgetTurn(c, st, k, e);
      } else {
        StepOther(c, st, j, e, k);
      }
    }
  }

  lemma {:induction false} BudgetSound(c: Setup, t: Thread)
    requires Orderly(c, t)
    ensures 0 <= Budget(c, t)
  {
    InnerBounded(c, t);
    SearchGoesOn(c, 0, ROUNDS);
    var n, w := Open(c, t), Searching(c, 0, ROUNDS) + 5;
    assert n * w >= 0;
    hide Inner, Searching, Orderly, Open;
  }

  lemma {:induction false} BudgetTurn(c: Setup, st: State, k: nat, errors: nat)
    requires k < |st.threads| && |st.words| == c.maxTest && Orderly(c, st.threads[k])
    requires Consistent(st.threads[k], st.lock, st.words)
    ensures var t, t' := st.threads[k], Step(c, st, k, errors).threads[k];
            0 <= Budget(c, t') && (if t.pc.Exit? then t' == t else Budget(c, t') < Budget(c, t))
  {
    var t, i := st.threads[k], About(st.threads[k].pc);
    assert i.Some? ==> i.value < c.maxTest;
    StepThread(c, st, k, errors);
    var word := if i.Some? then st.words[i.value] else 0;
    assert t.pc.Exit? ==> Act(c, t, st.lock, word, errors).t == t;
    hide Step, Act, Budget, Orderly, Consistent;
    if t.pc.Exit? {
      BudgetSound(c, t);
    } else {
      BudgetFalls(c, t, st.lock, word, errors);
    }
  }

  lemma {:induction false} StepOther(c: Setup, st: State, j: nat, errors: nat, k: nat)
    requires |st.words| == c.maxTest && k < |st.threads| && j != k
    ensures Step(c, st, j, errors).threads[k] == st.threads[k]
  {
    hide Act;
  }

  /** Whatever the others do, a thread returns within a number of its own turns fixed by the setup. */
  lemma {:induction false} EveryThreadReturns(c: Setup, ids: seq<nat>, steps: seq<(nat, nat)>, k: nat)
    requires NoTwice(ids) && k < |ids| && Turns(steps, k) > Budget(c, Thread(ids[k], Loop, {}, 0, []))
    ensures Reached(c, ids, steps).threads[k].pc.Exit?
  {
    TurnsSpent(c, ids, steps, k);
    hide Reached, Budget, Turns;
  }
}
