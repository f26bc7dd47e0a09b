/** Safety of the mailbox over every run, for every interleaving. */
module MailboxSafety {
  import opened Mailbox
  import opened MailboxInv
  import opened MailboxSim

  // ----- the daemon

  /** The daemon's bookkeeping alone. */
  lemma {:induction false} DaemonMoves(st: State)
    requires Inv(st) && !st.daemon.DSetOffset? && !st.daemon.DSetReq? && !st.daemon.DClear?
    ensures Inv(DaemonStep(st))
  {
    var st' := DaemonStep(st);
    assert st'.slots == st.slots;
    forall k | 0 <= k < |st.slots| && Engaged(st.slots[k])
      ensures Bound(st', k)
    {
      assert Bound(st, k);
    }
    forall k | 0 <= k < |st.slots|
      ensures Waiting(st', k)
    {
      assert Waiting(st, k);
    }
    DaemonMovesOn(st);
    hide SlotInv, Bound, Waiting, DaemonInv, DaemonStep;
  }

  lemma {:induction false} DaemonMovesOn(st: State)
    requires Inv(st) && !st.daemon.DSetOffset? && !st.daemon.DSetReq? && !st.daemon.DClear?
    ensures DaemonInv(DaemonStep(st))
  {
    assert DaemonInv(st);
    if st.daemon.DOffset? {
      var i := st.daemon.i;
      assert SlotInv(st.slots[i], i) && Flags(st.slots[i]);
      AskedSlot(st, i);
    }
    hide Inv, SlotInv;
  }

  /** One slot and the daemon have moved. */
  ghost function Moved(st: State, k: nat, t: Slot, d: DaemonPc): State
    requires k < |st.slots|
  {
    State(st.slots[k := t], d)
  }

  lemma {:induction false} Assemble(st: State, k: nat, t: Slot, d: DaemonPc)
    requires Inv(st) && k < |st.slots| && t.prog == st.slots[k].prog && SlotInv(t, k)
    requires forall j | 0 <= j < |st.slots| && Engaged(st.slots[k := t][j]) :: Bound(Moved(st, k, t, d), j)
    requires forall j | 0 <= j < |st.slots| :: Waiting(Moved(st, k, t, d), j)
    requires DaemonInv(Moved(st, k, t, d))
    ensures Inv(Moved(st, k, t, d))
  {
    RolesKept(st, k, t);
    hide SlotInv, Bound, Waiting, DaemonInv, Engaged;
  }

  /** A free target's request word and offset are the daemon's to write. */
  ghost predicate Claiming(s: Slot, t: Slot, i: nat) {
    && !s.remoteReq && (t == s.(remoteOffset := i) || (t == s.(remoteReq := true) && s.remoteOffset == i))
  }

  lemma {:induction false} ClaimedControl(s: Slot, t: Slot, i: nat, k: nat)
    requires Shape(s) && Flags(s) && SimControl(s, k) && Packing(s) && NeverAsks(s) && Claiming(s, t, i)
    ensures Shape(t) && Flags(t) && SimControl(t, k) && Packing(t)
  {
    assert s.next < |s.prog| ==> Current(s).Local?;
    assert NeverAsks(t);
    hide GoodProg, Carries, NeverAsks;
  }

  lemma {:induction false} ClaimedTransfer(s: Slot, t: Slot, i: nat)
    requires Shape(s) && Shape(t) && Transfer(s) && Claiming(s, t, i)
    ensures Transfer(t)
  {
    assert Submitted(t) == Submitted(s);
    hide GoodProg, Submitted;
  }

  lemma {:induction false} ClaimedSlot(s: Slot, t: Slot, i: nat, k: nat)
    requires SlotInv(s, k) && NeverAsks(s) && Claiming(s, t, i)
    ensures SlotInv(t, k)
  {
    assert s.next <= |s.prog|;
    assert s.caller.Check? && Submitted(s) ==> s.cmd == Current(s).Cmd();
    hide Shape, Flags, SimControl, Packing, Transfer, History, NeverAsks, Claiming;
    ClaimedControl(s, t, i, k);
    ClaimedTransfer(s, t, i);
    ClaimedHistory(s, t, i);
  }

  lemma {:induction false} ClaimedHistory(s: Slot, t: Slot, i: nat)
    requires s.next <= |s.prog| && History(s) && Claiming(s, t, i)
    requires s.caller.Check? && Submitted(s) ==> s.cmd == Current(s).Cmd()
    ensures History(t)
  {
    assert SameHistory(s, t);
    HistoryKept(s, t);
  }

  lemma {:induction false} ClaimKeeps(st: State, i: nat, k: nat, t: Slot)
    requires Inv(st) && Claimable(st, i, k) && Claiming(st.slots[k], t, i)
    requires st.daemon == if t.remoteReq then DSetReq(i, k) else DSetOffset(i, k)
    ensures Inv(Moved(st, k, t, if t.remoteReq then DClear(i, k) else DSetReq(i, k)))
  {
    var d := if t.remoteReq then DClear(i, k) else DSetReq(i, k);
    AskedSlot(st, i);
    assert SlotInv(st.slots[k], k) && !ServingRemote(st.slots[k].sim);
    hide Inv, SlotInv, Bound, Waiting, DaemonInv, NeverAsks, RolesDisjoint;
    ClaimedSlot(st.slots[k], t, i, k);
    forall j | 0 <= j < |st.slots| && Engaged(st.slots[k := t][j])
      ensures Bound(Moved(st, k, t, d), j)
    {
      ClaimBound(st, i, k, t, j);
    }
    forall j | 0 <= j < |st.slots|
      ensures Waiting(Moved(st, k, t, d), j)
    {
      ClaimWaiting(st, i, k, t, j);
    }
    ClaimDaemon(st, i, k, t);
    assert t.prog == st.slots[k].prog && k < |st.slots|;
    hide *;
    Assemble(st, k, t, d);
  }

  lemma {:induction false} ClaimDaemon(st: State, i: nat, k: nat, t: Slot)
    requires Claimable(st, i, k) && Claiming(st.slots[k], t, i)
    requires t.remoteReq ==> !st.slots[k].sim.ClearReq?
    ensures DaemonInv(Moved(st, k, t, if t.remoteReq then DClear(i, k) else DSetReq(i, k)))
  {
    hide GoodProg, NeverAsks;
  }

  lemma {:induction false} ClaimBound(st: State, i: nat, k: nat, t: Slot, j: nat)
    requires Inv(st) && Claimable(st, i, k) && Claiming(st.slots[k], t, i) && j < |st.slots|
    requires st.daemon == if t.remoteReq then DSetReq(i, k) else DSetOffset(i, k)
    requires Engaged(st.slots[k := t][j])
    ensures Bound(Moved(st, k, t, if t.remoteReq then DClear(i, k) else DSetReq(i, k)), j)
  {
    if j == k {
      assert SlotInv(st.slots[k], k) && SimControl(st.slots[k], k);
    } else {
      assert Engaged(st.slots[j]) && Bound(st, j);
    }
    hide Inv, SlotInv;
  }

  /** A free target serves nobody. */
  lemma {:induction false} ClaimSees(st: State, i: nat, k: nat, t: Slot)
    requires Inv(st) && Claimable(st, i, k) && Claiming(st.slots[k], t, i)
    ensures var s := st.slots[k];
            !s.remoteReq && !ServingRemote(s.sim) && t.sim == s.sim && t.caller == s.caller && t.next == s.next
            && t.prog == s.prog
  {
    assert SlotInv(st.slots[k], k) && SimControl(st.slots[k], k);
    hide Inv, SlotInv, NeverAsks;
  }

  lemma {:induction false} ClaimEngages(st: State, k: nat, t: Slot, d: DaemonPc, target: nat, j: nat)
    requires k < |st.slots| && !st.slots[k].remoteReq && !ServingRemote(st.slots[k].sim) && t.sim == st.slots[k].sim
    ensures var st' := Moved(st, k, t, d);
            && (EngagedWith(st, target, j) ==> EngagedWith(st', target, j))
            && PrintedBy(st', target, j) == PrintedBy(st, target, j)
  {}

  lemma {:induction false} ClaimWaiting(st: State, i: nat, k: nat, t: Slot, j: nat)
    requires Inv(st) && Claimable(st, i, k) && Claiming(st.slots[k], t, i) && j < |st.slots|
    ensures Waiting(Moved(st, k, t, if t.remoteReq then DClear(i, k) else DSetReq(i, k)), j)
  {
    assert Waiting(st, j);
    ClaimSees(st, i, k, t);
    var d := if t.remoteReq then DClear(i, k) else DSetReq(i, k);
    var st', a := Moved(st, k, t, d), st.slots[j];
    var c := st'.slots[j];
    assert Asked(c) == Asked(a) && (Asked(c) ==> Current(c) == Current(a));
    if Asked(a) {
      var target := Current(a).target;
      ClaimEngages(st, k, t, d, target, j);
    }
    hide Inv, SlotInv, SimControl, Asked, EngagedWith, PrintedBy, Engaged, Claimable, NeverAsks;
  }

  /** The initiator's flag is cleared; from now on only the acknowledgement holds it. */
  lemma {:induction false} DaemonClears(st: State)
    requires Inv(st) && st.daemon.DClear?
    ensures Inv(DaemonStep(st))
  {
    var i, k := st.daemon.i, st.daemon.t;
    assert DaemonInv(st);
    var s := st.slots[i];
    var t, d := s.(remoteFlag := false), NextSlot(|st.slots|, i);
    assert SlotInv(s, i) && Clearing(st, i, k);
    ReleasedSlot(s, i);
    hide SlotInv, Bound, Waiting, Clearing;
    forall j | 0 <= j < |st.slots| && Engaged(st.slots[i := t][j])
      ensures Bound(Moved(st, i, t, d), j)
    {
      assert Engaged(st.slots[j]);
      ClearBound(st, i, k, j);
    }
    forall j | 0 <= j < |st.slots|
      ensures Waiting(Moved(st, i, t, d), j)
    {
      ClearWaiting(st, i, k, j);
    }
    assert DaemonInv(Moved(st, i, t, d));
    assert DaemonStep(st) == Moved(st, i, t, d);
    hide *;
    Assemble(st, i, t, d);
  }

  /** What the daemon's last step starts from. */
  ghost predicate Clearing(st: State, i: nat, k: nat) {
    && i < |st.slots| && k < |st.slots| && st.daemon == DClear(i, k)
    && st.slots[i].remoteFlag && Asked(st.slots[i]) && Current(st.slots[i]).target == k
    && (st.slots[i].remoteCmdValid ==> EngagedWith(st, k, i))
  }

  lemma {:induction false} ClearBound(st: State, i: nat, k: nat, j: nat)
    requires Clearing(st, i, k) && j < |st.slots| && Bound(st, j)
    ensures Bound(Moved(st, i, st.slots[i].(remoteFlag := false), NextSlot(|st.slots|, i)), j)
  {
    hide EngagedWith;
  }

  lemma {:induction false} ClearWaiting(st: State, i: nat, k: nat, j: nat)
    requires Clearing(st, i, k) && j < |st.slots| && Waiting(st, j)
    ensures Waiting(Moved(st, i, st.slots[i].(remoteFlag := false), NextSlot(|st.slots|, i)), j)
  {
    var st' := Moved(st, i, st.slots[i].(remoteFlag := false), NextSlot(|st.slots|, i));
    var a := st.slots[j];
    if Asked(a) {
      var target := Current(a).target;
      assert EngagedWith(st', target, j) == EngagedWith(st, target, j);
      assert PrintedBy(st', target, j) == PrintedBy(st, target, j);
    }
    hide EngagedWith, PrintedBy;
  }

  lemma {:induction false} ReleasedSlot(s: Slot, i: nat)
    requires SlotInv(s, i) && Asked(s) && s.remoteFlag
    ensures SlotInv(s.(remoteFlag := false), i)
  {
    var t := s.(remoteFlag := false);
    assert s.next <= |s.prog|;
    assert NeverAsks(t) == NeverAsks(s);
    ReleasedHistory(s);
    hide GoodProg, Carries, History, NeverAsks;
  }

  lemma {:induction false} ReleasedHistory(s: Slot)
    requires s.next <= |s.prog| && History(s) && Asked(s)
    ensures History(s.(remoteFlag := false))
  {
    var t := s.(remoteFlag := false);
    assert SameHistory(s, t);
    HistoryKept(s, t);
  }

  lemma {:induction false} DaemonPreserves(st: State)
    requires Inv(st)
    ensures Inv(DaemonStep(st))
  {
    if st.daemon.DSetOffset? || st.daemon.DSetReq? {
      var i, k := st.daemon.i, st.daemon.t;
      assert DaemonInv(st);
      var s := st.slots[k];
      var t := if st.daemon.DSetReq? then s.(remoteReq := true) else s.(remoteOffset := i);
      ClaimKeeps(st, i, k, t);
      hide Inv;
    } else if st.daemon.DClear? {
      DaemonClears(st);
    } else {
      DaemonMoves(st);
    }
  }

  // ----- runs

  /** A slot after InitMe, with a program for its test thread. */
  function Fresh(prog: seq<Op>): Slot {
    Slot(false, Success, 0, seq(CELLS, _ => 0), false, false, false, 0, 0,
         prog, 0, Idle, PollValid, [], [], [], [], [], [])
  }

  function Initial(progs: seq<seq<Op>>): State {
    State(seq(|progs|, i requires 0 <= i < |progs| => Fresh(progs[i])), DFlag(0))
  }

  ghost predicate Admissible(progs: seq<seq<Op>>) {
    && (forall i, k | 0 <= i < |progs| && 0 <= k < |progs[i]| :: progs[i][k].WellFormed())
    && forall i, k | 0 <= i < |progs| && 0 <= k < |progs[i]| && progs[i][k].RemotePrint? ::
         && progs[i][k].target < |progs|
         && forall j | 0 <= j < |progs[progs[i][k].target]| :: progs[progs[i][k].target][j].Local?
  }

  lemma {:induction false} FreshSlot(prog: seq<Op>, i: nat)
    requires GoodProg(prog)
    ensures SlotInv(Fresh(prog), i)
  {
    assert Locals(prog, 0) == [] && Prints(prog, 0) == [];
  }

  lemma {:induction false} InitialInv(progs: seq<seq<Op>>)
    requires Admissible(progs)
    ensures Inv(Initial(progs))
  {
    var st := Initial(progs);
    forall i | 0 <= i < |progs|
      ensures SlotInv(st.slots[i], i)
    {
      FreshSlot(progs[i], i);
    }
    assert RolesDisjoint(st) by {
      forall i, k | 0 <= i < |st.slots| && 0 <= k < |st.slots[i].prog| && st.slots[i].prog[k].RemotePrint?
        ensures st.slots[i].prog[k].target < |st.slots| && NeverAsks(st.slots[st.slots[i].prog[k].target])
      {
        assert progs[i][k].RemotePrint?;
      }
    }
    hide SlotInv, RolesDisjoint;
  }

  lemma {:induction false} CallerActs(st: State, i: nat)
    requires Inv(st) && Shaped(st)
    ensures Inv(Step(st, Caller(i))) && |Step(st, Caller(i)).slots| == |st.slots|
  {
    assert i < |st.slots| && st.slots[i].next < |st.slots[i].prog| ==>
             |st.slots[i].cells| == CELLS && Current(st.slots[i]).WellFormed();
    hide Inv, CallerStep, Current, Op.WellFormed;
    if i < |st.slots| && st.slots[i].next < |st.slots[i].prog| {
      CallerPreserves(st, i);
    }
  }

  lemma {:induction false} SimActs(st: State, i: nat, reply: seq<int>)
    requires Inv(st) && Shaped(st)
    ensures Inv(Step(st, Sim(i, reply))) && |Step(st, Sim(i, reply)).slots| == |st.slots|
  {
    hide Inv, SimStep, Op.WellFormed, OwnStep;
    if i < |st.slots| && |reply| == PARS {
      if OwnStep(st.slots[i].sim) {
        OwnPreserves(st, i, reply);
      } else {
        ForeignPreserves(st, i, reply);
      }
    }
  }

  lemma {:induction false} StepPreserves(st: State, a: Action)
    requires Inv(st)
    ensures Shaped(st) && Inv(Step(st, a)) && |Step(st, a).slots| == |st.slots|
  {
    InvShaped(st);
    hide Inv, CallerStep, SimStep, DaemonStep, Op.WellFormed;
    match a
    case Caller(i) =>
      CallerActs(st, i);
    case Sim(i, reply) =>
      SimActs(st, i, reply);
    case Daemon =>
      DaemonPreserves(st);
  }

  /** The state after any interleaving of steps. */
  ghost function Run(progs: seq<seq<Op>>, steps: seq<Action>): (st: State)
    requires Admissible(progs)
    ensures Inv(st) && |st.slots| == |progs|
  {
    if steps == [] then
      InitialInv(progs);
      Initial(progs)
    else
      var before := Run(progs, steps[..|steps| - 1]);
      StepPreserves(before, steps[|steps| - 1]);
      Step(before, steps[|steps| - 1])
  }

  /** What one slot's histories say about its local commands. */
  ghost predicate LocalExact(s: Slot) {
    && s.next <= |s.prog|
    && var ops := Locals(s.prog, Begun(s));
    && |s.sent| == |ops| && (forall k | 0 <= k < |ops| :: Conforms(s.sent[k], ops[k]))
    && (s.executed == s.sent || (|s.sent| > 0 && s.executed == s.sent[..|s.sent| - 1] && s.caller.WaitDone?))
    && (Submitted(s) && !s.caller.WaitDone? && Current(s).Cmd() != PRINTF ==>
          |s.replies| == |s.sent| > 0 && |s.cells| == CELLS && s.cells[2..2 + PARS] == s.replies[|s.replies| - 1])
    && |s.got| == |Locals(s.prog, s.next)| <= |s.replies|
    && (forall k | 0 <= k < |s.got| ::
          k < |ops| && Answers(s.got[k], ops[k], s.replies[k]) && |s.got[k]| == |ops[k].results|)
    && s.errCnt == 0
  }

  lemma {:induction false} ReplyIsLast(s: Slot, i: nat)
    requires SlotInv(s, i) && Submitted(s) && !s.caller.WaitDone? && Current(s).Cmd() != PRINTF
    ensures |s.replies| == |s.sent| > 0 && s.cells[2..2 + PARS] == s.replies[|s.replies| - 1]
  {
    assert !s.cmdValid && s.cmd == Current(s).Cmd();
    hide GoodProg, Conforms, Answers, Packing, SimControl, Locals, Prints;
  }

  lemma {:induction false} LocalIsExact(s: Slot, i: nat)
    requires SlotInv(s, i)
    ensures LocalExact(s)
  {
    assert s.cmdValid ==> s.caller.WaitDone?;
    if Submitted(s) && !s.caller.WaitDone? && Current(s).Cmd() != PRINTF {
      ReplyIsLast(s, i);
    }
    assert s.next <= |s.prog| && s.errCnt == 0 && |s.cells| == CELLS && History(s);
    hide Shape, Flags, SimControl, Packing, Transfer, Locals, Prints, Begun, Submitted, Executed, Conforms, Answers;
  }

  /**
   Local commands, in every interleaving: those submitted are the program's, in order, with its
   arguments; those executed are the submitted ones, each once, at most the last still open;
   while the thread is past its wait none is open and the last reply is in the parameter words;
   what it read back are the replies.
   */
  lemma {:induction false} LocalCommandsExact(progs: seq<seq<Op>>, steps: seq<Action>, i: nat)
    requires Admissible(progs) && i < |progs|
    ensures LocalExact(Run(progs, steps).slots[i])
  {
    var st := Run(progs, steps);
    assert SlotInv(st.slots[i], i);
    LocalIsExact(st.slots[i], i);
    hide *;
  }

  /**
   Print requests for other slots, in every interleaving: those raised are the program's, in
   order; those printed are the raised ones, by the slot named, each once; the requester goes
   on only when its request has been printed and acknowledged.
   */
  lemma {:induction false} RemotePrintsExact(progs: seq<seq<Op>>, steps: seq<Action>, i: nat)
    requires Admissible(progs) && i < |progs|
    ensures var s := Run(progs, steps).slots[i];
            && s.next <= |s.prog|
            && s.asked == Prints(s.prog, if Asked(s) then s.next + 1 else s.next)
            && (s.printed == s.asked || (|s.asked| > 0 && s.printed == s.asked[..|s.asked| - 1]))
            && (!s.caller.RWaitValid? ==> s.printed == s.asked)
            && (Asked(s) && s.caller.Check? ==> s.printed == s.asked && !s.remoteCmdValid && !s.remoteFlag)
  {
    var st := Run(progs, steps);
    var s := st.slots[i];
    assert SlotInv(s, i) && Waiting(st, i);
    hide Inv, Run, Locals, Prints, Conforms, Answers, GoodProg, SimControl, Packing, Transfer;
  }

  /** A slot engaged in a request serves a requester that is waiting for it; no two serve the same one. */
  lemma {:induction false} OneServerEach(progs: seq<seq<Op>>, steps: seq<Action>, t: nat, u: nat)
    requires Admissible(progs) && t < |progs| && u < |progs|
    ensures var st := Run(progs, steps);
            && (Engaged(st.slots[t]) ==>
                  && st.slots[t].remoteOffset < |progs|
                  && var r := st.slots[st.slots[t].remoteOffset];
                  Asked(r) && r.caller.RWaitValid? && r.remoteCmdValid && Current(r).target == t)
            && (t != u && Engaged(st.slots[t]) && Engaged(st.slots[u]) ==>
                  st.slots[t].remoteOffset != st.slots[u].remoteOffset)
  {
    var st := Run(progs, steps);
    if Engaged(st.slots[t]) {
      assert Bound(st, t);
      var i := st.slots[t].remoteOffset;
      assert SlotInv(st.slots[i], i);
    }
    if Engaged(st.slots[u]) {
      assert Bound(st, u);
    }
    hide Inv, Run;
  }
}
