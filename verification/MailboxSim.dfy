/** The mailbox invariant under the steps of the simulators and of the daemon. */
module MailboxSim {
  import opened Mailbox
  import opened MailboxInv

  /** Steps that touch the simulator's own slot only. */
  ghost predicate OwnStep(p: SimPc) {
    !((p.Print? || p.AckStatus? || p.AckValid?) && p.remote)
  }

  /** What a simulator at GetCmd is about to find. */
  ghost predicate Sees(slots: seq<Slot>, p: SimPc) {
    p.GetCmd? ==> p.ptr < |slots| && (p.remote ==> slots[p.ptr].cmd == PRINTF)
  }

  ghost predicate AllCells(slots: seq<Slot>) {
    forall k | 0 <= k < |slots| :: |slots[k].cells| == CELLS
  }

  /** Where a simulator's own step takes it, given the command found. */
  function NextSim(s: Slot, i: nat, cmd: nat, reply: seq<int>): SimPc
    requires |s.cells| == CELLS
  {
    match s.sim
    case PollValid => PollReq(s.cmdValid)
    case PollReq(v) => if s.remoteReq then GetOffset else if v then GetCmd(false, i) else PollValid
    case GetOffset => GetCmd(true, s.remoteOffset)
    case GetCmd(remote, ptr) => if cmd == PRINTF then Print(remote, ptr) else Load(ptr, cmd, [])
    case Print(_, ptr) => AckStatus(false, ptr)
    case Load(ptr, c, inBox) => if |inBox| < CELLS then Load(ptr, c, inBox + [s.cells[|inBox|]]) else Store(reply, 0)
    case Store(r, k) => if k < PARS && k < |r| then Store(r, k + 1) else AckStatus(false, i)
    case AckStatus(remote, ptr) => AckValid(remote, ptr)
    case _ => PollValid
  }

  /** Steps that execute the command. */
  ghost predicate Executing(p: SimPc) {
    (p.Print? && !p.remote) || (p.Load? && |p.inBox| >= CELLS)
  }

  /** The own-slot step as a function of the slot and of the command found. */
  ghost function Own(s: Slot, i: nat, cmd: nat, reply: seq<int>): Slot
    requires |s.cells| == CELLS && |reply| == PARS
  {
    var p := s.sim;
    s.(sim := NextSim(s, i, cmd, reply),
       cells := if p.Store? && p.k < PARS && p.k < |p.reply| then s.cells[2 + p.k := p.reply[p.k]] else s.cells,
       replies := if Executing(p) then s.replies + [if p.Load? then reply else []] else s.replies,
       executed := if Executing(p) then s.executed + [if p.Load? then Msg(p.cmd, p.inBox) else Msg(PRINTF, s.cells)]
                   else s.executed,
       cmdStatus := if p.AckStatus? then Success else s.cmdStatus,
       cmdValid := s.cmdValid && !p.AckValid?,
       remoteReq := s.remoteReq && !p.ClearReq?)
  }

  lemma {:induction false} OwnIsSimStep(slots: seq<Slot>, i: nat, reply: seq<int>)
    requires i < |slots| && |reply| == PARS && AllCells(slots)
    requires SimControl(slots[i], i) && OwnStep(slots[i].sim) && Sees(slots, slots[i].sim)
    ensures var cmd := if slots[i].sim.GetCmd? then slots[slots[i].sim.ptr].cmd else 0;
            SimStep(slots, i, reply) == slots[i := Own(slots[i], i, cmd, reply)]
  {}

  /** A foreign command is a print; the slot's own command is the one just read. */
  ghost predicate Found(s: Slot, cmd: nat) {
    s.sim.GetCmd? ==> cmd == if s.sim.remote then PRINTF else s.cmd
  }

  lemma {:induction false} OwnControl(s: Slot, i: nat, cmd: nat, reply: seq<int>)
    requires |s.cells| == CELLS && Shape(s) && SimControl(s, i) && OwnStep(s.sim) && |reply| == PARS && Found(s, cmd)
    ensures SimControl(Own(s, i, cmd, reply), i)
  {
    hide GoodProg;
  }

  lemma {:induction false} OwnShape(s: Slot, i: nat, cmd: nat, reply: seq<int>)
    requires |s.cells| == CELLS && Shape(s) && Flags(s) && SimControl(s, i) && Packing(s)
    requires OwnStep(s.sim) && |reply| == PARS && Found(s, cmd)
    ensures var t := Own(s, i, cmd, reply);
            && Shape(t) && Flags(t) && Packing(t) && t.caller == s.caller && t.next == s.next && t.prog == s.prog
            && t.remoteFlag == s.remoteFlag && t.remoteCmdValid == s.remoteCmdValid && t.remoteOffset == s.remoteOffset
            && t.asked == s.asked && t.printed == s.printed && t.cmd == s.cmd && t.sent == s.sent && t.got == s.got
  {
    assert s.sim.Store? ==> s.caller.WaitDone?;
    hide GoodProg, NeverAsks, Carries, NextSim, Executing, SimControl;
  }

  /** Copying a cell in, storing a cell of the reply, and the end of the storing. */
  lemma {:induction false} CopyTransfer(s: Slot, t: Slot)
    requires Shape(s) && Shape(t) && Transfer(s) && s.cmdValid && s.sim.Load? && |s.sim.inBox| < CELLS && Flags(s)
    requires t == s.(sim := Load(s.sim.ptr, s.sim.cmd, s.sim.inBox + [s.cells[|s.sim.inBox|]]))
    ensures Transfer(t)
  {
    assert s.cells[..|s.sim.inBox| + 1] == s.cells[..|s.sim.inBox|] + [s.cells[|s.sim.inBox|]];
    hide GoodProg, Shape, Flags;
  }

  lemma {:induction false} StoreTransfer(s: Slot, t: Slot)
    requires Shape(s) && Shape(t) && Transfer(s) && s.cmdValid && s.sim.Store? && s.sim.k < PARS
    requires s.sim.k < |s.sim.reply|
    requires |s.cells| == CELLS
    requires t == s.(cells := s.cells[2 + s.sim.k := s.sim.reply[s.sim.k]], sim := Store(s.sim.reply, s.sim.k + 1))
    ensures Transfer(t)
  {
    var r, k := s.sim.reply, s.sim.k;
    assert t.cells[2..2 + k + 1] == s.cells[2..2 + k] + [r[k]] == r[..k] + [r[k]] == r[..k + 1];
    hide GoodProg, Shape;
  }

  lemma {:induction false} StoredTransfer(s: Slot, t: Slot, i: nat)
    requires Shape(s) && Shape(t) && Transfer(s) && s.cmdValid && s.sim.Store?
    requires !(s.sim.k < PARS && s.sim.k < |s.sim.reply|)
    requires t == s.(sim := AckStatus(false, i))
    ensures Transfer(t)
  {
    assert s.sim.reply[..s.sim.k] == s.sim.reply;
    hide GoodProg, Shape;
  }

  lemma {:induction false} StartTransfer(s: Slot, i: nat, cmd: nat, reply: seq<int>)
    requires |s.cells| == CELLS && Shape(s) && Flags(s) && SimControl(s, i) && Transfer(s)
    requires OwnStep(s.sim) && |reply| == PARS && Found(s, cmd)
    requires !s.sim.Store? && !s.sim.Load? && Shape(Own(s, i, cmd, reply))
    ensures Transfer(Own(s, i, cmd, reply))
  {
    var t := Own(s, i, cmd, reply);
    assert ServingLocal(s.sim) ==> s.cmdValid && s.caller.WaitDone?;
    assert !t.sim.Store? && t.cells == s.cells;
    assert t.sim.Load? ==> t.sim.cmd == s.cmd != PRINTF && t.sim.inBox == [];
    assert t.sim.Print? && !t.sim.remote ==> s.cmd == PRINTF;
    assert Executed(t.sim) && !Executed(s.sim) ==> s.sim.Print? && |t.replies| > 0;
    assert !(Executed(t.sim) && !Executed(s.sim)) ==> t.replies == s.replies;
    assert t.cmdValid && !Executed(t.sim) ==> s.cmdValid && !Executed(s.sim);
    assert !t.cmdValid && s.cmdValid ==> Executed(s.sim);
    hide GoodProg, NeverAsks, NextSim, SimControl, Flags, Shape, Found;
  }

  lemma {:induction false} LoadedTransfer(s: Slot, t: Slot, reply: seq<int>)
    requires Shape(s) && Shape(t) && Flags(s) && Transfer(s) && s.cmdValid
    requires s.sim.Load? && |s.sim.inBox| >= CELLS && |reply| == PARS
    requires t == s.(sim := Store(reply, 0), replies := s.replies + [reply],
                     executed := s.executed + [Msg(s.sim.cmd, s.sim.inBox)])
    ensures Transfer(t)
  {
    assert s.caller.WaitDone? && t.caller.WaitDone?;
    hide GoodProg, Shape, Flags;
  }

  lemma {:induction false} OwnTransfer(s: Slot, i: nat, cmd: nat, reply: seq<int>)
    requires |s.cells| == CELLS && Shape(s) && Flags(s) && SimControl(s, i) && Transfer(s)
    requires OwnStep(s.sim) && |reply| == PARS && Found(s, cmd)
    requires Shape(Own(s, i, cmd, reply))
    ensures Transfer(Own(s, i, cmd, reply))
  {
    var t := Own(s, i, cmd, reply);
    assert ServingLocal(s.sim) ==> s.cmdValid;
    hide Shape, Flags, SimControl, Transfer, Found, OwnStep;
    if s.sim.Load? {
      if |s.sim.inBox| < CELLS {
        CopyTransfer(s, t);
      } else {
        LoadedTransfer(s, t, reply);
      }
    } else if s.sim.Store? {
      if s.sim.k < PARS && s.sim.k < |s.sim.reply| {
        StoreTransfer(s, t);
      } else {
        StoredTransfer(s, t, i);
      }
    } else {
      StartTransfer(s, i, cmd, reply);
    }
  }

  lemma {:induction false} OwnIsSame(s: Slot, i: nat, cmd: nat, reply: seq<int>)
    requires |s.cells| == CELLS && s.next <= |s.prog| && Shape(s) && Flags(s) && SimControl(s, i)
    requires OwnStep(s.sim) && |reply| == PARS && Found(s, cmd) && !Executing(s.sim)
    requires s.caller.Check? && Submitted(s) ==> s.cmd == Current(s).Cmd()
    ensures SameHistory(s, Own(s, i, cmd, reply))
  {
    var t := Own(s, i, cmd, reply);
    assert t.executed == s.executed && t.replies == s.replies;
    assert t.cmdValid && !Executed(t.sim) <==> s.cmdValid && !Executed(s.sim);
    hide NextSim, GoodProg, NeverAsks, Shape, Flags, SimControl;
  }

  lemma {:induction false} OwnHistory(s: Slot, i: nat, cmd: nat, reply: seq<int>)
    requires |s.cells| == CELLS && s.next <= |s.prog| && Shape(s) && Flags(s) && SimControl(s, i) && History(s)
    requires OwnStep(s.sim) && |reply| == PARS && Found(s, cmd) && !Executing(s.sim)
    ensures History(Own(s, i, cmd, reply))
  {
    assert s.caller.Check? && Submitted(s) ==> s.cmd == Current(s).Cmd();
    hide *;
    OwnIsSame(s, i, cmd, reply);
    HistoryKept(s, Own(s, i, cmd, reply));
  }

  /** What executing the command adds to the histories. */
  ghost predicate Executes(s: Slot, t: Slot) {
    && |s.sent| > 0 && s.executed == s.sent[..|s.sent| - 1]
    && t.executed == s.sent && t.sent == s.sent && t.got == s.got && t.asked == s.asked && t.prog == s.prog
    && t.next == s.next && t.caller == s.caller && t.caller.WaitDone? && s.cmdValid && t.cmdValid
    && !Executed(s.sim) && Executed(t.sim)
    && |t.replies| == |s.replies| + 1 && t.replies[..|s.replies|] == s.replies
    && (s.sent[|s.sent| - 1].cmd != PRINTF ==> |t.replies[|s.replies|]| == PARS)
  }

  lemma {:induction false} Execution(s: Slot, i: nat, cmd: nat, reply: seq<int>)
    requires |s.cells| == CELLS && Shape(s) && Flags(s) && SimControl(s, i) && Transfer(s) && |s.sent| > 0
    requires |reply| == PARS && Executing(s.sim)
    requires s.executed == s.sent[..|s.sent| - 1]
    ensures Executes(s, Own(s, i, cmd, reply))
  {
    assert s.sim.Load? ==> s.sim.inBox == s.cells;
    assert s.sent == s.sent[..|s.sent| - 1] + [s.sent[|s.sent| - 1]];
    hide GoodProg, NeverAsks;
  }

  lemma {:induction false} ExecuteLogs(sent: seq<Msg>, executed: seq<Msg>, replies: seq<seq<int>>, got: seq<seq<int>>,
                                       ops: seq<Op>, finished: nat, r: seq<int>)
    requires Logs(sent, executed, replies, got, ops, finished, true)
    requires sent[|sent| - 1].cmd != PRINTF ==> |r| == PARS
    requires |ops| > 0 && ops[|ops| - 1].Local?
    ensures Logs(sent, sent, replies + [r], got, ops, finished, false)
  {
    assert Conforms(sent[|sent| - 1], ops[|ops| - 1]);
    assert sent[|sent| - 1].cmd == ops[|ops| - 1].cmd;
    hide Conforms, Answers;
  }

  lemma {:induction false} HistoryExecuted(s: Slot, t: Slot)
    requires s.next <= |s.prog| && History(s) && Executes(s, t)
    ensures History(t)
  {
    assert Begun(t) == Begun(s) && Asked(t) == Asked(s) && !t.caller.Read? && !t.caller.Check?;
    assert s.cmdValid && !Executed(s.sim) && t.cmdValid && Executed(t.sim);
    var ops, last := Locals(s.prog, Begun(s)), |s.sent| - 1;
    assert Logs(s.sent, s.executed, s.replies, s.got, ops, |Locals(s.prog, s.next)|, true);
    assert |s.replies| == last;
    var r := t.replies[last];
    assert t.replies == s.replies + [r];
    ExecuteLogs(s.sent, s.executed, s.replies, s.got, ops, |Locals(s.prog, s.next)|, r);
    hide Logs, Begun, Submitted, Asked, Executed, Locals, Prints, Answers;
  }

  lemma {:induction false} ExecuteHistory(s: Slot, i: nat, cmd: nat, reply: seq<int>)
    requires |s.cells| == CELLS && s.next <= |s.prog|
    requires Shape(s) && Flags(s) && SimControl(s, i) && Transfer(s) && History(s)
    requires |reply| == PARS && Executing(s.sim)
    ensures History(Own(s, i, cmd, reply))
  {
    assert s.cmdValid && !Executed(s.sim) && s.next <= |s.prog| && |s.cells| == CELLS;
    assert |s.sent| > 0 && s.executed == s.sent[..|s.sent| - 1];
    hide *;
    Execution(s, i, cmd, reply);
    HistoryExecuted(s, Own(s, i, cmd, reply));
  }

  lemma {:induction false} OwnSlot(s: Slot, i: nat, cmd: nat, reply: seq<int>)
    requires |s.cells| == CELLS && SlotInv(s, i) && OwnStep(s.sim) && |reply| == PARS && Found(s, cmd)
    ensures SlotInv(Own(s, i, cmd, reply), i)
  {
    assert s.next <= |s.prog|;
    hide GoodProg, Own, Shape, Flags, SimControl, Packing, Transfer, History, OwnStep, Found;
    OwnControl(s, i, cmd, reply);
    OwnShape(s, i, cmd, reply);
    OwnTransfer(s, i, cmd, reply);
    if Executing(s.sim) {
      ExecuteHistory(s, i, cmd, reply);
    } else {
      OwnHistory(s, i, cmd, reply);
    }
  }

  // ----- the rest of the system under a simulator's own step

  /** The simulator has printed another slot's request and not released it. */
  ghost predicate HasPrinted(p: SimPc) {
    (p.AckStatus? || p.AckValid?) && p.remote
  }

  /** The slot a simulator is serving, where it has read it. */
  ghost predicate ServesOnly(p: SimPc, i: nat) {
    && (p.GetCmd? && p.remote ==> p.ptr == i)
    && (p.Print? && p.remote ==> p.ptr == i)
    && (p.AckStatus? && p.remote ==> p.ptr == i)
    && (p.AckValid? && p.remote ==> p.ptr == i)
  }

  /** What the rest of the system sees of a simulator's own step. */
  ghost predicate Private(s: Slot, t: Slot) {
    && t.caller == s.caller && t.next == s.next && t.prog == s.prog
    && t.remoteFlag == s.remoteFlag && t.remoteCmdValid == s.remoteCmdValid && t.remoteOffset == s.remoteOffset
    && t.asked == s.asked && t.printed == s.printed && (t.remoteReq ==> s.remoteReq)
    && Engaged(t) == Engaged(s)
    && (Engaged(s) ==> HasPrinted(t.sim) == HasPrinted(s.sim))
    && (Engaged(s) && ServesOnly(s.sim, s.remoteOffset) ==> ServesOnly(t.sim, s.remoteOffset))
  }

  lemma {:induction false} OwnIsPrivate(s: Slot, i: nat, cmd: nat, reply: seq<int>)
    requires |s.cells| == CELLS && Shape(s) && Flags(s) && SimControl(s, i) && Packing(s)
    requires OwnStep(s.sim) && |reply| == PARS && Found(s, cmd)
    ensures Private(s, Own(s, i, cmd, reply))
  {
    var t := Own(s, i, cmd, reply);
    assert !s.sim.ClearReq? && s.remoteReq ==> t.remoteReq;
    assert s.sim.ClearReq? ==> !Engaged(t);
    assert t.sim.ClearReq? == false;
    assert Engaged(s) ==> HasPrinted(t.sim) == HasPrinted(s.sim);
    assert ServesOnly(s.sim, s.remoteOffset) ==> ServesOnly(t.sim, s.remoteOffset);
    hide NextSim, Shape, Flags, SimControl, Packing, HasPrinted, ServesOnly;
  }

  lemma {:induction false} PrivateKeeps(st: State, i: nat, t: Slot)
    requires Inv(st) && i < |st.slots| && Private(st.slots[i], t) && SlotInv(t, i)
    ensures Inv(st.(slots := st.slots[i := t]))
  {
    var st' := st.(slots := st.slots[i := t]);
    RolesKept(st, i, t);
    assert forall k | 0 <= k < |st.slots| :: SlotInv(st'.slots[k], k);
    forall k | 0 <= k < |st.slots| && Engaged(st'.slots[k])
      ensures Bound(st', k)
    {
      PrivateBound(st, i, t, k);
    }
    forall k | 0 <= k < |st.slots|
      ensures Waiting(st', k)
    {
      PrivateWaiting(st, i, t, k);
    }
    PrivateDaemon(st, i, t);
    hide SlotInv, Bound, Waiting, DaemonInv, Private, RolesDisjoint, Engaged;
  }

  lemma {:induction false} PrivateBound(st: State, i: nat, t: Slot, k: nat)
    requires Inv(st) && i < |st.slots| && k < |st.slots| && Private(st.slots[i], t)
    requires Engaged(st.slots[i := t][k])
    ensures Bound(st.(slots := st.slots[i := t]), k)
  {
    var st' := st.(slots := st.slots[i := t]);
    var a, c := st.slots[k], st'.slots[k];
    assert Engaged(a) && Bound(st, k);
    var r := a.remoteOffset;
    assert c.remoteOffset == r && r < |st.slots|;
    var b, d := st.slots[r], st'.slots[r];
    assert Asked(d) && Current(d) == Current(b) && d.remoteCmdValid && d.remoteFlag == b.remoteFlag;
    assert ServesOnly(a.sim, r) && ServesOnly(c.sim, r);
    hide Inv, Engaged, Asked, Private, HasPrinted;
  }

  lemma {:induction false} PrivateEngaged(st: State, i: nat, t: Slot, target: nat, k: nat)
    requires i < |st.slots| && Private(st.slots[i], t)
    ensures var st' := st.(slots := st.slots[i := t]);
            EngagedWith(st', target, k) == EngagedWith(st, target, k)
            && PrintedBy(st', target, k) == PrintedBy(st, target, k)
  {
    hide ServesOnly;
  }

  lemma {:induction false} PrivateWaiting(st: State, i: nat, t: Slot, k: nat)
    requires Inv(st) && i < |st.slots| && k < |st.slots| && Private(st.slots[i], t)
    ensures Waiting(st.(slots := st.slots[i := t]), k)
  {
    var a, b := st.slots[k], st.slots[i := t][k];
    assert Waiting(st, k);
    if Asked(a) {
      PrivateEngaged(st, i, t, Current(a).target, k);
    }
    assert Asked(b) == Asked(a) && b.next == a.next && b.prog == a.prog && b.asked == a.asked && b.printed == a.printed;
    assert b.remoteFlag == a.remoteFlag && b.remoteCmdValid == a.remoteCmdValid;
    hide Inv, EngagedWith, PrintedBy, Private, Asked, Engaged, HasPrinted;
  }

  lemma {:induction false} PrivateDaemon(st: State, i: nat, t: Slot)
    requires Inv(st) && i < |st.slots| && Private(st.slots[i], t)
    ensures DaemonInv(st.(slots := st.slots[i := t]))
  {
    assert DaemonInv(st);
    if st.daemon.DClear? {
      PrivateEngaged(st, i, t, st.daemon.t, st.daemon.i);
    }
    var st' := st.(slots := st.slots[i := t]);
    forall k | 0 <= k < |st.slots|
      ensures Alike(st.slots[k], st'.slots[k])
    {
      assert Private(st.slots[i], t);
    }
    hide *;
    AlikeDaemon(st, st');
  }

  /** Equal in what the daemon looks at, except that a request may have been cleared. */
  ghost predicate Alike(a: Slot, b: Slot) {
    && Asked(b) == Asked(a) && b.next == a.next && b.prog == a.prog && b.remoteFlag == a.remoteFlag
    && b.remoteCmdValid == a.remoteCmdValid && b.remoteOffset == a.remoteOffset && (b.remoteReq ==> a.remoteReq)
  }

  lemma {:induction false} AlikeDaemon(st: State, st': State)
    requires DaemonInv(st) && st'.daemon == st.daemon && |st'.slots| == |st.slots|
    requires forall k | 0 <= k < |st.slots| :: Alike(st.slots[k], st'.slots[k])
    requires st.daemon.DClear? ==>
             EngagedWith(st', st.daemon.t, st.daemon.i) == EngagedWith(st, st.daemon.t, st.daemon.i)
    ensures DaemonInv(st')
  {
    hide EngagedWith, Asked;
  }

  /** A simulator at GetCmd for another slot finds a print command there. */
  lemma {:induction false} ForeignIsPrint(st: State, i: nat)
    requires Inv(st) && i < |st.slots|
    ensures Sees(st.slots, st.slots[i].sim)
  {
    var s := st.slots[i];
    assert SlotInv(s, i);
    if s.sim.GetCmd? && s.sim.remote {
      assert Engaged(s) && Bound(st, i);
      var a := st.slots[s.sim.ptr];
      assert SlotInv(a, s.sim.ptr);
      assert Flags(a) && Packing(a) && Busy(a) && CmdInPlace(a.caller);
    }
    hide Inv, SlotInv, Transfer, History;
  }

  lemma {:induction false} OwnPreserves(st: State, i: nat, reply: seq<int>)
    requires Inv(st) && i < |st.slots| && |reply| == PARS && OwnStep(st.slots[i].sim)
    ensures AllCells(st.slots) && Inv(st.(slots := SimStep(st.slots, i, reply)))
  {
    var s := st.slots[i];
    assert SlotInv(s, i);
    InvShaped(st);
    assert AllCells(st.slots);
    ForeignIsPrint(st, i);
    var cmd := if s.sim.GetCmd? then st.slots[s.sim.ptr].cmd else 0;
    assert Found(s, cmd) && Shape(s) && Flags(s) && SimControl(s, i) && Packing(s);
    hide *;
    OwnIsSimStep(st.slots, i, reply);
    OwnSlot(s, i, cmd, reply);
    OwnIsPrivate(s, i, cmd, reply);
    PrivateKeeps(st, i, Own(s, i, cmd, reply));
  }

  // ----- printing and acknowledging another slot's request

  /** Equal but for what other slots' requests leave in a slot. */
  ghost predicate Nearly(s: Slot, t: Slot) {
    && t == s.(sim := t.sim, cmdStatus := t.cmdStatus, remoteCmdValid := t.remoteCmdValid, printed := t.printed)
    && (t.sim == s.sim || (ServingRemote(s.sim) && ServingRemote(t.sim)))
    && (t.remoteCmdValid ==> s.remoteCmdValid)
  }

  lemma {:induction false} NearlyControl(s: Slot, t: Slot, i: nat)
    requires Shape(s) && Flags(s) && SimControl(s, i) && Packing(s) && Nearly(s, t)
    ensures Shape(t) && Flags(t) && SimControl(t, i) && Packing(t)
  {
    hide GoodProg, Carries;
  }

  lemma {:induction false} NearlyTransfer(s: Slot, t: Slot)
    requires Shape(s) && Transfer(s) && Nearly(s, t) && Shape(t)
    ensures Transfer(t)
  {
    assert Submitted(t) == Submitted(s) && Executed(t.sim) == Executed(s.sim);
    hide GoodProg, Submitted;
  }

  lemma {:induction false} NearlyHistory(s: Slot, t: Slot)
    requires s.next <= |s.prog| && History(s) && Nearly(s, t)
    ensures History(t)
  {
    assert SameHistory(s, t);
    HistoryKept(s, t);
  }

  lemma {:induction false} NearlySlot(s: Slot, t: Slot, i: nat)
    requires SlotInv(s, i) && Nearly(s, t)
    ensures SlotInv(t, i)
  {
    assert s.next <= |s.prog|;
    hide Shape, Flags, SimControl, Packing, Transfer, History, Nearly;
    NearlyControl(s, t, i);
    NearlyTransfer(s, t);
    NearlyHistory(s, t);
  }

  /** The served slot after the step: printed; and released if the server is past the acknowledgement. */
  ghost predicate Served(a: Slot, b: Slot, p: SimPc, ptr: nat) {
    && b == a.(cmdStatus := b.cmdStatus, remoteCmdValid := b.remoteCmdValid, printed := a.asked)
    && (b.remoteCmdValid ==> a.remoteCmdValid)
    && (if b.remoteCmdValid then p == AckStatus(true, ptr) || p == AckValid(true, ptr) else p == ClearReq)
  }

  ghost function After(st: State, i: nat, p: SimPc, ptr: nat, b: Slot): State
    requires i < |st.slots| && ptr < |st.slots|
  {
    st.(slots := st.slots[i := st.slots[i].(sim := p)][ptr := b])
  }

  /** The server itself stays bound until it acknowledges. */
  lemma {:induction false} ServerBound(st: State, i: nat, p: SimPc, b: Slot)
    requires i < |st.slots| && Bound(st, i)
    requires Served(st.slots[st.slots[i].remoteOffset], b, p, st.slots[i].remoteOffset) && b.remoteCmdValid
    ensures Bound(After(st, i, p, st.slots[i].remoteOffset, b), i)
  {
    var r := st.slots[i].remoteOffset;
    var d := After(st, i, p, r, b).slots[r];
    assert d == b && Asked(b) && Current(b).target == i && b.remoteFlag == st.slots[r].remoteFlag;
    hide Asked;
  }

  lemma {:induction false} OtherBound(st: State, i: nat, p: SimPc, b: Slot, k: nat)
    requires i < |st.slots| && Bound(st, i) && k < |st.slots| && Bound(st, k) && k != i
    ensures Bound(After(st, i, p, st.slots[i].remoteOffset, b), k) || k == st.slots[i].remoteOffset
  {
    var r, st' := st.slots[k].remoteOffset, After(st, i, p, st.slots[i].remoteOffset, b);
    if k != st.slots[i].remoteOffset {
      assert st'.slots[k] == st.slots[k];
      assert r != st.slots[i].remoteOffset;
      var d := st'.slots[r];
      assert d == st.slots[r].(sim := d.sim);
      assert Asked(d) && Current(d) == Current(st.slots[r]);
      hide Asked, After;
    }
  }

  /** A slot engaged in a request is nobody's requester. */
  lemma {:induction false} NotServed(st: State, i: nat, k: nat)
    requires Inv(st) && i < |st.slots| && k < |st.slots| && Bound(st, i) && Engaged(st.slots[k])
    ensures k != st.slots[i].remoteOffset
  {
    assert SlotInv(st.slots[k], k) && SimControl(st.slots[k], k);
    assert NeverAsks(st.slots[k]);
    hide Inv, SlotInv, SimControl;
  }

  lemma {:induction false} ForeignBound(st: State, i: nat, p: SimPc, b: Slot, k: nat)
    requires Inv(st) && i < |st.slots| && k < |st.slots|
    requires Engaged(st.slots[i]) && ServingRemote(st.slots[i].sim)
    requires st.slots[i].remoteOffset < |st.slots| && st.slots[i].remoteOffset != i
    requires Served(st.slots[st.slots[i].remoteOffset], b, p, st.slots[i].remoteOffset)
    requires Engaged(After(st, i, p, st.slots[i].remoteOffset, b).slots[k])
    ensures Bound(After(st, i, p, st.slots[i].remoteOffset, b), k)
  {
    var ptr := st.slots[i].remoteOffset;
    assert Bound(st, i) && Engaged(st.slots[k]) && Bound(st, k);
    if k == i {
      assert b.remoteCmdValid;
      hide *;
      ServerBound(st, i, p, b);
    } else {
      NotServed(st, i, k);
      hide *;
      OtherBound(st, i, p, b, k);
    }
  }

  /** Only the engagement of i with its initiator changes. */
  lemma {:induction false} ForeignEngaged(st: State, i: nat, p: SimPc, b: Slot, target: nat, k: nat)
    requires i < |st.slots|
    requires Engaged(st.slots[i]) && ServingRemote(st.slots[i].sim)
    requires st.slots[i].remoteOffset < |st.slots| && st.slots[i].remoteOffset != i
    requires Served(st.slots[st.slots[i].remoteOffset], b, p, st.slots[i].remoteOffset)
    ensures var ptr := st.slots[i].remoteOffset;
            var st' := After(st, i, p, ptr, b);
            && (target != i || k != ptr ==>
                  EngagedWith(st', target, k) == EngagedWith(st, target, k)
                  && PrintedBy(st', target, k) == PrintedBy(st, target, k))
            && (EngagedWith(st', i, ptr) <==> b.remoteCmdValid)
            && (PrintedBy(st', i, ptr) <==> b.remoteCmdValid)
  {}

  /** The served slot itself. */
  lemma {:induction false} ServedWaiting(st: State, i: nat, p: SimPc, b: Slot)
    requires i < |st.slots| && Bound(st, i) && Engaged(st.slots[i]) && ServingRemote(st.slots[i].sim)
    requires st.slots[i].remoteOffset < |st.slots| && st.slots[i].remoteOffset != i
    requires Served(st.slots[st.slots[i].remoteOffset], b, p, st.slots[i].remoteOffset)
    requires Waiting(st, st.slots[i].remoteOffset)
    ensures Waiting(After(st, i, p, st.slots[i].remoteOffset, b), st.slots[i].remoteOffset)
  {
    var ptr := st.slots[i].remoteOffset;
    var a, st' := st.slots[ptr], After(st, i, p, ptr, b);
    assert st'.slots[ptr] == b;
    assert Asked(a) && a.remoteCmdValid && Current(a).target == i && Asked(b) && Current(b).target == i;
    assert |a.asked| > 0;
    ForeignEngaged(st, i, p, b, i, ptr);
    hide EngagedWith, PrintedBy, Engaged, After, ServingRemote, Asked, Bound;
  }

  lemma {:induction false} OthersWaiting(st: State, i: nat, p: SimPc, b: Slot, k: nat)
    requires i < |st.slots| && Engaged(st.slots[i]) && ServingRemote(st.slots[i].sim)
    requires st.slots[i].remoteOffset < |st.slots| && st.slots[i].remoteOffset != i
    requires Served(st.slots[st.slots[i].remoteOffset], b, p, st.slots[i].remoteOffset)
    requires k < |st.slots| && k != st.slots[i].remoteOffset && Waiting(st, k)
    ensures Waiting(After(st, i, p, st.slots[i].remoteOffset, b), k)
  {
    var ptr, a := st.slots[i].remoteOffset, st.slots[k];
    var st' := After(st, i, p, ptr, b);
    var c := st'.slots[k];
    assert c == a.(sim := c.sim);
    assert Asked(c) == Asked(a) && (Asked(c) ==> Current(c) == Current(a));
    if Asked(a) {
      ForeignEngaged(st, i, p, b, Current(a).target, k);
    }
    hide EngagedWith, PrintedBy, Engaged, After, Served, ServingRemote, Asked;
  }

  lemma {:induction false} ForeignWaiting(st: State, i: nat, p: SimPc, b: Slot, k: nat)
    requires Inv(st) && i < |st.slots| && k < |st.slots|
    requires Engaged(st.slots[i]) && ServingRemote(st.slots[i].sim)
    requires st.slots[i].remoteOffset < |st.slots| && st.slots[i].remoteOffset != i
    requires Served(st.slots[st.slots[i].remoteOffset], b, p, st.slots[i].remoteOffset)
    ensures Waiting(After(st, i, p, st.slots[i].remoteOffset, b), k)
  {
    assert Bound(st, i) && Waiting(st, k);
    hide *;
    if k == st.slots[i].remoteOffset {
      ServedWaiting(st, i, p, b);
    } else {
      OthersWaiting(st, i, p, b, k);
    }
  }

  lemma {:induction false} ForeignOthers(st: State, i: nat, p: SimPc, b: Slot)
    requires i < |st.slots| && st.slots[i].remoteOffset < |st.slots| && st.slots[i].remoteOffset != i
    requires Served(st.slots[st.slots[i].remoteOffset], b, p, st.slots[i].remoteOffset)
    requires Engaged(st.slots[i]) && ServingRemote(st.slots[i].sim)
    ensures var ptr := st.slots[i].remoteOffset;
            var st' := After(st, i, p, ptr, b);
            && (forall k | 0 <= k < |st.slots| && k != ptr :: Alike(st.slots[k], st'.slots[k]))
            && Alike(st.slots[ptr], b.(remoteCmdValid := st.slots[ptr].remoteCmdValid))
  {
    hide Engaged;
  }

  lemma {:induction false} ForeignDaemon(st: State, i: nat, p: SimPc, b: Slot)
    requires Inv(st) && i < |st.slots|
    requires Engaged(st.slots[i]) && ServingRemote(st.slots[i].sim)
    requires st.slots[i].remoteOffset < |st.slots| && st.slots[i].remoteOffset != i
    requires Served(st.slots[st.slots[i].remoteOffset], b, p, st.slots[i].remoteOffset)
    ensures DaemonInv(After(st, i, p, st.slots[i].remoteOffset, b))
  {
    var ptr := st.slots[i].remoteOffset;
    var st' := After(st, i, p, ptr, b);
    assert Bound(st, i) && DaemonInv(st);
    if st.daemon.DClear? {
      ForeignEngaged(st, i, p, b, st.daemon.t, st.daemon.i);
    }
    ForeignOthers(st, i, p, b);
    assert st.daemon.DOffset? || st.daemon.DReq? || st.daemon.DSetOffset? || st.daemon.DSetReq? ==> st.daemon.i != ptr;
    hide Inv, Bound, DaemonInv, Alike, Engaged, ServingRemote;
    ForeignAlike(st, st', ptr, i);
  }

  lemma {:induction false} ForeignAlike(st: State, st': State, ptr: nat, i: nat)
    requires DaemonInv(st) && st'.daemon == st.daemon && |st'.slots| == |st.slots| && ptr < |st.slots|
    requires forall k | 0 <= k < |st.slots| && k != ptr :: Alike(st.slots[k], st'.slots[k])
    requires Alike(st.slots[ptr], st'.slots[ptr].(remoteCmdValid := st.slots[ptr].remoteCmdValid))
    requires st'.slots[ptr].remoteCmdValid ==> st.slots[ptr].remoteCmdValid
    requires st.daemon.DOffset? || st.daemon.DReq? || st.daemon.DSetOffset? || st.daemon.DSetReq? ==> st.daemon.i != ptr
    requires st.daemon.DClear? ==>
               EngagedWith(st', st.daemon.t, st.daemon.i) == EngagedWith(st, st.daemon.t, st.daemon.i)
               || !st'.slots[st.daemon.i].remoteCmdValid || EngagedWith(st', st.daemon.t, st.daemon.i)
    ensures DaemonInv(st')
  {
    hide EngagedWith;
  }

  lemma {:induction false} ForeignKeeps(st: State, i: nat, p: SimPc, b: Slot)
    requires Inv(st) && i < |st.slots|
    requires Engaged(st.slots[i]) && ServingRemote(st.slots[i].sim)
    requires st.slots[i].remoteOffset < |st.slots| && st.slots[i].remoteOffset != i
    requires Served(st.slots[st.slots[i].remoteOffset], b, p, st.slots[i].remoteOffset)
    ensures Inv(After(st, i, p, st.slots[i].remoteOffset, b))
  {
    var st' := After(st, i, p, st.slots[i].remoteOffset, b);
    assert |st'.slots| == |st.slots|;
    ForeignSlots(st, i, p, b);
    hide SlotInv, Served, ServingRemote, After, RolesDisjoint;
    forall k | 0 <= k < |st.slots| && Engaged(st'.slots[k])
      ensures Bound(st', k)
    {
      ForeignBound(st, i, p, b, k);
    }
    forall k | 0 <= k < |st.slots|
      ensures Waiting(st', k)
    {
      ForeignWaiting(st, i, p, b, k);
    }
    ForeignDaemon(st, i, p, b);
    hide Bound, Waiting, DaemonInv, Engaged;
  }

  lemma {:induction false} ForeignSlots(st: State, i: nat, p: SimPc, b: Slot)
    requires Inv(st) && i < |st.slots|
    requires Engaged(st.slots[i]) && ServingRemote(st.slots[i].sim)
    requires st.slots[i].remoteOffset < |st.slots| && st.slots[i].remoteOffset != i
    requires Served(st.slots[st.slots[i].remoteOffset], b, p, st.slots[i].remoteOffset)
    ensures var st' := After(st, i, p, st.slots[i].remoteOffset, b);
            RolesDisjoint(st') && forall k | 0 <= k < |st.slots| :: SlotInv(st'.slots[k], k)
  {
    var ptr := st.slots[i].remoteOffset;
    var a, s := st.slots[ptr], st.slots[i];
    assert SlotInv(s, i) && SlotInv(a, ptr);
    NearlySlot(s, s.(sim := p), i);
    NearlySlot(a, b, ptr);
    RolesKept(st, i, s.(sim := p));
    RolesKept(st.(slots := st.slots[i := s.(sim := p)]), ptr, b);
    hide SlotInv, RolesDisjoint;
  }

  lemma {:induction false} ForeignStep(slots: seq<Slot>, i: nat, reply: seq<int>, ptr: nat)
    requires i < |slots| && ptr < |slots| && ptr != i && |reply| == PARS && AllCells(slots)
    requires !OwnStep(slots[i].sim) && ServesOnly(slots[i].sim, ptr) && slots[ptr].remoteCmdValid
    requires slots[ptr].asked ==
             slots[ptr].printed + if slots[i].sim.Print? then [(i, slots[ptr].cells[STR])] else []
    ensures var after := SimStep(slots, i, reply);
            && |after| == |slots|
            && after == slots[i := slots[i].(sim := after[i].sim)][ptr := after[ptr]]
            && Served(slots[ptr], after[ptr], after[i].sim, ptr)
  {}

  lemma {:induction false} ForeignFacts(st: State, i: nat)
    requires Inv(st) && i < |st.slots| && !OwnStep(st.slots[i].sim)
    ensures var s := st.slots[i];
            && AllCells(st.slots) && Engaged(s) && ServingRemote(s.sim)
            && s.remoteOffset < |st.slots| && s.remoteOffset != i && ServesOnly(s.sim, s.remoteOffset)
            && var a := st.slots[s.remoteOffset];
            a.remoteCmdValid && a.asked == a.printed + if s.sim.Print? then [(i, a.cells[STR])] else []
  {
    var s := st.slots[i];
    assert SlotInv(s, i) && Engaged(s) && Bound(st, i);
    InvShaped(st);
    var ptr := s.remoteOffset;
    var a := st.slots[ptr];
    assert SlotInv(a, ptr) && Waiting(st, ptr);
    assert PrintedBy(st, i, ptr) <==> HasPrinted(s.sim);
    if s.sim.Print? {
      LastAsked(a, i);
    }
    hide Inv, SlotInv, PrintedBy, History, Transfer, Packing;
  }

  /** Printing, setting the status and releasing, for another slot. */
  lemma {:induction false} ForeignPreserves(st: State, i: nat, reply: seq<int>)
    requires Inv(st) && i < |st.slots| && |reply| == PARS && !OwnStep(st.slots[i].sim)
    ensures AllCells(st.slots) && Inv(st.(slots := SimStep(st.slots, i, reply)))
  {
    ForeignFacts(st, i);
    assert forall k | 0 <= k < |st.slots| :: |st.slots[k].cells| == CELLS;
    hide *;
    var ptr := st.slots[i].remoteOffset;
    ForeignStep(st.slots, i, reply, ptr);
    var after := SimStep(st.slots, i, reply);
    AfterIs(st, i, after[i].sim, ptr, after[ptr]);
    ForeignKeeps(st, i, after[i].sim, after[ptr]);
  }

  lemma {:induction false} AfterIs(st: State, i: nat, p: SimPc, ptr: nat, b: Slot)
    requires i < |st.slots| && ptr < |st.slots|
    ensures After(st, i, p, ptr, b) == st.(slots := st.slots[i := st.slots[i].(sim := p)][ptr := b])
  {}

  lemma {:induction false} TextInPlace(a: Slot)
    requires Shape(a) && Packing(a) && Asked(a) && a.caller.RWaitValid?
    ensures a.cells[STR] == Current(a).str
  {
    assert Current(a).Args()[0] == (STR, Current(a).str);
    hide GoodProg;
  }

  /** The request on top of the list is for the slot the initiator named, with the text in its cell. */
  lemma {:induction false} LastAsked(a: Slot, i: nat)
    requires Shape(a) && Packing(a) && History(a) && Asked(a) && a.caller.RWaitValid? && Current(a).target == i
    ensures |a.asked| > 0 && a.asked == a.asked[..|a.asked| - 1] + [(i, a.cells[STR])]
  {
    LocalsStep(a.prog, a.next);
    TextInPlace(a);
    hide Shape, Packing, Logs, Locals, Prints, Answers, Submitted;
  }
}
