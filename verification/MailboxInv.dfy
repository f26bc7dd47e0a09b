/** The invariant of the mailbox protocol, and its preservation by every step. */
module MailboxInv {
  import opened Mailbox

  /** The local commands among the first n operations, in order. */
  ghost function Locals(prog: seq<Op>, n: nat): (ops: seq<Op>)
    requires n <= |prog|
    ensures forall k | 0 <= k < |ops| :: ops[k].Local?
  {
    if n == 0 then [] else Locals(prog, n - 1) + if prog[n - 1].Local? then [prog[n - 1]] else []
  }

  /** The remote print requests among the first n operations, as (slot asked, text). */
  ghost function Prints(prog: seq<Op>, n: nat): seq<(nat, int)>
    requires n <= |prog|
  {
    if n == 0 then []
    else Prints(prog, n - 1) + if prog[n - 1].RemotePrint? then [(prog[n - 1].target, prog[n - 1].str)] else []
  }

  ghost predicate Carries(op: Op, cells: seq<int>, n: nat)
    requires n <= |op.Args()| && op.WellFormed() && |cells| == CELLS
  {
    forall j | 0 <= j < n :: cells[op.Args()[j].0] == op.Args()[j].1
  }

  /** The message holds the command and every argument of the operation. */
  ghost predicate Conforms(m: Msg, op: Op) {
    op.WellFormed() && |m.cells| == CELLS && m.cmd == op.Cmd() && Carries(op, m.cells, |op.Args()|)
  }

  /** The values read back are those of the reply. */
  ghost predicate Answers(vals: seq<int>, op: Op, reply: seq<int>) {
    op.Local? && op.WellFormed() && |vals| <= |op.results| &&
    (op.cmd != PRINTF ==> |reply| == PARS && forall j | 0 <= j < |vals| :: vals[j] == reply[op.results[j] - 2])
  }

  // ----- where the test thread stands

  ghost predicate Busy(s: Slot) { s.next < |s.prog| && !s.caller.Idle? }

  ghost predicate OnRemote(s: Slot) { s.next < |s.prog| && Current(s).RemotePrint? }

  /** The current local command has been submitted. */
  ghost predicate Submitted(s: Slot) {
    s.next < |s.prog| && Current(s).Local? && (s.caller.WaitDone? || s.caller.Check? || s.caller.Read?)
  }

  /** The current remote request has been raised. */
  ghost predicate Asked(s: Slot) {
    OnRemote(s) && (s.caller.RWaitValid? || s.caller.RWaitFlag? || s.caller.Check?)
  }

  /** The simulator is serving its own slot. */
  ghost predicate ServingLocal(p: SimPc) {
    match p
    case PollReq(v) => v
    case GetCmd(remote, _) => !remote
    case Print(remote, _) => !remote
    case Load(_, _, _) => true
    case Store(_, _) => true
    case AckStatus(remote, _) => !remote
    case AckValid(remote, _) => !remote
    case _ => false
  }

  /** The simulator has executed the command of its own slot. */
  ghost predicate Executed(p: SimPc) {
    p.Store? || (p.AckStatus? && !p.remote) || (p.AckValid? && !p.remote)
  }

  /** The simulator is serving another slot. */
  ghost predicate ServingRemote(p: SimPc) {
    p.GetOffset? || (p.GetCmd? && p.remote) || (p.Print? && p.remote) || (p.AckStatus? && p.remote)
    || (p.AckValid? && p.remote) || p.ClearReq?
  }

  // ----- one slot

  ghost predicate NeverAsks(s: Slot) {
    forall k | 0 <= k < |s.prog| :: s.prog[k].Local?
  }

  ghost predicate GoodProg(prog: seq<Op>) {
    forall k | 0 <= k < |prog| :: prog[k].WellFormed()
  }

  ghost predicate Shape(s: Slot) {
    && s.next <= |s.prog| && |s.cells| == CELLS && GoodProg(s.prog) && s.errCnt == 0
    && (!s.caller.Idle? ==> s.next < |s.prog|)
    && (s.caller.Write? ==> s.caller.j <= |Current(s).Args()|)
  }

  /** The thread's flags against its program counter. */
  ghost predicate Flags(s: Slot) {
    var c, remote := s.caller, OnRemote(s);
    && (c.SetOffset? || c.SetFlag? || c.RClear? || c.RFlag? || c.RValid? || c.RWaitValid? || c.RWaitFlag? ==> remote)
    && (c.SetValid? || c.WaitDone? || c.Read? ==> !remote)
    && (s.remoteFlag ==> remote && !c.Idle? && !c.SetOffset? && !c.SetFlag? && !c.Check?)
    && (remote && (c.Write? || c.SetStatus? || c.SetCmd? || c.TestFlag? || c.RFlag? || c.RValid? || c.RClear?)
        ==> s.remoteFlag)
    && (s.remoteCmdValid ==> c.RWaitValid?)
    && (remote && !c.Idle? && !c.SetOffset? && !c.Check? ==> s.remoteOffset == Current(s).target)
    && (s.cmdValid ==> c.WaitDone?)
  }

  /** The simulator's program counter against the flags. */
  ghost predicate SimControl(s: Slot, i: nat) {
    && (ServingLocal(s.sim) ==> s.cmdValid)
    && (ServingRemote(s.sim) ==> s.remoteReq)
    && (s.remoteReq ==> NeverAsks(s))
    && (s.sim.GetCmd? && !s.sim.remote ==> s.sim.ptr == i)
    && (s.sim.Print? && !s.sim.remote ==> s.sim.ptr == i)
    && (s.sim.Load? ==> s.sim.ptr == i && |s.sim.inBox| <= CELLS)
    && (s.sim.AckStatus? && !s.sim.remote ==> s.sim.ptr == i)
    && (s.sim.AckValid? && !s.sim.remote ==> s.sim.ptr == i)
  }

  /** From here to the acknowledgement all arguments are in their cells. */
  ghost predicate ArgsInPlace(c: CallerPc) {
    c.SetStatus? || c.SetCmd? || c.TestFlag? || c.SetValid? || c.RClear? || c.RFlag? || c.RValid? || c.RWaitValid?
    || c.RWaitFlag?
  }

  ghost predicate CmdInPlace(c: CallerPc) {
    c.TestFlag? || c.SetValid? || c.WaitDone? || c.RClear? || c.RFlag? || c.RValid? || c.RWaitValid? || c.RWaitFlag?
  }

  /** The thread's side of a transfer: arguments and command code. */
  ghost predicate Packing(s: Slot)
    requires Shape(s)
  {
    Busy(s) ==>
      && (s.caller.Write? ==> Carries(Current(s), s.cells, s.caller.j))
      && (ArgsInPlace(s.caller) ==> Carries(Current(s), s.cells, |Current(s).Args()|))
      && (CmdInPlace(s.caller) ==> s.cmd == Current(s).Cmd())
  }

  /** The simulator's side: what it has copied, what it has stored. */
  ghost predicate Transfer(s: Slot)
    requires Shape(s)
  {
    && (s.cmdValid && !Executed(s.sim) ==> |s.sent| > 0 && s.sent[|s.sent| - 1] == Msg(s.cmd, s.cells))
    && (s.sim.Load? ==> s.sim.cmd == s.cmd && s.cmd != PRINTF && |s.sim.inBox| <= CELLS
                        && s.sim.inBox == s.cells[..|s.sim.inBox|])
    && (s.sim.Print? && !s.sim.remote ==> s.cmd == PRINTF)
    && (s.sim.Store? ==> |s.sim.reply| == PARS && s.sim.k <= PARS && |s.replies| > 0
                         && s.replies[|s.replies| - 1] == s.sim.reply
                         && s.cells[2..2 + s.sim.k] == s.sim.reply[..s.sim.k])
    && (ReplyInPlace(s) ==>
          |s.replies| > 0 && (s.cmd != PRINTF ==> s.cells[2..2 + PARS] == s.replies[|s.replies| - 1]))
  }

  /** The reply to the current command is in the parameter words. */
  ghost predicate ReplyInPlace(s: Slot) {
    (Executed(s.sim) && !s.sim.Store?) || (Submitted(s) && !s.cmdValid)
  }

  /** Operations finished, and the current one if it is a submitted local command. */
  ghost function Begun(s: Slot): (n: nat)
    requires s.next <= |s.prog|
    ensures n <= |s.prog|
  {
    if Submitted(s) then s.next + 1 else s.next
  }

  /**
   The logs against the local commands begun (`ops`) and the number finished: what has been submitted,
   executed, answered and read back; `open` says that the last one is not yet executed.
   */
  ghost predicate Logs(sent: seq<Msg>, executed: seq<Msg>, replies: seq<seq<int>>, got: seq<seq<int>>,
                       ops: seq<Op>, finished: nat, open: bool) {
    && |sent| == |ops| && (forall k | 0 <= k < |ops| :: Conforms(sent[k], ops[k]))
    && (open ==> |sent| > 0)
    && executed == (if open then sent[..|sent| - 1] else sent)
    && |replies| == |executed| && |got| == finished <= |replies|
    && (forall k | 0 <= k < |got| ::
          ops[k].Local? && Answers(got[k], ops[k], replies[k]) && |got[k]| == |ops[k].results|)
    && (forall k | 0 <= k < |replies| :: ops[k].Local? && (ops[k].cmd != PRINTF ==> |replies[k]| == PARS))
  }

  ghost predicate History(s: Slot)
    requires s.next <= |s.prog|
  {
    var ops, finished := Locals(s.prog, Begun(s)), |Locals(s.prog, s.next)|;
    && Logs(s.sent, s.executed, s.replies, s.got, ops, finished, s.cmdValid && !Executed(s.sim))
    && (s.cmdValid ==> |s.sent| > 0)
    && (s.caller.Read? && Submitted(s) ==>
          |s.got| < |s.replies| && s.cmd == Current(s).Cmd() && Answers(s.caller.vals, Current(s), s.replies[|s.got|]))
    && (s.caller.Check? && Submitted(s) ==> s.cmd == Current(s).Cmd())
    && s.asked == Prints(s.prog, if Asked(s) then s.next + 1 else s.next)
  }

  ghost predicate SlotInv(s: Slot, i: nat) {
    Shape(s) && Flags(s) && SimControl(s, i) && Packing(s) && Transfer(s) && History(s)
  }

  // ----- slots against each other

  /** Slot t has taken on a request and not yet acknowledged it. */
  ghost predicate Engaged(s: Slot) { s.remoteReq && !s.sim.ClearReq? }

  /** The initiator of the request slot t is engaged with is waiting for exactly that. */
  ghost predicate Bound(st: State, t: nat)
    requires t < |st.slots|
  {
    var s := st.slots[t];
    var i := s.remoteOffset;
    && i < |st.slots| && i != t
    && Asked(st.slots[i]) && Current(st.slots[i]).target == t
    && st.slots[i].remoteCmdValid
    && (st.slots[i].remoteFlag ==> st.daemon == DClear(i, t))
    && (s.sim.GetCmd? && s.sim.remote ==> s.sim.ptr == i)
    && (s.sim.Print? && s.sim.remote ==> s.sim.ptr == i)
    && (s.sim.AckStatus? && s.sim.remote ==> s.sim.ptr == i)
    && (s.sim.AckValid? && s.sim.remote ==> s.sim.ptr == i)
  }

  /** Slot t has printed the request of slot i but not released it. */
  ghost predicate PrintedBy(st: State, t: nat, i: nat) {
    && t < |st.slots| && Engaged(st.slots[t]) && st.slots[t].remoteOffset == i
    && ((st.slots[t].sim.AckStatus? && st.slots[t].sim.remote) || (st.slots[t].sim.AckValid? && st.slots[t].sim.remote))
  }

  ghost predicate EngagedWith(st: State, t: nat, i: nat) {
    t < |st.slots| && Engaged(st.slots[t]) && st.slots[t].remoteOffset == i
  }

  /** A waiting initiator is either unclaimed, or claimed by its target; its print log is exact. */
  ghost predicate Waiting(st: State, i: nat)
    requires i < |st.slots|
  {
    var s := st.slots[i];
    if s.remoteCmdValid && Asked(s) then
      && (!s.remoteFlag ==> EngagedWith(st, Current(s).target, i))
      && |s.asked| > 0
      && s.printed == if PrintedBy(st, Current(s).target, i) then s.asked else s.asked[..|s.asked| - 1]
    else
      s.printed == s.asked
  }

  /** The daemon acts on facts that cannot have changed since it read them. */
  ghost predicate DaemonInv(st: State) {
    var n := |st.slots|;
    match st.daemon
    case DFlag(i) => i < n || n == 0
    case DValid(i) => i < n && st.slots[i].remoteFlag
    case DOffset(i) => i < n && st.slots[i].remoteFlag && st.slots[i].remoteCmdValid
    case DReq(i, t) => Claimable(st, i, t)
    case DSetOffset(i, t) => Claimable(st, i, t) && !st.slots[t].remoteReq
    case DSetReq(i, t) => Claimable(st, i, t) && !st.slots[t].remoteReq && st.slots[t].remoteOffset == i
    case DClear(i, t) =>
      && i < n && t < n && st.slots[i].remoteFlag && Asked(st.slots[i]) && Current(st.slots[i]).target == t
      && (st.slots[i].remoteCmdValid ==> EngagedWith(st, t, i))
  }

  ghost predicate Claimable(st: State, i: nat, t: nat) {
    && i < |st.slots| && t < |st.slots| && t != i
    && st.slots[i].remoteFlag && st.slots[i].remoteCmdValid && Asked(st.slots[i]) && Current(st.slots[i]).target == t
  }

  /** Every slot asked to print exists and never asks others itself. */
  ghost predicate RolesDisjoint(st: State) {
    forall i, k | 0 <= i < |st.slots| && 0 <= k < |st.slots[i].prog| && st.slots[i].prog[k].RemotePrint? ::
      st.slots[i].prog[k].target < |st.slots| && NeverAsks(st.slots[st.slots[i].prog[k].target])
  }

  ghost predicate Inv(st: State) {
    && RolesDisjoint(st)
    && (forall i | 0 <= i < |st.slots| :: SlotInv(st.slots[i], i))
    && (forall t | 0 <= t < |st.slots| :: Engaged(st.slots[t]) ==> Bound(st, t))
    && (forall i | 0 <= i < |st.slots| :: Waiting(st, i))
    && DaemonInv(st)
  }

  // ----- preservation: the test thread

  lemma {:induction false} LocalsStep(prog: seq<Op>, n: nat)
    requires n < |prog|
    ensures prog[n].Local? ==>
            Locals(prog, n + 1) == Locals(prog, n) + [prog[n]] && Prints(prog, n + 1) == Prints(prog, n)
    ensures prog[n].RemotePrint? ==>
              Locals(prog, n + 1) == Locals(prog, n)
              && Prints(prog, n + 1) == Prints(prog, n) + [(prog[n].target, prog[n].str)]
  {}

  /** Where the thread's step takes it. */
  ghost function NextPc(s: Slot): CallerPc
    requires s.next < |s.prog| && |s.cells| == CELLS && Current(s).WellFormed()
  {
    var op := Current(s);
    match s.caller
    case Idle => if op.RemotePrint? then SetOffset else Write(0)
    case SetOffset => if op.RemotePrint? then SetFlag else SetOffset
    case SetFlag => Write(0)
    case Write(j) => if j < |op.Args()| then Write(j + 1) else SetStatus
    case SetStatus => SetCmd
    case SetCmd => TestFlag
    case TestFlag => if s.remoteFlag then RClear else SetValid
    case SetValid => WaitDone
    case WaitDone => if s.cmdValid then WaitDone else Check
    case RClear => RFlag
    case RFlag => RValid
    case RValid => RWaitValid
    case RWaitValid => if s.remoteCmdValid then RWaitValid else RWaitFlag
    case RWaitFlag => if s.remoteFlag then RWaitValid else Check
    case Check => if op.Local? then Read([]) else Idle
    case Read(vals) =>
      if op.Local? && |vals| < |op.results| then Read(vals + [s.cells[op.results[|vals|]]]) else Idle
  }

  /** The thread's step, field by field. */
  ghost function ByField(s: Slot): Slot
    requires s.next < |s.prog| && |s.cells| == CELLS && Current(s).WellFormed()
  {
    var op, c := Current(s), s.caller;
    var done := (c.Check? && !op.Local?) || (c.Read? && !(op.Local? && |c.vals| < |op.results|));
    s.(caller := NextPc(s),
       remoteOffset := if c.SetOffset? && op.RemotePrint? then op.target else s.remoteOffset,
       remoteFlag := s.remoteFlag || c.SetFlag? || c.RFlag?,
       cells := if c.Write? && c.j < |op.Args()| then s.cells[op.Args()[c.j].0 := op.Args()[c.j].1] else s.cells,
       cmdStatus := if c.SetStatus? then Pending else s.cmdStatus,
       cmd := if c.SetCmd? then op.Cmd() else s.cmd,
       cmdValid := (s.cmdValid || c.SetValid?) && !c.RClear?,
       sent := if c.SetValid? then s.sent + [Msg(s.cmd, s.cells)] else s.sent,
       remoteCmdValid := s.remoteCmdValid || c.RValid?,
       asked := if c.RValid? then s.asked + [(s.remoteOffset, s.cells[STR])] else s.asked,
       errCnt := if c.Check? && s.cmdStatus != Success && s.cmdValid then s.errCnt + 1 else s.errCnt,
       next := if done then s.next + 1 else s.next,
       got := if done && c.Read? then s.got + [c.vals] else s.got)
  }

  ghost predicate Packs(c: CallerPc) {
    c.SetOffset? || c.SetFlag? || c.Write? || c.SetStatus? || c.SetCmd?
  }

  lemma {:induction false} WriteIsByField(s: Slot)
    requires s.next < |s.prog| && |s.cells| == CELLS && Current(s).WellFormed() && s.caller.Write?
    ensures CallerStep(s) == ByField(s)
  {
    hide Op.Args, Op.Cmd, Op.WellFormed;
  }

  lemma {:induction false} PackIsByField(s: Slot)
    requires s.next < |s.prog| && |s.cells| == CELLS && Current(s).WellFormed() && Packs(s.caller) && !s.caller.Write?
    ensures CallerStep(s) == ByField(s)
  {
    hide Op.Args, Op.Cmd, Op.WellFormed;
  }

  lemma {:induction false} WaitIsByField(s: Slot)
    requires s.next < |s.prog| && |s.cells| == CELLS && Current(s).WellFormed() && !Packs(s.caller)
    ensures CallerStep(s) == ByField(s)
  {
    hide Op.Args, Op.Cmd, Op.WellFormed;
  }

  lemma {:induction false} StepIsByField(s: Slot)
    requires s.next < |s.prog| && |s.cells| == CELLS && Current(s).WellFormed()
    ensures CallerStep(s) == ByField(s)
  {
    hide *;
    if s.caller.Write? {
      WriteIsByField(s);
    } else if Packs(s.caller) {
      PackIsByField(s);
    } else {
      WaitIsByField(s);
    }
  }

  lemma {:induction false} CallerShape(s: Slot)
    requires Shape(s) && Flags(s) && s.next < |s.prog|
    ensures Shape(CallerStep(s))
  {
    assert Current(s).WellFormed();
    hide GoodProg;
  }

  lemma {:induction false} CallerFlags(s: Slot)
    requires Shape(s) && Flags(s) && s.next < |s.prog|
    ensures Flags(CallerStep(s))
  {
    assert Current(s).WellFormed();
    hide GoodProg;
  }

  lemma {:induction false} CallerSim(s: Slot, i: nat)
    requires Shape(s) && Flags(s) && SimControl(s, i) && s.next < |s.prog|
    ensures SimControl(CallerStep(s), i)
  {
    assert Current(s).WellFormed();
    hide GoodProg;
  }

  lemma {:induction false} CarriesNext(op: Op, cells: seq<int>, n: nat)
    requires op.WellFormed() && |cells| == CELLS && n < |op.Args()| && Carries(op, cells, n)
    ensures Carries(op, cells[op.Args()[n].0 := op.Args()[n].1], n + 1)
  {}

  lemma {:induction false} WritePacking(s: Slot)
    requires Shape(s) && Flags(s) && Packing(s) && s.next < |s.prog| && s.caller.Write?
    requires Shape(CallerStep(s))
    ensures Packing(CallerStep(s))
  {
    var op, j := Current(s), s.caller.j;
    assert op.WellFormed();
    if j < |op.Args()| {
      CarriesNext(op, s.cells, j);
    }
    hide GoodProg, Op.WellFormed, Carries, Flags;
  }

  lemma {:induction false} OtherPacking(s: Slot)
    requires Shape(s) && Flags(s) && Packing(s) && s.next < |s.prog| && !s.caller.Write?
    requires Shape(CallerStep(s))
    ensures Packing(CallerStep(s))
  {
    assert Current(s).WellFormed();
    assert Carries(Current(s), s.cells, 0);
    var t := CallerStep(s);
    assert t.cells == s.cells && t.prog == s.prog;
    assert !t.caller.Idle? ==> t.next == s.next;
    assert t.caller.Write? ==> t.caller.j == 0;
    assert ArgsInPlace(t.caller) ==> ArgsInPlace(s.caller);
    assert CmdInPlace(t.caller) ==> t.cmd == Current(s).Cmd();
    hide CallerStep, GoodProg, Op.WellFormed, Carries, Flags;
  }

  lemma {:induction false} FreeStep(s: Slot)
    requires |s.cells| == CELLS && s.next < |s.prog| && !s.cmdValid && Current(s).WellFormed()
    requires OnRemote(s) ==> !s.caller.SetValid? && !s.caller.WaitDone? && !s.caller.Read?
    requires s.caller.RWaitFlag? ==> OnRemote(s)
    ensures var t := CallerStep(s);
            && t.sim == s.sim && t.replies == s.replies
            && (t.cmdValid ==> |t.sent| > 0 && t.sent[|t.sent| - 1] == Msg(t.cmd, t.cells))
            && (Submitted(t) && !t.cmdValid ==> Submitted(s) && t.cells == s.cells && t.cmd == s.cmd)
  {
    StepIsByField(s);
    hide CallerStep, Op.WellFormed;
  }

  lemma {:induction false} FreeTransfer(s: Slot, i: nat)
    requires Shape(s) && Flags(s) && SimControl(s, i) && Transfer(s) && s.next < |s.prog| && !s.cmdValid
    requires Current(s).WellFormed() && Shape(CallerStep(s))
    ensures Transfer(CallerStep(s))
  {
    var t := CallerStep(s);
    FreeStep(s);
    assert t.sim == s.sim && !ServingLocal(s.sim);
    hide CallerStep, GoodProg, Op.WellFormed, Shape, Flags, SimControl, Submitted;
  }

  lemma {:induction false} CallerTransfer(s: Slot, i: nat)
    requires Shape(s) && Flags(s) && SimControl(s, i) && Transfer(s) && s.next < |s.prog|
    requires Shape(CallerStep(s))
    ensures Transfer(CallerStep(s))
  {
    assert Current(s).WellFormed();
    if s.cmdValid {
      assert s.caller.WaitDone? && CallerStep(s) == s;
      hide *;
    } else {
      hide *;
      FreeTransfer(s, i);
    }
  }

  /** Steps that touch no history. */
  ghost predicate Quiet(s: Slot) {
    !s.caller.SetValid? && !s.caller.RValid? && !s.caller.Check? && !s.caller.Read?
  }

  /** Equal in everything the history speaks of. */
  ghost predicate SameHistory(s: Slot, t: Slot) {
    && t.sent == s.sent && t.executed == s.executed && t.replies == s.replies && t.got == s.got
    && t.asked == s.asked && t.prog == s.prog && t.next == s.next
    && (t.cmdValid && !Executed(t.sim) <==> s.cmdValid && !Executed(s.sim))
    && (t.cmdValid ==> s.cmdValid)
    && Submitted(t) == Submitted(s) && Asked(t) == Asked(s)
    && (t.caller.Read? && Submitted(t) ==> t.caller == s.caller && t.cmd == s.cmd)
    && (t.caller.Check? && Submitted(t) ==> t.cmd == Current(t).Cmd())
  }

  lemma {:induction false} HistoryKept(s: Slot, t: Slot)
    requires s.next <= |s.prog| && History(s) && SameHistory(s, t)
    ensures History(t)
  {
    hide Logs, Answers, Locals, Prints, Submitted, Asked, Executed;
  }

  lemma {:induction false} QuietIsSame(s: Slot)
    requires Shape(s) && Flags(s) && Packing(s) && s.next < |s.prog| && Quiet(s)
    ensures SameHistory(s, CallerStep(s))
  {
    assert Current(s).WellFormed();
    hide GoodProg, Op.WellFormed, Carries;
  }

  lemma {:induction false} QuietHistory(s: Slot)
    requires Shape(s) && Flags(s) && History(s) && Packing(s) && s.next < |s.prog| && Quiet(s)
    ensures History(CallerStep(s))
  {
    assert Current(s).WellFormed() && s.next <= |s.prog|;
    hide *;
    QuietIsSame(s);
    HistoryKept(s, CallerStep(s));
  }

  lemma {:induction false} SubmitLogs(sent: seq<Msg>, executed: seq<Msg>, replies: seq<seq<int>>, got: seq<seq<int>>,
                                      ops: seq<Op>, m: Msg, op: Op)
    requires Logs(sent, executed, replies, got, ops, |ops|, false) && Conforms(m, op) && op.Local?
    ensures Logs(sent + [m], executed, replies, got, ops + [op], |ops|, true)
  {
    hide Conforms, Answers;
  }

  lemma {:induction false} SubmittedHistory(s: Slot, t: Slot)
    requires s.next < |s.prog| && History(s) && s.caller.SetValid? && !s.cmdValid && !Executed(s.sim)
    requires Current(s).Local? && Conforms(Msg(s.cmd, s.cells), Current(s))
    requires t == s.(caller := WaitDone, cmdValid := true, sent := s.sent + [Msg(s.cmd, s.cells)])
    ensures History(t)
  {
    LocalsStep(s.prog, s.next);
    assert !Submitted(s) && Submitted(t) && !Asked(s) && !Asked(t);
    assert Begun(s) == s.next && Begun(t) == s.next + 1;
    SubmitLogs(s.sent, s.executed, s.replies, s.got, Locals(s.prog, s.next), Msg(s.cmd, s.cells), Current(s));
    hide Logs, Submitted, Asked, Begun, Executed, Conforms, Answers, Locals, Prints;
  }

  lemma {:induction false} SubmitHistory(s: Slot)
    requires Shape(s) && Flags(s) && History(s) && Packing(s) && s.next < |s.prog| && s.caller.SetValid?
    requires !ServingLocal(s.sim)
    ensures History(CallerStep(s))
  {
    assert Current(s).WellFormed();
    assert Conforms(Msg(s.cmd, s.cells), Current(s));
    StepIsByField(s);
    LocalsStep(s.prog, s.next);
    assert CallerStep(s) == s.(caller := WaitDone, cmdValid := true, sent := s.sent + [Msg(s.cmd, s.cells)]);
    assert !s.cmdValid && !Executed(s.sim);
    hide *;
    SubmittedHistory(s, CallerStep(s));
  }

  lemma {:induction false} AskedHistory(s: Slot, t: Slot)
    requires s.next < |s.prog| && History(s) && s.caller.RValid? && OnRemote(s)
    requires t ==
             s.(caller := RWaitValid, remoteCmdValid := true, asked := s.asked + [(Current(s).target, Current(s).str)])
    ensures History(t)
  {
    LocalsStep(s.prog, s.next);
    assert !Submitted(s) && !Submitted(t) && !Asked(s) && Asked(t);
    hide Logs, Submitted, Asked, Executed, Answers, Locals, Prints;
  }

  lemma {:induction false} AskHistory(s: Slot)
    requires Shape(s) && Flags(s) && History(s) && Packing(s) && s.next < |s.prog| && s.caller.RValid?
    ensures History(CallerStep(s))
  {
    assert Current(s).WellFormed();
    assert Current(s).Args()[0] == (STR, Current(s).str);
    assert s.cells[STR] == Current(s).str;
    StepIsByField(s);
    LocalsStep(s.prog, s.next);
    assert CallerStep(s) == s.(caller := RWaitValid, remoteCmdValid := true,
                               asked := s.asked + [(Current(s).target, Current(s).str)]);
    hide *;
    AskedHistory(s, CallerStep(s));
  }

  lemma {:induction false} LocalCheckHistory(s: Slot, t: Slot)
    requires s.next < |s.prog| && History(s) && s.caller.Check? && Submitted(s) && Current(s).WellFormed()
    requires t == s.(caller := Read([])) && !s.cmdValid
    ensures History(t)
  {
    LocalsStep(s.prog, s.next);
    assert Begun(s) == s.next + 1 == Begun(t) && Submitted(t) && !Asked(t) && !Asked(s);
    var ops := Locals(s.prog, s.next + 1);
    assert |s.got| == |ops| - 1 < |s.replies| && ops[|s.got|] == Current(s);
    assert |s.replies[|s.got|]| == |s.replies[|s.got|]|;
    assert Answers([], Current(s), s.replies[|s.got|]);
    hide Logs, Begun, Submitted, Asked, Op.WellFormed, Answers, Locals, Prints;
  }

  lemma {:induction false} RemoteCheckHistory(s: Slot, t: Slot)
    requires s.next < |s.prog| && History(s) && s.caller.Check? && OnRemote(s)
    requires t == s.(caller := Idle, next := s.next + 1)
    ensures History(t)
  {
    LocalsStep(s.prog, s.next);
    assert !Submitted(s) && !Submitted(t) && !Asked(t) && Asked(s);
    hide Logs, Submitted, Asked, Executed, Answers, Locals, Prints;
  }

  lemma {:induction false} CheckIs(s: Slot)
    requires s.next < |s.prog| && |s.cells| == CELLS && Current(s).WellFormed() && s.caller.Check? && !s.cmdValid
    ensures CallerStep(s) ==
            if Current(s).Local? then s.(caller := Read([])) else s.(caller := Idle, next := s.next + 1)
  {
    StepIsByField(s);
    hide CallerStep;
  }

  lemma {:induction false} ReadMoreIs(s: Slot)
    requires s.next < |s.prog| && |s.cells| == CELLS && Current(s).WellFormed() && s.caller.Read? && Current(s).Local?
    requires |s.caller.vals| < |Current(s).results|
    ensures CallerStep(s) == s.(caller := Read(s.caller.vals + [s.cells[Current(s).results[|s.caller.vals|]]]))
  {
    StepIsByField(s);
    hide CallerStep;
  }

  lemma {:induction false} ReadDoneIs(s: Slot)
    requires s.next < |s.prog| && |s.cells| == CELLS && Current(s).WellFormed() && s.caller.Read? && Current(s).Local?
    requires |s.caller.vals| >= |Current(s).results|
    ensures CallerStep(s) == s.(caller := Idle, next := s.next + 1, got := s.got + [s.caller.vals])
  {
    StepIsByField(s);
    hide CallerStep;
  }

  lemma {:induction false} CheckHistory(s: Slot)
    requires |s.cells| == CELLS && s.next < |s.prog| && Shape(s) && Flags(s) && History(s) && s.caller.Check?
    requires Current(s).WellFormed()
    ensures History(CallerStep(s))
  {
    CheckIs(s);
    assert !s.cmdValid && if Current(s).Local? then Submitted(s) else OnRemote(s);
    hide *;
    if Current(s).Local? {
      LocalCheckHistory(s, CallerStep(s));
    } else {
      RemoteCheckHistory(s, CallerStep(s));
    }
  }

  lemma {:induction false} ReplyHere(s: Slot, i: nat)
    requires s.next < |s.prog| && Shape(s) && Flags(s) && Transfer(s) && s.caller.Read? && Current(s).Local?
    ensures |s.replies| > 0 && (s.cmd != PRINTF ==> s.cells[2..2 + PARS] == s.replies[|s.replies| - 1])
  {
    assert ReplyInPlace(s);
    hide GoodProg;
  }

  lemma {:induction false} ReadMoreHistory(s: Slot, t: Slot)
    requires s.next < |s.prog| && |s.cells| == CELLS && Current(s).WellFormed() && s.caller.Read? && Current(s).Local?
    requires |s.caller.vals| < |Current(s).results| && !s.cmdValid
    requires t == s.(caller := Read(s.caller.vals + [s.cells[Current(s).results[|s.caller.vals|]]]))
    requires History(s)
    requires |s.replies| > 0 && (s.cmd != PRINTF ==> s.cells[2..2 + PARS] == s.replies[|s.replies| - 1])
    ensures History(t)
  {
    var op, vals, r := Current(s), s.caller.vals, s.replies[|s.got|];
    LocalsStep(s.prog, s.next);
    var ops := Locals(s.prog, s.next + 1);
    assert Begun(s) == s.next + 1 == Begun(t) && Submitted(s) && Submitted(t) && !Asked(t) && !Asked(s);
    assert |s.got| == |ops| - 1 && |s.replies| == |ops|;
    assert s.cmd != PRINTF ==> s.cells[2..2 + PARS] == r;
    AnswersNext(vals, op, r, s.cells);
    hide Logs, Begun, Submitted, Asked, Executed, Op.WellFormed, Answers, Locals, Prints;
  }

  lemma {:induction false} ReadLogs(sent: seq<Msg>, executed: seq<Msg>, replies: seq<seq<int>>, got: seq<seq<int>>,
                                    ops: seq<Op>, op: Op, vals: seq<int>)
    requires Logs(sent, executed, replies, got, ops + [op], |ops|, false) && op.Local? && |vals| >= |op.results|
    requires |got| < |replies| ==> Answers(vals, op, replies[|got|])
    ensures Logs(sent, executed, replies, got + [vals], ops + [op], |ops| + 1, false)
  {
    assert (ops + [op])[|got|] == op;
    hide Conforms, Op.WellFormed;
  }

  lemma {:induction false} ReadDoneHistory(s: Slot, t: Slot)
    requires s.next < |s.prog| && Current(s).WellFormed() && s.caller.Read? && Current(s).Local?
    requires |s.caller.vals| >= |Current(s).results| && !s.cmdValid && History(s)
    requires t == s.(caller := Idle, next := s.next + 1, got := s.got + [s.caller.vals])
    ensures History(t)
  {
    LocalsStep(s.prog, s.next);
    assert Submitted(s) && !Submitted(t) && !Asked(t) && !Asked(s);
    assert Begun(s) == s.next + 1 == Begun(t);
    ReadLogs(s.sent, s.executed, s.replies, s.got, Locals(s.prog, s.next), Current(s), s.caller.vals);
    hide Logs, Submitted, Asked, Begun, Executed, Op.WellFormed, Answers, Locals, Prints;
  }

  lemma {:induction false} AnswersNext(vals: seq<int>, op: Op, reply: seq<int>, cells: seq<int>)
    requires Answers(vals, op, reply) && |vals| < |op.results| && |cells| == CELLS
    requires op.cmd != PRINTF ==> cells[2..2 + PARS] == reply
    ensures Answers(vals + [cells[op.results[|vals|]]], op, reply)
  {
    if op.cmd != PRINTF {
      var c := op.results[|vals|];
      assert cells[c] == cells[2..2 + PARS][c - 2];
    }
  }

  lemma {:induction false} CallerSlot(s: Slot, i: nat)
    requires SlotInv(s, i) && s.next < |s.prog|
    ensures SlotInv(CallerStep(s), i)
  {
    assert Current(s).WellFormed();
    hide GoodProg, Op.WellFormed, CallerStep, Transfer, Packing, History, Carries;
    CallerShape(s);
    CallerFlags(s);
    CallerSim(s, i);
    CallerTransfer(s, i);
    if s.caller.Write? {
      WritePacking(s);
    } else {
      OtherPacking(s);
    }
    if s.caller.SetValid? {
      SubmitHistory(s);
    } else if s.caller.RValid? {
      AskHistory(s);
    } else if s.caller.Check? {
      CheckHistory(s);
    } else if s.caller.Read? {
      if |s.caller.vals| < |Current(s).results| {
        ReadMoreIs(s);
        ReplyHere(s, i);
        ReadMoreHistory(s, CallerStep(s));
      } else {
        ReadDoneIs(s);
        ReadDoneHistory(s, CallerStep(s));
      }
    } else {
      QuietHistory(s);
    }
  }

  /** What the rest of the system sees of a thread's step from s to t. */
  ghost predicate Unobtrusive(s: Slot, t: Slot) {
    && t.prog == s.prog && t.sim == s.sim && t.remoteReq == s.remoteReq && t.printed == s.printed
    && (NeverAsks(s) ==> t.remoteOffset == s.remoteOffset)
    && (s.remoteFlag ==> t.remoteFlag)
    && (Asked(s) && s.remoteCmdValid ==> t == s)
    && (Asked(s) && s.remoteFlag ==> Asked(t) && t.next == s.next && t.remoteCmdValid == s.remoteCmdValid)
    && (if s.caller.RValid? then
          !Asked(s) && Asked(t) && t.next == s.next && t.remoteCmdValid && t.remoteFlag && !s.remoteCmdValid
          && |t.asked| > 0 && t.asked[..|t.asked| - 1] == s.asked
        else
          t.asked == s.asked && (t.remoteCmdValid ==> s.remoteCmdValid))
  }

  lemma {:induction false} CallerUnobtrusive(s: Slot)
    requires Shape(s) && Flags(s) && s.next < |s.prog|
    ensures Unobtrusive(s, CallerStep(s))
  {
    assert Current(s).WellFormed();
    assert NeverAsks(s) ==> Current(s).Local?;
    hide GoodProg, Op.WellFormed, NeverAsks;
  }

  /** The shared part of the invariant survives an unobtrusive change of one slot. */
  lemma {:induction false} UnobtrusiveKeeps(st: State, i: nat, t: Slot)
    requires Inv(st) && i < |st.slots| && Unobtrusive(st.slots[i], t) && SlotInv(t, i)
    ensures Inv(st.(slots := st.slots[i := t]))
  {
    var st' := st.(slots := st.slots[i := t]);
    RolesKept(st, i, t);
    assert Flags(t);
    assert forall k | 0 <= k < |st.slots| :: SlotInv(st'.slots[k], k);
    forall k | 0 <= k < |st.slots| && Engaged(st'.slots[k])
      ensures Bound(st', k)
    {
      BoundKept(st, i, t, k);
    }
    forall k | 0 <= k < |st.slots|
      ensures Waiting(st', k)
    {
      WaitingKept(st, i, t, k);
    }
    DaemonKept(st, i, t);
    hide SlotInv, Bound, Waiting, DaemonInv, Unobtrusive, RolesDisjoint, Engaged;
  }

  lemma {:induction false} RolesKept(st: State, i: nat, t: Slot)
    requires RolesDisjoint(st) && i < |st.slots| && t.prog == st.slots[i].prog
    ensures RolesDisjoint(st.(slots := st.slots[i := t]))
  {}

  lemma {:induction false} BoundKept(st: State, i: nat, t: Slot, k: nat)
    requires Inv(st) && i < |st.slots| && Unobtrusive(st.slots[i], t) && k < |st.slots|
    requires Engaged(st.slots[i := t][k])
    ensures Bound(st.(slots := st.slots[i := t]), k)
  {
    assert SlotInv(st.slots[k], k);
    assert Engaged(st.slots[k]) && Bound(st, k);
    hide Inv, Transfer, Packing, History, Flags, Shape;
  }

  lemma {:induction false} WaitingKept(st: State, i: nat, t: Slot, k: nat)
    requires Inv(st) && i < |st.slots| && Unobtrusive(st.slots[i], t) && k < |st.slots| && Flags(t)
    ensures Waiting(st.(slots := st.slots[i := t]), k)
  {
    var st', a := st.(slots := st.slots[i := t]), st.slots[k];
    assert Waiting(st, k);
    if OnRemote(a) {
      AskedSlot(st, k);
      EngagedSame(st, i, t, Current(a).target, k);
    }
    if k == i {
      assert SlotInv(a, k);
      WaitingSelf(st, i, t);
    } else {
      hide Inv, EngagedWith, PrintedBy, NeverAsks, Unobtrusive;
    }
  }

  lemma {:induction false} EngagedSame(st: State, i: nat, t: Slot, target: nat, k: nat)
    requires i < |st.slots| && target < |st.slots| && Unobtrusive(st.slots[i], t) && NeverAsks(st.slots[target])
    ensures var st' := st.(slots := st.slots[i := t]);
            EngagedWith(st', target, k) == EngagedWith(st, target, k)
            && PrintedBy(st', target, k) == PrintedBy(st, target, k)
  {
    hide NeverAsks;
  }

  lemma {:induction false} WaitingSelf(st: State, i: nat, t: Slot)
    requires i < |st.slots| && Waiting(st, i) && Unobtrusive(st.slots[i], t)
    requires Flags(st.slots[i]) && Flags(t)
    requires OnRemote(st.slots[i]) ==>
               var target := Current(st.slots[i]).target;
               var st' := st.(slots := st.slots[i := t]);
               && EngagedWith(st', target, i) == EngagedWith(st, target, i)
               && PrintedBy(st', target, i) == PrintedBy(st, target, i)
               && (EngagedWith(st, target, i) ==> Asked(st.slots[i]))
    ensures Waiting(st.(slots := st.slots[i := t]), i)
  {
    assert OnRemote(st.slots[i]) ==> (PrintedBy(st, Current(st.slots[i]).target, i)
      ==> EngagedWith(st, Current(st.slots[i]).target, i));
    hide EngagedWith, PrintedBy, NeverAsks;
  }

  lemma {:induction false} AskedSlot(st: State, k: nat)
    requires Inv(st) && k < |st.slots| && OnRemote(st.slots[k])
    ensures var target := Current(st.slots[k]).target;
            target < |st.slots| && target != k && NeverAsks(st.slots[target])
    ensures var target := Current(st.slots[k]).target;
            EngagedWith(st, target, k) ==> Asked(st.slots[k])
  {
    var target := Current(st.slots[k]).target;
    if EngagedWith(st, target, k) {
      assert Bound(st, target);
    }
    hide SlotInv, Waiting, DaemonInv;
  }

  lemma {:induction false} DaemonKept(st: State, i: nat, t: Slot)
    requires Inv(st) && i < |st.slots| && Unobtrusive(st.slots[i], t)
    ensures DaemonInv(st.(slots := st.slots[i := t]))
  {}

  lemma {:induction false} CallerPreserves(st: State, i: nat)
    requires Inv(st) && i < |st.slots| && st.slots[i].next < |st.slots[i].prog|
    ensures Shaped(st) && Inv(Step(st, Caller(i)))
  {
    var s := st.slots[i];
    InvShaped(st);
    assert SlotInv(s, i);
    CallerSlot(s, i);
    CallerUnobtrusive(s);
    UnobtrusiveKeeps(st, i, CallerStep(s));
    hide Inv, SlotInv, Unobtrusive, CallerStep;
  }

  lemma {:induction false} InvShaped(st: State)
    requires Inv(st)
    ensures Shaped(st)
  {
    forall i | 0 <= i < |st.slots|
      ensures |st.slots[i].cells| == CELLS && forall k | 0 <= k < |st.slots[i].prog| :: st.slots[i].prog[k].WellFormed()
    {
      assert SlotInv(st.slots[i], i);
    }
  }
}
