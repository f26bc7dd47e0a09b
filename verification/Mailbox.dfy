/**
 The shared-memory mailbox between test threads (callers), the simulator and the daemon that
 forwards print requests from one slot to another. Every step is one access to one shared
 field; the interleaving of steps is arbitrary.
 */
module Mailbox {

  /** Cells 0 and 1 are the address words, 2 to 33 the parameter words, 34 the print string. */
  const CELLS: nat := 35
  const STR: nat := 34
  const PARS: nat := 32

  const PRINTF: nat := 0

  datatype Status = Success | Pending

  /** What a test thread does: a command on its own slot, or a print through another slot. */
  datatype Op =
    | Local(cmd: nat, args: seq<(nat, int)>, results: seq<nat>)
    | RemotePrint(target: nat, str: int)
  {
    function Args(): seq<(nat, int)> {
      match this
      case Local(_, args, _) => args
      case RemotePrint(_, str) => [(STR, str)]
    }

    function Cmd(): nat {
      match this
      case Local(cmd, _, _) => cmd
      case RemotePrint(_, _) => PRINTF
    }

    /** Each argument has its own cell; results are read from the parameter words. */
    ghost predicate WellFormed() {
      && (forall j | 0 <= j < |Args()| :: Args()[j].0 < CELLS)
      && (forall j, k | 0 <= j < k < |Args()| :: Args()[j].0 != Args()[k].0)
      && (Local? ==> forall k | 0 <= k < |results| :: 2 <= results[k] < 2 + PARS)
    }
  }

  datatype CallerPc =
    | Idle | SetOffset | SetFlag | Write(j: nat) | SetStatus | SetCmd | TestFlag
    | SetValid | WaitDone
    | RClear | RFlag | RValid | RWaitValid | RWaitFlag
    | Check | Read(vals: seq<int>)

  datatype SimPc =
    | PollValid | PollReq(v: bool) | GetOffset
    | GetCmd(remote: bool, ptr: nat) | Print(remote: bool, ptr: nat)
    | Load(ptr: nat, cmd: nat, inBox: seq<int>) | Store(reply: seq<int>, k: nat)
    | AckStatus(remote: bool, ptr: nat) | AckValid(remote: bool, ptr: nat) | ClearReq

  datatype DaemonPc =
    | DFlag(i: nat) | DValid(i: nat) | DOffset(i: nat) | DReq(i: nat, t: nat)
    | DSetOffset(i: nat, t: nat) | DSetReq(i: nat, t: nat) | DClear(i: nat, t: nat)

  /** A command with all its argument cells. */
  datatype Msg = Msg(cmd: nat, cells: seq<int>)

  datatype Slot = Slot(
    // shared fields
    cmdValid: bool, cmdStatus: Status, cmd: nat, cells: seq<int>,
    remoteFlag: bool, remoteCmdValid: bool, remoteReq: bool, remoteOffset: nat, errCnt: nat,
    // the test thread
    prog: seq<Op>, next: nat, caller: CallerPc,
    // the simulator of this slot
    sim: SimPc,
    // history: commands submitted, executed and answered; values the thread read back;
    // print requests raised for other slots, and those printed, with the slot that did it
    sent: seq<Msg>, executed: seq<Msg>, replies: seq<seq<int>>, got: seq<seq<int>>,
    asked: seq<(nat, int)>, printed: seq<(nat, int)>)

  datatype State = State(slots: seq<Slot>, daemon: DaemonPc)

  // ----- the test thread: InitMe's fields, SetRemoteFlag, argument packing, SendCmdNwait

  function Current(s: Slot): Op
    requires s.next < |s.prog|
  {
    s.prog[s.next]
  }

  function CallerStep(s: Slot): Slot
    requires s.next < |s.prog| && |s.cells| == CELLS && Current(s).WellFormed()
  {
    var op := Current(s);
    match s.caller
    case Idle => s.(caller := if op.RemotePrint? then SetOffset else Write(0))
    case SetOffset => if op.RemotePrint? then s.(remoteOffset := op.target, caller := SetFlag) else s
    case SetFlag => s.(remoteFlag := true, caller := Write(0))
    case Write(j) =>
      if j < |op.Args()| then s.(cells := s.cells[op.Args()[j].0 := op.Args()[j].1], caller := Write(j + 1))
      else s.(caller := SetStatus)
    case SetStatus => s.(cmdStatus := Pending, caller := SetCmd)
    case SetCmd => s.(cmd := op.Cmd(), caller := TestFlag)
    case TestFlag => s.(caller := if s.remoteFlag then RClear else SetValid)
    case SetValid => s.(cmdValid := true, caller := WaitDone, sent := s.sent + [Msg(s.cmd, s.cells)])
    case WaitDone => if s.cmdValid then s else s.(caller := Check)
    case RClear => s.(cmdValid := false, caller := RFlag)
    case RFlag => s.(remoteFlag := true, caller := RValid)
    case RValid => s.(remoteCmdValid := true, caller := RWaitValid, asked := s.asked + [(s.remoteOffset, s.cells[STR])])
    case RWaitValid => if s.remoteCmdValid then s else s.(caller := RWaitFlag)
    case RWaitFlag => s.(caller := if s.remoteFlag then RWaitValid else Check)
    case Check =>
      var e := if s.cmdStatus != Success && s.cmdValid then s.errCnt + 1 else s.errCnt;
      if op.Local? then s.(errCnt := e, caller := Read([]))
      else s.(errCnt := e, caller := Idle, next := s.next + 1)
    case Read(vals) =>
      if op.Local? && |vals| < |op.results| then s.(caller := Read(vals + [s.cells[op.results[|vals|]]]))
      else s.(caller := Idle, next := s.next + 1, got := s.got + [vals])
  }

  // ----- the simulator: get_v2c_mail, the command itself, send_v2c_mail

  /** One step of the simulator of slot i; `reply` is what a command returns. */
  function SimStep(slots: seq<Slot>, i: nat, reply: seq<int>): (slots': seq<Slot>)
    requires i < |slots| && |reply| == PARS && forall k | 0 <= k < |slots| :: |slots[k].cells| == CELLS
    ensures |slots'| == |slots|
  {
    var s := slots[i];
    match s.sim
    case PollValid => slots[i := s.(sim := PollReq(s.cmdValid))]
    case PollReq(v) =>
      slots[i := s.(sim := if s.remoteReq then GetOffset else if v then GetCmd(false, i) else PollValid)]
    case GetOffset => slots[i := s.(sim := GetCmd(true, s.remoteOffset))]
    case GetCmd(remote, ptr) =>
      if ptr >= |slots| then slots
      else if slots[ptr].cmd == PRINTF then slots[i := s.(sim := Print(remote, ptr))]
      else slots[i := s.(sim := Load(ptr, slots[ptr].cmd, []))]
    case Print(remote, ptr) =>
      if ptr >= |slots| then slots
      else if remote then
        var s' := slots[i := s.(sim := AckStatus(true, ptr))];
        s'[ptr := s'[ptr].(printed := s'[ptr].printed + [(i, s'[ptr].cells[STR])])]
      else
        slots[i := s.(sim := AckStatus(false, ptr), replies := s.replies + [[]],
                      executed := s.executed + [Msg(PRINTF, s.cells)])]
    case Load(ptr, cmd, inBox) =>
      if ptr >= |slots| then slots
      else if |inBox| < CELLS then slots[i := s.(sim := Load(ptr, cmd, inBox + [slots[ptr].cells[|inBox|]]))]
      else slots[i := s.(sim := Store(reply, 0), replies := s.replies + [reply],
                         executed := s.executed + [Msg(cmd, inBox)])]
    case Store(r, k) =>
      if k < PARS && k < |r| then slots[i := s.(cells := s.cells[2 + k := r[k]], sim := Store(r, k + 1))]
      else slots[i := s.(sim := AckStatus(false, i))]
    case AckStatus(remote, ptr) =>
      if ptr >= |slots| then slots
      else
        var s' := slots[i := s.(sim := AckValid(remote, ptr))];
        s'[ptr := s'[ptr].(cmdStatus := Success)]
    case AckValid(remote, ptr) =>
      if ptr >= |slots| then slots
      else if remote then
        var s' := slots[i := s.(sim := ClearReq)];
        s'[ptr := s'[ptr].(remoteCmdValid := false)]
      else
        slots[i := s.(sim := PollValid, cmdValid := false)]
    case ClearReq => slots[i := s.(sim := PollValid, remoteReq := false)]
  }

  // ----- the daemon: ProcessRemoteReqs

  function NextSlot(n: nat, i: nat): DaemonPc {
    DFlag(if i + 1 < n then i + 1 else 0)
  }

  function DaemonStep(st: State): (st': State)
    ensures |st'.slots| == |st.slots|
  {
    var slots, n := st.slots, |st.slots|;
    match st.daemon
    case DFlag(i) =>
      st.(daemon := if i < n && slots[i].remoteFlag then DValid(i) else NextSlot(n, i))
    case DValid(i) =>
      st.(daemon := if i < n && slots[i].remoteCmdValid then DOffset(i) else NextSlot(n, i))
    case DOffset(i) =>
      if i < n then st.(daemon := DReq(i, slots[i].remoteOffset)) else st
    case DReq(i, t) =>
      st.(daemon := if t < n && !slots[t].remoteReq then DSetOffset(i, t) else NextSlot(n, i))
    case DSetOffset(i, t) =>
      if t < n then State(slots[t := slots[t].(remoteOffset := i)], DSetReq(i, t)) else st
    case DSetReq(i, t) =>
      if t < n then State(slots[t := slots[t].(remoteReq := true)], DClear(i, t)) else st
    case DClear(i, t) =>
      if i < n then State(slots[i := slots[i].(remoteFlag := false)], NextSlot(n, i)) else st
  }

  // ----- runs

  datatype Action = Caller(i: nat) | Sim(i: nat, reply: seq<int>) | Daemon

  ghost predicate Shaped(st: State) {
    forall i | 0 <= i < |st.slots| ::
      |st.slots[i].cells| == CELLS && forall k | 0 <= k < |st.slots[i].prog| :: st.slots[i].prog[k].WellFormed()
  }

  /** One step of the whole system; an action of a thread that has finished changes nothing. */
  ghost function Step(st: State, a: Action): State
    requires Shaped(st)
  {
    match a
    case Caller(i) =>
      if i < |st.slots| && st.slots[i].next < |st.slots[i].prog|
      then st.(slots := st.slots[i := CallerStep(st.slots[i])]) else st
    case Sim(i, reply) =>
      if i < |st.slots| && |reply| == PARS then st.(slots := SimStep(st.slots, i, reply)) else st
    case Daemon => DaemonStep(st)
  }
}
