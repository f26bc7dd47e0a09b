/** The mailbox is never stuck: from every state it can reach, some further steps complete all programs. */
module MailboxProgress {
  import opened Mailbox
  import opened MailboxInv
  import opened MailboxSim
  import opened MailboxSafety

  // ----- what the steps leave alone

  /** As far as the test threads are concerned, nothing has happened. */
  ghost predicate SameThread(s: Slot, t: Slot) {
    t.caller == s.caller && t.next == s.next && t.prog == s.prog && t.remoteFlag == s.remoteFlag
  }

  ghost predicate SameThreads(a: seq<Slot>, b: seq<Slot>) {
    |a| == |b| && forall k | 0 <= k < |a| :: SameThread(a[k], b[k])
  }

  /** The simulator of slot i acknowledges slot k. */
  ghost predicate Releases(p: SimPc, k: nat) {
    p.AckValid? && p.remote && p.ptr == k
  }

  ghost predicate SimTouches(a: seq<Slot>, b: seq<Slot>, i: nat) {
    && SameThreads(a, b) && i < |a|
    && (forall k | 0 <= k < |a| && k != i ::
          b[k].sim == a[k].sim && b[k].remoteReq == a[k].remoteReq && b[k].cmdValid == a[k].cmdValid)
    && (forall k | 0 <= k < |a| ::
          b[k].remoteCmdValid == a[k].remoteCmdValid || (Releases(a[i].sim, k) && !b[k].remoteCmdValid))
    && (b[i].remoteReq == a[i].remoteReq || a[i].sim.ClearReq?)
    && (b[i].cmdValid == a[i].cmdValid || (a[i].sim.AckValid? && !a[i].sim.remote))
  }

  /** The simulator finds the slot it is at, and that is its own unless it serves another. */
  ghost predicate Reaches(slots: seq<Slot>, i: nat)
    requires i < |slots|
  {
    var p := slots[i].sim;
    && AllCells(slots) && Sees(slots, p) && SimControl(slots[i], i)
    && (!OwnStep(p) ==> p.ptr < |slots| && p.ptr != i)
  }

  ghost function FoundAt(slots: seq<Slot>, i: nat): nat
    requires i < |slots| && Sees(slots, slots[i].sim)
  {
    if slots[i].sim.GetCmd? then slots[slots[i].sim.ptr].cmd else 0
  }

  const Idling: seq<int> := seq(PARS, _ => 0)

  /** The next place of a simulator that serves another slot. */
  function NextForeign(p: SimPc): SimPc {
    match p
    case Print(_, ptr) => AckStatus(true, ptr)
    case AckStatus(_, ptr) => AckValid(true, ptr)
    case _ => ClearReq
  }

  /** What such a step does to the slot that is served. */
  function ServedOne(a: Slot, i: nat, p: SimPc): Slot
    requires |a.cells| == CELLS
  {
    match p
    case Print(_, _) => a.(printed := a.printed + [(i, a.cells[STR])])
    case AckStatus(_, _) => a.(cmdStatus := Success)
    case _ => a.(remoteCmdValid := false)
  }

  lemma {:induction false} ForeignIs(slots: seq<Slot>, i: nat, reply: seq<int>)
    requires i < |slots| && |reply| == PARS && Reaches(slots, i) && !OwnStep(slots[i].sim)
    ensures var s, ptr := slots[i], slots[i].sim.ptr;
            SimStep(slots, i, reply) ==
            slots[i := s.(sim := NextForeign(s.sim))][ptr := ServedOne(slots[ptr], i, s.sim)]
  {
    hide SimControl, Sees;
  }

  lemma {:induction false} OwnTouchesSlots(slots: seq<Slot>, i: nat, cmd: nat, reply: seq<int>)
    requires i < |slots| && |reply| == PARS && Reaches(slots, i) && OwnStep(slots[i].sim)
    ensures |slots[i].cells| == CELLS && SimTouches(slots, slots[i := Own(slots[i], i, cmd, reply)], i)
  {
    hide SimControl, Sees, NextSim, Executing;
  }

  lemma {:induction false} ServedKeeps(a: Slot, i: nat, p: SimPc)
    requires |a.cells| == CELLS
    ensures var b := ServedOne(a, i, p);
            && SameThread(a, b) && b.sim == a.sim && b.remoteReq == a.remoteReq && b.cmdValid == a.cmdValid
            && (b.remoteCmdValid == a.remoteCmdValid || !(p.Print? || p.AckStatus?))
            && (!b.remoteCmdValid || b.remoteCmdValid == a.remoteCmdValid)
  {}

  lemma {:induction false} TwoTouched(slots: seq<Slot>, i: nat, k: nat, p: SimPc, b: Slot)
    requires i < |slots| && k < |slots| && k != i && SameThread(slots[k], b)
    requires b.sim == slots[k].sim && b.remoteReq == slots[k].remoteReq && b.cmdValid == slots[k].cmdValid
    requires b.remoteCmdValid == slots[k].remoteCmdValid || (Releases(slots[i].sim, k) && !b.remoteCmdValid)
    ensures SimTouches(slots, slots[i := slots[i].(sim := p)][k := b], i)
  {
    var t := slots[i := slots[i].(sim := p)][k := b];
    assert forall j | 0 <= j < |slots| ::
             t[j] == if j == k then b else if j == i then slots[i].(sim := p) else slots[j];
    hide Releases;
  }

  lemma {:induction false} ForeignTouches(slots: seq<Slot>, i: nat)
    requires i < |slots| && Reaches(slots, i) && !OwnStep(slots[i].sim)
    ensures var s, ptr := slots[i], slots[i].sim.ptr;
            && |slots[ptr].cells| == CELLS
            && SimTouches(slots, slots[i := s.(sim := NextForeign(s.sim))][ptr := ServedOne(slots[ptr], i, s.sim)], i)
  {
    var s, ptr := slots[i], slots[i].sim.ptr;
    assert |slots[ptr].cells| == CELLS && ptr != i;
    assert s.sim.Print? || s.sim.AckStatus? || Releases(s.sim, ptr);
    hide SimTouches, SimControl, Sees, NextForeign, ServedOne, SameThread, Reaches, Releases, OwnStep;
    ServedKeeps(slots[ptr], i, s.sim);
    TwoTouched(slots, i, ptr, NextForeign(s.sim), ServedOne(slots[ptr], i, s.sim));
  }

  lemma {:induction false} SimStepTouches(slots: seq<Slot>, i: nat, reply: seq<int>)
    requires i < |slots| && |reply| == PARS && Reaches(slots, i)
    ensures AllCells(slots) && SimTouches(slots, SimStep(slots, i, reply), i)
  {
    assert AllCells(slots) && Sees(slots, slots[i].sim) && SimControl(slots[i], i);
    var cmd := FoundAt(slots, i);
    assert cmd == if slots[i].sim.GetCmd? then slots[slots[i].sim.ptr].cmd else 0;
    hide *;
    if OwnStep(slots[i].sim) {
      OwnIsSimStep(slots, i, reply);
      OwnTouchesSlots(slots, i, cmd, reply);
    } else {
      ForeignIs(slots, i, reply);
      ForeignTouches(slots, i);
    }
  }

  lemma {:induction false} ItReaches(st: State, i: nat)
    requires Inv(st) && i < |st.slots|
    ensures Reaches(st.slots, i)
  {
    AllHaveCells(st);
    ForeignIsPrint(st, i);
    var s := st.slots[i];
    assert SlotInv(s, i) && SimControl(s, i);
    if ServingRemote(s.sim) && !s.sim.ClearReq? {
      assert Engaged(s) && Bound(st, i);
    }
    hide Inv, SlotInv, Shape, Flags, Packing, Transfer, History, Sees, AllCells, SimControl;
  }

  lemma {:induction false} AllHaveCells(st: State)
    requires Inv(st)
    ensures AllCells(st.slots)
  {
    forall k | 0 <= k < |st.slots|
      ensures |st.slots[k].cells| == CELLS
    {
      assert SlotInv(st.slots[k], k);
    }
  }

  // ----- a flag that is still up when the request has been served

  /** The request has been acknowledged before the daemon has cleared the flag. */
  ghost predicate Overtaken(s: Slot) {
    s.remoteFlag && (s.caller.RWaitValid? || s.caller.RWaitFlag?) && !s.remoteCmdValid
  }

  /** Then the daemon is just about to. */
  ghost predicate FlagInv(st: State) {
    forall i | 0 <= i < |st.slots| && Overtaken(st.slots[i]) :: st.daemon.DClear? && st.daemon.i == i
  }

  lemma {:induction false} CallerKeepsFlags(st: State, i: nat)
    requires Inv(st) && FlagInv(st) && i < |st.slots| && st.slots[i].next < |st.slots[i].prog|
    ensures Shaped(st) && FlagInv(Step(st, Caller(i)))
  {
    InvShaped(st);
    assert SlotInv(st.slots[i], i);
    var s := st.slots[i];
    assert Flags(s) && Current(s).WellFormed() && |s.cells| == CELLS;
    OvertakenBefore(s);
    hide CallerStep, Inv, SlotInv, Flags, Overtaken;
  }

  lemma {:induction false} OvertakenBefore(s: Slot)
    requires Flags(s) && s.next < |s.prog| && |s.cells| == CELLS && Current(s).WellFormed()
    ensures Overtaken(CallerStep(s)) ==> Overtaken(s)
  {}

  lemma {:induction false} ReleasedLate(st: State, i: nat, k: nat)
    requires Inv(st) && i < |st.slots| && k < |st.slots| && Releases(st.slots[i].sim, k) && st.slots[k].remoteFlag
    ensures st.daemon.DClear? && st.daemon.i == k
  {
    var s := st.slots[i];
    assert SlotInv(s, i) && SimControl(s, i);
    assert Engaged(s) && Bound(st, i);
    hide Inv, SlotInv;
  }

  lemma {:induction false} OvertakenAfter(st: State, b: seq<Slot>, i: nat, k: nat)
    requires Inv(st) && FlagInv(st) && SimTouches(st.slots, b, i) && k < |st.slots| && Overtaken(b[k])
    ensures st.daemon.DClear? && st.daemon.i == k
  {
    assert SameThread(st.slots[k], b[k]);
    assert b[k].remoteCmdValid == st.slots[k].remoteCmdValid || Releases(st.slots[i].sim, k);
    assert Overtaken(st.slots[k]) ==> st.daemon.DClear? && st.daemon.i == k;
    if Releases(st.slots[i].sim, k) {
      ReleasedLate(st, i, k);
    }
    hide Inv, SimTouches, Releases, FlagInv;
  }

  lemma {:induction false} SimKeepsFlags(st: State, i: nat, reply: seq<int>)
    requires Inv(st) && FlagInv(st) && i < |st.slots| && |reply| == PARS
    ensures Shaped(st) && FlagInv(Step(st, Sim(i, reply)))
  {
    InvShaped(st);
    ItReaches(st, i);
    SimStepTouches(st.slots, i, reply);
    var b := SimStep(st.slots, i, reply);
    assert Step(st, Sim(i, reply)) == st.(slots := b);
    hide SimStep, Inv, SimTouches, Reaches, Step, Overtaken;
    forall k | 0 <= k < |st.slots| && Overtaken(b[k])
      ensures st.daemon.DClear? && st.daemon.i == k
    {
      OvertakenAfter(st, b, i, k);
    }
  }

  lemma {:induction false} DaemonKeepsFlags(st: State)
    requires Inv(st) && FlagInv(st)
    ensures FlagInv(DaemonStep(st))
  {
    var st' := DaemonStep(st);
    forall k | 0 <= k < |st.slots|
      ensures !Overtaken(st'.slots[k])
    {
      assert Overtaken(st.slots[k]) ==> st.daemon.DClear? && st.daemon.i == k;
    }
    hide Inv;
  }

  lemma {:induction false} FlagsKept(st: State, a: Action)
    requires Inv(st) && FlagInv(st)
    ensures Shaped(st) && FlagInv(Step(st, a))
  {
    InvShaped(st);
    match a
    case Caller(i) =>
      if i < |st.slots| && st.slots[i].next < |st.slots[i].prog| {
        CallerKeepsFlags(st, i);
      }
      hide Inv, FlagInv, CallerStep;
    case Sim(i, reply) =>
      if i < |st.slots| && |reply| == PARS {
        SimKeepsFlags(st, i, reply);
      }
      hide Inv, FlagInv, SimStep;
    case Daemon =>
      DaemonKeepsFlags(st);
      hide Inv, FlagInv, DaemonStep;
  }

  lemma {:induction false} RunFlags(progs: seq<seq<Op>>, steps: seq<Action>)
    requires Admissible(progs)
    ensures FlagInv(Run(progs, steps))
  {
    if steps == [] {
      assert Run(progs, []) == Initial(progs);
    } else {
      RunFlags(progs, steps[..|steps| - 1]);
      FlagsKept(Run(progs, steps[..|steps| - 1]), steps[|steps| - 1]);
      hide Inv, FlagInv, Step;
    }
  }

  lemma {:induction false} RunNext(progs: seq<seq<Op>>, steps: seq<Action>, a: Action)
    requires Admissible(progs)
    ensures Shaped(Run(progs, steps)) && Run(progs, steps + [a]) == Step(Run(progs, steps), a)
  {
    assert (steps + [a])[..|steps|] == steps;
    InvShaped(Run(progs, steps));
    hide Inv, Step, Admissible;
  }

  // ----- what is left to do

  function OpWork(op: Op): nat {
    |op.Args()| + (if op.Local? then |op.results| else 0) + 20
  }

  function RestWork(prog: seq<Op>, n: nat): nat
    decreases |prog| - n
  {
    if n >= |prog| then 0 else OpWork(prog[n]) + RestWork(prog, n + 1)
  }

  /** More steps than this the test thread does not take for the current operation, waiting apart. */
  function PcWork(c: CallerPc, op: Op): int {
    var r := if op.Local? then |op.results| else 0;
    match c
    case Idle => OpWork(op)
    case SetOffset => OpWork(op) - 1
    case SetFlag => OpWork(op) - 2
    case Write(j) => OpWork(op) - 3 - j
    case SetStatus => r + 14
    case SetCmd => r + 13
    case TestFlag => r + 12
    case SetValid => r + 11
    case WaitDone => r + 10
    case RClear => r + 11
    case RFlag => r + 10
    case RValid => r + 9
    case RWaitValid => r + 8
    case RWaitFlag => r + 7
    case Check => r + 3
    case Read(vals) => if r >= |vals| then r - |vals| + 1 else 1
  }

  function SlotWork(s: Slot): int {
    if s.next >= |s.prog| then 0 else PcWork(s.caller, Current(s)) + RestWork(s.prog, s.next + 1)
  }

  /** The thread is waiting for somebody else. */
  ghost predicate Blocked(s: Slot) {
    || (s.caller.WaitDone? && s.cmdValid)
    || (s.caller.RWaitValid? && s.remoteCmdValid)
    || (s.caller.RWaitFlag? && s.remoteFlag)
  }

  lemma {:induction false} WorkPositive(s: Slot)
    requires Shape(s) && s.next < |s.prog|
    ensures PcWork(s.caller, Current(s)) > 0 && SlotWork(s) > 0
  {
    hide Op.Args, GoodProg, RestWork;
  }

  lemma {:induction false} RestStarts(prog: seq<Op>, n: nat)
    requires n < |prog|
    ensures RestWork(prog, n) == OpWork(prog[n]) + RestWork(prog, n + 1)
  {
    hide OpWork;
  }

  /** Unless it is waiting, a step of the test thread leaves it less to do. */
  lemma {:induction false} CallerGoesOn(s: Slot)
    requires Shape(s) && Flags(s) && s.next < |s.prog| && !Blocked(s)
    ensures Current(s).WellFormed() && SlotWork(CallerStep(s)) < SlotWork(s)
  {
    assert Current(s).WellFormed();
    WorkPositive(s);
    if s.caller.Write? {
      WriteGoesOn(s);
    } else if s.caller.Check? || s.caller.Read? {
      EndGoesOn(s);
    } else {
      WaitGoesOn(s);
    }
    hide *;
  }

  lemma {:induction false} WriteGoesOn(s: Slot)
    requires Shape(s) && s.next < |s.prog| && s.caller.Write?
    ensures Current(s).WellFormed() && SlotWork(CallerStep(s)) < SlotWork(s)
  {
    assert Current(s).WellFormed();
    hide GoodProg, RestWork, Op.Args, Op.Cmd, Op.WellFormed;
  }

  /** What the operation behind this one, if any, has left to do. */
  lemma {:induction false} NextStarts(s: Slot)
    requires s.next < |s.prog|
    ensures SlotWork(s.(caller := Idle, next := s.next + 1)) == RestWork(s.prog, s.next + 1)
  {
    if s.next + 1 < |s.prog| {
      RestStarts(s.prog, s.next + 1);
    }
    hide OpWork;
  }

  lemma {:induction false} WorkOf(s: Slot, t: Slot)
    requires s.next < |s.prog| && t.prog == s.prog && t.next == s.next + 1 && t.caller == Idle
    ensures SlotWork(t) == SlotWork(s.(caller := Idle, next := s.next + 1))
    ensures SlotWork(s) == PcWork(s.caller, Current(s)) + RestWork(s.prog, s.next + 1)
  {
    hide PcWork, RestWork;
  }

  /** The next operation begins, or the next value is read. */
  lemma {:induction false} EndIs(s: Slot)
    requires Shape(s) && s.next < |s.prog| && (s.caller.Check? || s.caller.Read?)
    ensures Current(s).WellFormed()
    ensures var t := CallerStep(s);
            && t.prog == s.prog
            && if t.next == s.next then t.caller.Read? && PcWork(t.caller, Current(s)) < PcWork(s.caller, Current(s))
               else t.next == s.next + 1 && t.caller == Idle
  {
    assert Current(s).WellFormed();
    hide GoodProg, OpWork, Op.Args, Op.Cmd, Op.WellFormed;
  }

  lemma {:induction false} EndGoesOn(s: Slot)
    requires Shape(s) && s.next < |s.prog| && (s.caller.Check? || s.caller.Read?)
    ensures Current(s).WellFormed() && SlotWork(CallerStep(s)) < SlotWork(s)
  {
    EndIs(s);
    WorkPositive(s);
    var t := CallerStep(s);
    assert Current(s) == s.prog[s.next];
    if t.next == s.next {
      assert SlotWork(t) == PcWork(t.caller, s.prog[s.next]) + RestWork(s.prog, s.next + 1);
      assert SlotWork(s) == PcWork(s.caller, s.prog[s.next]) + RestWork(s.prog, s.next + 1);
    } else {
      NextStarts(s);
      WorkOf(s, t);
    }
    hide *;
  }

  lemma {:induction false} WaitGoesOn(s: Slot)
    requires Shape(s) && Flags(s) && s.next < |s.prog| && !Blocked(s)
    requires !s.caller.Write? && !s.caller.Check? && !s.caller.Read?
    ensures Current(s).WellFormed() && SlotWork(CallerStep(s)) < SlotWork(s)
  {
    assert Current(s).WellFormed() && |s.cells| == CELLS;
    assert s.caller.SetOffset? ==> Current(s).RemotePrint?;
    PcFalls(s);
    SlotWorkIs(s);
    SlotWorkIs(CallerStep(s));
    hide *;
  }

  lemma {:induction false} SlotWorkIs(s: Slot)
    requires s.next < |s.prog|
    ensures SlotWork(s) == PcWork(s.caller, Current(s)) + RestWork(s.prog, s.next + 1)
  {
    hide PcWork, RestWork;
  }

  /** The places of a remote request, from the clearing of the local flag on. */
  predicate Requesting(c: CallerPc) {
    c.RClear? || c.RFlag? || c.RValid? || c.RWaitValid? || c.RWaitFlag?
  }

  lemma {:induction false} PcFalls(s: Slot)
    requires s.next < |s.prog| && |s.cells| == CELLS && Current(s).WellFormed() && !Blocked(s)
    requires !s.caller.Write? && !s.caller.Check? && !s.caller.Read?
    requires s.caller.SetOffset? ==> Current(s).RemotePrint?
    ensures var t := CallerStep(s);
            t.prog == s.prog && t.next == s.next && PcWork(t.caller, Current(s)) < PcWork(s.caller, Current(s))
  {
    if Requesting(s.caller) {
      RequestFalls(s);
    } else {
      LocalPcFalls(s);
    }
    hide *;
  }

  lemma {:induction false} RequestFalls(s: Slot)
    requires s.next < |s.prog| && |s.cells| == CELLS && Current(s).WellFormed() && !Blocked(s) && Requesting(s.caller)
    ensures var t := CallerStep(s);
            t.prog == s.prog && t.next == s.next && PcWork(t.caller, Current(s)) < PcWork(s.caller, Current(s))
  {
    hide Op.Args, Op.Cmd, Op.WellFormed, OpWork;
  }

  lemma {:induction false} LocalPcFalls(s: Slot)
    requires s.next < |s.prog| && |s.cells| == CELLS && Current(s).WellFormed() && !Blocked(s)
    requires !s.caller.Write? && !s.caller.Check? && !s.caller.Read? && !Requesting(s.caller)
    requires s.caller.SetOffset? ==> Current(s).RemotePrint?
    ensures var t := CallerStep(s);
            t.prog == s.prog && t.next == s.next && PcWork(t.caller, Current(s)) < PcWork(s.caller, Current(s))
  {
    hide Op.Args, Op.Cmd, Op.WellFormed;
  }

  ghost function Work(slots: seq<Slot>): int {
    if slots == [] then 0 else Work(slots[..|slots| - 1]) + SlotWork(slots[|slots| - 1])
  }

  ghost function Raised(slots: seq<Slot>): nat {
    if slots == [] then 0 else Raised(slots[..|slots| - 1]) + if slots[|slots| - 1].remoteFlag then 1 else 0
  }

  lemma {:induction false} WorkNat(slots: seq<Slot>)
    requires forall k | 0 <= k < |slots| :: Shape(slots[k])
    ensures Work(slots) >= 0
  {
    if slots != [] {
      WorkNat(slots[..|slots| - 1]);
      var s := slots[|slots| - 1];
      if s.next < |s.prog| {
        WorkPositive(s);
      }
      hide Shape, SlotWork;
    }
  }

  lemma {:induction false} WorkSame(a: seq<Slot>, b: seq<Slot>)
    requires |a| == |b| && forall k | 0 <= k < |a| :: SlotWork(b[k]) == SlotWork(a[k])
    ensures Work(b) == Work(a)
  {
    if a != [] {
      var x, y := a[..|a| - 1], b[..|b| - 1];
      assert forall k | 0 <= k < |x| :: x[k] == a[k] && y[k] == b[k];
      WorkSame(x, y);
    }
    hide SlotWork;
  }

  lemma {:induction false} WorkFalls(a: seq<Slot>, i: nat, t: Slot)
    requires i < |a| && SlotWork(t) < SlotWork(a[i])
    ensures Work(a[i := t]) < Work(a)
  {
    hide SlotWork;
    var b, n := a[i := t], |a| - 1;
    if i == n {
      assert b[..n] == a[..n];
    } else {
      assert b[..n] == a[..n][i := t];
      WorkFalls(a[..n], i, t);
    }
  }

  lemma {:induction false} RaisedSame(a: seq<Slot>, b: seq<Slot>)
    requires |a| == |b| && forall k | 0 <= k < |a| :: b[k].remoteFlag == a[k].remoteFlag
    ensures Raised(b) == Raised(a)
  {
    if a != [] {
      var x, y := a[..|a| - 1], b[..|b| - 1];
      assert forall k | 0 <= k < |x| :: x[k] == a[k] && y[k] == b[k];
      RaisedSame(x, y);
    }
  }

  lemma {:induction false} RaisedFalls(a: seq<Slot>, i: nat, t: Slot)
    requires i < |a| && a[i].remoteFlag && !t.remoteFlag
    ensures Raised(a[i := t]) < Raised(a)
  {
    var b, n := a[i := t], |a| - 1;
    if i == n {
      assert b[..n] == a[..n];
    } else {
      assert b[..n] == a[..n][i := t];
      RaisedFalls(a[..n], i, t);
    }
  }

  /** Nothing has happened to the threads, so there is as much left to do. */
  lemma {:induction false} SameWork(a: seq<Slot>, b: seq<Slot>)
    requires SameThreads(a, b)
    ensures Work(b) == Work(a) && Raised(b) == Raised(a)
  {
    forall k | 0 <= k < |a|
      ensures SlotWork(b[k]) == SlotWork(a[k]) && b[k].remoteFlag == a[k].remoteFlag
    {
      assert SameThread(a[k], b[k]);
      hide RestWork, PcWork;
    }
    hide SlotWork;
    WorkSame(a, b);
    RaisedSame(a, b);
  }

  lemma {:induction false} SameThreadsChain(a: seq<Slot>, b: seq<Slot>, c: seq<Slot>)
    requires SameThreads(a, b) && SameThreads(b, c)
    ensures SameThreads(a, c)
  {
    forall k | 0 <= k < |a|
      ensures SameThread(a[k], c[k])
    {
      assert SameThread(a[k], b[k]) && SameThread(b[k], c[k]);
    }
  }

  // ----- the simulator serves

  /** Steps a simulator needs until it has served the command of its own slot. */
  function UntilLocal(p: SimPc, req: bool): int {
    match p
    case AckValid(remote, _) => if remote then 97 else 1
    case AckStatus(remote, _) => if remote then 98 else 2
    case Store(_, k) => if k < PARS then 3 + PARS - k else 3
    case Print(remote, _) => if remote then 99 else 3
    case Load(_, _, inBox) => 36 + CELLS - |inBox|
    case GetCmd(remote, _) => if remote then 100 else 72
    case PollReq(v) => if req then 102 else if v then 73 else 75
    case PollValid => if req then 103 else 74
    case ClearReq => 96
    case GetOffset => 101
  }

  /** Steps it needs until it has served the request of another slot. */
  function UntilRemote(p: SimPc): int {
    match p
    case ClearReq => 1
    case AckValid(remote, _) => if remote then 2 else 9
    case AckStatus(remote, _) => if remote then 3 else 10
    case Print(remote, _) => if remote then 4 else 11
    case GetCmd(remote, _) => if remote then 5 else 80
    case GetOffset => 6
    case PollReq(_) => 7
    case PollValid => 8
    case Store(_, k) => if k < PARS then 11 + PARS - k else 11
    case Load(_, _, inBox) => 44 + CELLS - |inBox|
  }

  lemma {:induction false} OwnLocalNearer(s: Slot, i: nat, cmd: nat)
    requires |s.cells| == CELLS && SimControl(s, i) && OwnStep(s.sim) && s.cmdValid
    requires s.sim.GetCmd? && s.sim.remote ==> cmd == PRINTF
    ensures var t := Own(s, i, cmd, Idling);
            !t.cmdValid || 0 <= UntilLocal(t.sim, t.remoteReq) < UntilLocal(s.sim, s.remoteReq)
  {
    hide Executing, NeverAsks;
  }

  lemma {:induction false} OwnRemoteNearer(s: Slot, i: nat, cmd: nat)
    requires |s.cells| == CELLS && SimControl(s, i) && OwnStep(s.sim) && s.remoteReq
    requires s.sim.GetCmd? && s.sim.remote ==> cmd == PRINTF
    ensures var t := Own(s, i, cmd, Idling);
            !t.remoteReq || 0 <= UntilRemote(t.sim) < UntilRemote(s.sim)
  {
    hide Executing, NeverAsks;
  }

  lemma {:induction false} ForeignNearer(p: SimPc, req: bool)
    requires !OwnStep(p)
    ensures 0 <= UntilLocal(NextForeign(p), req) < UntilLocal(p, req)
    ensures 0 <= UntilRemote(NextForeign(p)) < UntilRemote(p)
  {}

  lemma {:induction false} ForeignMoves(slots: seq<Slot>, i: nat)
    requires i < |slots| && Reaches(slots, i) && !OwnStep(slots[i].sim)
    ensures AllCells(slots) && SimStep(slots, i, Idling)[i] == slots[i].(sim := NextForeign(slots[i].sim))
  {
    ForeignIs(slots, i, Idling);
    hide SimStep, NextForeign, ServedOne, SimControl, Sees;
  }

  lemma {:induction false} OwnMoves(slots: seq<Slot>, i: nat)
    requires i < |slots| && Reaches(slots, i) && OwnStep(slots[i].sim)
    ensures AllCells(slots) && Sees(slots, slots[i].sim) && SimControl(slots[i], i) && |slots[i].cells| == CELLS
    ensures slots[i].sim.GetCmd? && slots[i].sim.remote ==> FoundAt(slots, i) == PRINTF
    ensures SimStep(slots, i, Idling)[i] == Own(slots[i], i, FoundAt(slots, i), Idling)
  {
    OwnIsSimStep(slots, i, Idling);
    hide SimStep, Own, SimControl;
  }

  lemma {:induction false} LocalNearer(slots: seq<Slot>, i: nat)
    requires i < |slots| && Reaches(slots, i) && slots[i].cmdValid
    ensures AllCells(slots)
    ensures var t := SimStep(slots, i, Idling)[i];
            !t.cmdValid || 0 <= UntilLocal(t.sim, t.remoteReq) < UntilLocal(slots[i].sim, slots[i].remoteReq)
  {
    hide *;
    if OwnStep(slots[i].sim) {
      OwnMoves(slots, i);
      OwnLocalNearer(slots[i], i, FoundAt(slots, i));
    } else {
      ForeignMoves(slots, i);
      ForeignNearer(slots[i].sim, slots[i].remoteReq);
    }
  }

  lemma {:induction false} RemoteNearer(slots: seq<Slot>, i: nat)
    requires i < |slots| && Reaches(slots, i) && slots[i].remoteReq
    ensures AllCells(slots)
    ensures var t := SimStep(slots, i, Idling)[i];
            !t.remoteReq || 0 <= UntilRemote(t.sim) < UntilRemote(slots[i].sim)
  {
    hide *;
    if OwnStep(slots[i].sim) {
      OwnMoves(slots, i);
      OwnRemoteNearer(slots[i], i, FoundAt(slots, i));
    } else {
      ForeignMoves(slots, i);
      ForeignNearer(slots[i].sim, slots[i].remoteReq);
    }
  }

  lemma {:induction false} SimMoves(progs: seq<seq<Op>>, steps: seq<Action>, i: nat)
    requires Admissible(progs) && i < |progs|
    ensures AllCells(Run(progs, steps).slots) && Reaches(Run(progs, steps).slots, i)
    ensures var st, st' := Run(progs, steps), Run(progs, steps + [Sim(i, Idling)]);
            st'.slots == SimStep(st.slots, i, Idling) && st'.daemon == st.daemon && SimTouches(st.slots, st'.slots, i)
  {
    var st := Run(progs, steps);
    RunNext(progs, steps, Sim(i, Idling));
    ItReaches(st, i);
    SimStepTouches(st.slots, i, Idling);
    hide Inv, SimStep, SimTouches, Reaches, Run;
  }

  lemma {:induction false} PrefixOn(steps: seq<Action>, a: Action, reached: seq<Action>)
    requires steps + [a] <= reached
    ensures steps <= reached
  {
    assert steps <= steps + [a];
  }

  function Positive(n: int): nat {
    if n > 0 then n + 1 else 1
  }

  ghost function LocalMeasure(s: Slot): nat {
    if s.cmdValid then Positive(UntilLocal(s.sim, s.remoteReq)) else 0
  }

  ghost function RemoteMeasure(s: Slot): nat {
    if s.remoteReq then Positive(UntilRemote(s.sim)) else 0
  }

  lemma {:induction false} MeasuresFall(s: Slot, t: Slot)
    ensures s.cmdValid && (!t.cmdValid || 0 <= UntilLocal(t.sim, t.remoteReq) < UntilLocal(s.sim, s.remoteReq)) ==>
              LocalMeasure(t) < LocalMeasure(s)
    ensures s.remoteReq && (!t.remoteReq || 0 <= UntilRemote(t.sim) < UntilRemote(s.sim)) ==>
              RemoteMeasure(t) < RemoteMeasure(s)
  {
    hide UntilLocal, UntilRemote;
  }

  lemma {:induction false} TouchesThreads(a: seq<Slot>, b: seq<Slot>, i: nat)
    requires SimTouches(a, b, i)
    ensures SameThreads(a, b)
  {
    hide SameThreads;
  }

  lemma {:induction false} LocalFalls(progs: seq<seq<Op>>, steps: seq<Action>, i: nat)
    requires Admissible(progs) && i < |progs| && Run(progs, steps).slots[i].cmdValid
    ensures var st, st' := Run(progs, steps), Run(progs, steps + [Sim(i, Idling)]);
            SameThreads(st.slots, st'.slots) && st'.daemon == st.daemon
            && LocalMeasure(st'.slots[i]) < LocalMeasure(st.slots[i])
  {
    hide *;
    var a, b := Run(progs, steps).slots, Run(progs, steps + [Sim(i, Idling)]).slots;
    SimMoves(progs, steps, i);
    LocalNearer(a, i);
    MeasuresFall(a[i], b[i]);
    TouchesThreads(a, b, i);
  }

  lemma {:induction false} RemoteFalls(progs: seq<seq<Op>>, steps: seq<Action>, i: nat)
    requires Admissible(progs) && i < |progs| && Run(progs, steps).slots[i].remoteReq
    ensures var st, st' := Run(progs, steps), Run(progs, steps + [Sim(i, Idling)]);
            SameThreads(st.slots, st'.slots) && st'.daemon == st.daemon
            && RemoteMeasure(st'.slots[i]) < RemoteMeasure(st.slots[i])
  {
    hide *;
    var a, b := Run(progs, steps).slots, Run(progs, steps + [Sim(i, Idling)]).slots;
    SimMoves(progs, steps, i);
    RemoteNearer(a, i);
    MeasuresFall(a[i], b[i]);
    TouchesThreads(a, b, i);
  }

  lemma {:induction false} SameThreadsSelf(a: seq<Slot>)
    ensures SameThreads(a, a)
  {}

  /** The simulator of slot i until it has served its own command. */
  lemma {:induction false} ServeLocal(progs: seq<seq<Op>>, steps: seq<Action>, i: nat) returns (reached: seq<Action>)
    requires Admissible(progs) && i < |progs|
    ensures steps <= reached && !Run(progs, reached).slots[i].cmdValid
    ensures SameThreads(Run(progs, steps).slots, Run(progs, reached).slots)
    decreases LocalMeasure(Run(progs, steps).slots[i])
  {
    hide *;
    if !Run(progs, steps).slots[i].cmdValid {
      reached := steps;
      SameThreadsSelf(Run(progs, steps).slots);
    } else {
      var next := steps + [Sim(i, Idling)];
      LocalFalls(progs, steps, i);
      reached := ServeLocal(progs, next, i);
      PrefixOn(steps, Sim(i, Idling), reached);
      SameThreadsChain(Run(progs, steps).slots, Run(progs, next).slots, Run(progs, reached).slots);
    }
  }

  /** The simulator of slot i until no request is left with it. */
  lemma {:induction false} ServeRemote(progs: seq<seq<Op>>, steps: seq<Action>, i: nat) returns (reached: seq<Action>)
    requires Admissible(progs) && i < |progs|
    ensures steps <= reached && !Run(progs, reached).slots[i].remoteReq
    ensures SameThreads(Run(progs, steps).slots, Run(progs, reached).slots)
    ensures Run(progs, reached).daemon == Run(progs, steps).daemon
    decreases RemoteMeasure(Run(progs, steps).slots[i])
  {
    hide *;
    if !Run(progs, steps).slots[i].remoteReq {
      reached := steps;
      SameThreadsSelf(Run(progs, steps).slots);
    } else {
      var next := steps + [Sim(i, Idling)];
      RemoteFalls(progs, steps, i);
      reached := ServeRemote(progs, next, i);
      PrefixOn(steps, Sim(i, Idling), reached);
      SameThreadsChain(Run(progs, steps).slots, Run(progs, next).slots, Run(progs, reached).slots);
    }
  }

  // ----- the daemon gets round

  /** How far the daemon is from slot i, going round. */
  function Away(n: nat, j: nat, i: nat): nat {
    if j <= i then i - j else if j <= i + n then i + n - j else 0
  }

  /** Daemon steps until it clears a flag, at the latest that of slot i. */
  function UntilClear(d: DaemonPc, n: nat, i: nat): nat {
    match d
    case DClear(_, _) => 1
    case DSetReq(_, _) => 2
    case DSetOffset(_, _) => 3
    case DReq(j, _) => 4 + 4 * Away(n, j, i)
    case DOffset(j) => 5 + 4 * Away(n, j, i)
    case DValid(j) => 6 + 4 * Away(n, j, i)
    case DFlag(j) => 7 + 4 * Away(n, j, i)
  }

  /** Slot i wants something of a slot that is free. */
  ghost predicate Pending(st: State, i: nat) {
    && i < |st.slots| && OnRemote(st.slots[i]) && st.slots[i].remoteFlag && st.slots[i].remoteCmdValid
    && st.slots[i].remoteOffset == Current(st.slots[i]).target < |st.slots|
    && !st.slots[Current(st.slots[i]).target].remoteReq
  }

  lemma {:induction false} AwayNext(n: nat, j: nat, i: nat)
    requires j < n && i < n && j != i
    ensures Away(n, if j + 1 < n then j + 1 else 0, i) == Away(n, j, i) - 1
  {}

  /** The daemon's bookkeeping brings it nearer and changes no slot; a claim comes next to the clearing. */
  lemma {:induction false} DaemonNearer(st: State, i: nat)
    requires DaemonInv(st) && Pending(st, i) && !st.daemon.DClear?
    ensures var st', n := DaemonStep(st), |st.slots|;
            && UntilClear(st'.daemon, n, i) < UntilClear(st.daemon, n, i)
            && SameThreads(st.slots, st'.slots)
            && (st'.slots == st.slots || (st'.daemon.DSetReq? || st'.daemon.DClear?))
  {
    var d, n := st.daemon, |st.slots|;
    if (d.DFlag? || d.DValid? || d.DReq?) && d.i < n && d.i != i {
      AwayNext(n, d.i, i);
    }
    hide OnRemote, Asked, EngagedWith;
  }

  lemma {:induction false} ClearLowers(slots: seq<Slot>, i: nat)
    requires i < |slots| && slots[i].remoteFlag
    ensures var b := slots[i := slots[i].(remoteFlag := false)];
            Work(b) == Work(slots) && Raised(b) < Raised(slots)
  {
    var t := slots[i].(remoteFlag := false);
    FlaglessWork(slots[i]);
    hide Work, Raised, SlotWork;
    RaisedFalls(slots, i, t);
    WorkSame(slots, slots[i := t]);
  }

  lemma {:induction false} FlaglessWork(s: Slot)
    ensures SlotWork(s.(remoteFlag := false)) == SlotWork(s)
  {
    hide PcWork, RestWork;
  }

  lemma {:induction false} ClearIs(st: State)
    requires Inv(st) && st.daemon.DClear?
    ensures var i := st.daemon.i;
            && i < |st.slots| && st.slots[i].remoteFlag
            && DaemonStep(st).slots == st.slots[i := st.slots[i].(remoteFlag := false)]
  {
    assert DaemonInv(st);
    hide Inv, EngagedWith, Asked;
  }

  lemma {:induction false} DaemonLowers(st: State)
    requires Inv(st) && st.daemon.DClear?
    ensures var st' := DaemonStep(st);
            Work(st'.slots) == Work(st.slots) && Raised(st'.slots) < Raised(st.slots)
  {
    hide *;
    ClearIs(st);
    ClearLowers(st.slots, st.daemon.i);
  }

  /** The daemon alone until it has cleared a flag. */
  lemma {:induction false} DaemonClears(progs: seq<seq<Op>>, steps: seq<Action>, i: nat) returns (reached: seq<Action>)
    requires Admissible(progs)
    requires var st := Run(progs, steps);
             Pending(st, i) || st.daemon.DSetReq? || st.daemon.DClear?
    ensures steps <= reached
    ensures Work(Run(progs, reached).slots) == Work(Run(progs, steps).slots)
    ensures Raised(Run(progs, reached).slots) < Raised(Run(progs, steps).slots)
    decreases UntilClear(Run(progs, steps).daemon, |progs|, i)
  {
    var st, next := Run(progs, steps), steps + [Daemon];
    RunNext(progs, steps, Daemon);
    assert Run(progs, next) == DaemonStep(st);
    if st.daemon.DClear? {
      DaemonLowers(st);
      reached := next;
    } else {
      DaemonMovesOn(st, i);
      hide *;
      reached := DaemonClears(progs, next, i);
      PrefixOn(steps, Daemon, reached);
    }
    hide *;
  }

  lemma {:induction false} DaemonMovesOn(st: State, i: nat)
    requires Inv(st) && !st.daemon.DClear? && (Pending(st, i) || st.daemon.DSetReq?)
    ensures var st', n := DaemonStep(st), |st.slots|;
            && UntilClear(st'.daemon, n, i) < UntilClear(st.daemon, n, i)
            && (Pending(st', i) || st'.daemon.DSetReq? || st'.daemon.DClear?)
            && Work(st'.slots) == Work(st.slots) && Raised(st'.slots) == Raised(st.slots)
  {
    var st' := DaemonStep(st);
    assert DaemonInv(st);
    if st.daemon.DSetReq? {
      SetReqIsLast(st);
    } else {
      DaemonNearer(st, i);
    }
    SameWork(st.slots, st'.slots);
    hide Inv, Work, Raised, SameThreads, DaemonStep, DaemonInv, UntilClear;
  }

  lemma {:induction false} SetReqIsLast(st: State)
    requires DaemonInv(st) && st.daemon.DSetReq?
    ensures DaemonStep(st).daemon.DClear? && SameThreads(st.slots, DaemonStep(st).slots)
    ensures forall n, i: nat :: UntilClear(DaemonStep(st).daemon, n, i) < UntilClear(st.daemon, n, i)
  {
    hide Asked;
  }

  // ----- all programs complete

  ghost predicate Completed(st: State) {
    forall i | 0 <= i < |st.slots| :: st.slots[i].next == |st.slots[i].prog|
  }

  lemma {:induction false} CallerFalls(progs: seq<seq<Op>>, steps: seq<Action>, i: nat)
    requires Admissible(progs) && i < |progs|
    requires var s := Run(progs, steps).slots[i]; s.next < |s.prog| && !Blocked(s)
    ensures Work(Run(progs, steps + [Caller(i)]).slots) < Work(Run(progs, steps).slots)
  {
    var st := Run(progs, steps);
    var s := st.slots[i];
    RunNext(progs, steps, Caller(i));
    assert SlotInv(s, i) && Shape(s) && Flags(s);
    CallerGoesOn(s);
    assert |s.cells| == CELLS;
    assert Step(st, Caller(i)).slots == st.slots[i := CallerStep(s)];
    hide *;
    WorkFalls(st.slots, i, CallerStep(s));
  }

  lemma {:induction false} RunWork(progs: seq<seq<Op>>, steps: seq<Action>)
    requires Admissible(progs)
    ensures Work(Run(progs, steps).slots) >= 0
  {
    var st := Run(progs, steps);
    forall k | 0 <= k < |st.slots|
      ensures Shape(st.slots[k])
    {
      assert SlotInv(st.slots[k], k);
    }
    hide Inv, Run;
    WorkNat(st.slots);
  }

  /** Less left to do, or a request further on. */
  ghost predicate Advanced(st: State, st': State) {
    && Work(st'.slots) <= Work(st.slots)
    && (Work(st'.slots) < Work(st.slots) || Raised(st'.slots) < Raised(st.slots))
  }

  lemma {:induction false} AfterService(a: seq<Slot>, b: seq<Slot>, c: seq<Slot>)
    requires SameThreads(a, b) && Work(c) < Work(b)
    ensures Work(c) < Work(a)
  {
    SameWork(a, b);
    hide Work, Raised, SameThreads;
  }

  lemma {:induction false} PrefixChain(a: seq<Action>, b: seq<Action>, c: seq<Action>)
    requires a <= b && b <= c
    ensures a <= c
  {}

  lemma {:induction false} PrefixNext(a: seq<Action>, b: seq<Action>, x: Action)
    requires a <= b
    ensures a <= b + [x]
  {}

  /** A thread waiting for its own simulator. */
  lemma {:induction false} PastLocal(progs: seq<seq<Op>>, steps: seq<Action>, i: nat) returns (reached: seq<Action>)
    requires Admissible(progs) && i < |progs|
    requires var s := Run(progs, steps).slots[i]; s.next < |s.prog| && s.caller.WaitDone?
    ensures steps <= reached && Advanced(Run(progs, steps), Run(progs, reached))
  {
    hide *;
    var served := ServeLocal(progs, steps, i);
    SlotsAgree(Run(progs, steps).slots, Run(progs, served).slots, i);
    Answered(Run(progs, served).slots[i]);
    reached := PastWait(progs, steps, served, i);
  }

  lemma {:induction false} Answered(s: Slot)
    requires s.caller.WaitDone? && !s.cmdValid
    ensures !Blocked(s)
  {}

  /** A thread waiting for its request to be acknowledged, once it has been claimed. */
  lemma {:induction false} PastClaimed(progs: seq<seq<Op>>, steps: seq<Action>, i: nat) returns (reached: seq<Action>)
    requires Admissible(progs) && i < |progs|
    requires var s := Run(progs, steps).slots[i]; s.next < |s.prog| && s.caller.RWaitValid? && !s.remoteFlag
    ensures steps <= reached && Advanced(Run(progs, steps), Run(progs, reached))
  {
    hide *;
    var t := TargetOf(Run(progs, steps), i);
    var served := ServeRemote(progs, steps, t);
    SlotsAgree(Run(progs, steps).slots, Run(progs, served).slots, i);
    SameThreadAsks(Run(progs, steps).slots[i], Run(progs, served).slots[i]);
    Acknowledged(Run(progs, served), i, t);
    reached := PastWait(progs, steps, served, i);
  }

  /** Served, and no longer blocked. */
  lemma {:induction false} PastWait(progs: seq<seq<Op>>, steps: seq<Action>, served: seq<Action>, i: nat)
      returns (reached: seq<Action>)
    requires Admissible(progs) && i < |progs| && steps <= served
    requires SameThreads(Run(progs, steps).slots, Run(progs, served).slots)
    requires var s := Run(progs, served).slots[i]; s.next < |s.prog| && !Blocked(s)
    ensures steps <= reached && Advanced(Run(progs, steps), Run(progs, reached))
  {
    hide *;
    CallerFalls(progs, served, i);
    reached := served + [Caller(i)];
    PrefixNext(steps, served, Caller(i));
    AfterService(Run(progs, steps).slots, Run(progs, served).slots, Run(progs, reached).slots);
    LessIsAdvanced(Run(progs, steps), Run(progs, reached));
  }

  lemma {:induction false} LessIsAdvanced(a: State, b: State)
    requires Work(b.slots) < Work(a.slots)
    ensures Advanced(a, b)
  {
    hide Work, Raised;
  }

  lemma {:induction false} TargetOf(st: State, i: nat) returns (t: nat)
    requires Inv(st) && i < |st.slots| && st.slots[i].next < |st.slots[i].prog| && st.slots[i].caller.RWaitValid?
    ensures OnRemote(st.slots[i]) && t == Current(st.slots[i]).target < |st.slots|
    ensures st.slots[i].remoteOffset == t && Asked(st.slots[i])
  {
    var s := st.slots[i];
    assert SlotInv(s, i) && Flags(s);
    t := Current(s).target;
    assert s.prog[s.next].RemotePrint?;
  }

  lemma {:induction false} Acknowledged(st: State, i: nat, t: nat)
    requires Inv(st) && i < |st.slots| && Asked(st.slots[i]) && t == Current(st.slots[i]).target < |st.slots|
    requires !st.slots[i].remoteFlag && !st.slots[t].remoteReq && st.slots[i].caller.RWaitValid?
    ensures !Blocked(st.slots[i])
  {
    assert Waiting(st, i);
    hide Inv, Asked;
  }

  lemma {:induction false} StillPending(st: State, i: nat, t: nat)
    requires Inv(st) && i < |st.slots| && Asked(st.slots[i]) && t == Current(st.slots[i]).target < |st.slots|
    requires st.slots[i].caller.RWaitValid? && st.slots[i].remoteFlag && !st.slots[t].remoteReq
    requires st.slots[i].remoteCmdValid
    ensures Pending(st, i)
  {
    assert SlotInv(st.slots[i], i) && Flags(st.slots[i]);
    hide Inv, SlotInv;
  }

  /** Its target is free: either the request has just been acknowledged, or the daemon can claim it. */
  lemma {:induction false} PastFree(progs: seq<seq<Op>>, steps: seq<Action>, i: nat, t: nat)
      returns (reached: seq<Action>)
    requires Admissible(progs) && i < |progs|
    requires var st := Run(progs, steps);
             && Asked(st.slots[i]) && t == Current(st.slots[i]).target < |st.slots| && !st.slots[t].remoteReq
             && st.slots[i].caller.RWaitValid? && st.slots[i].remoteFlag
    ensures steps <= reached && Advanced(Run(progs, steps), Run(progs, reached))
  {
    var st := Run(progs, steps);
    if st.slots[i].remoteCmdValid {
      StillPending(st, i, t);
      hide *;
      reached := DaemonClears(progs, steps, i);
    } else {
      assert !Blocked(st.slots[i]) && st.slots[i].next < |st.slots[i].prog|;
      hide *;
      SameThreadsSelf(st.slots);
      reached := PastWait(progs, steps, steps, i);
    }
  }

  lemma {:induction false} SameThreadAsks(s: Slot, t: Slot)
    requires SameThread(s, t)
    ensures Asked(t) == Asked(s) && (Asked(s) ==> Current(t) == Current(s))
  {}

  lemma {:induction false} AdvancedFrom(a: State, b: State, c: State)
    requires SameThreads(a.slots, b.slots) && Advanced(b, c)
    ensures Advanced(a, c)
  {
    SameWork(a.slots, b.slots);
    hide Work, Raised, SameThreads;
  }

  /** A thread waiting for its request to be claimed. */
  lemma {:induction false} PastUnclaimed(progs: seq<seq<Op>>, steps: seq<Action>, i: nat) returns (reached: seq<Action>)
    requires Admissible(progs) && i < |progs|
    requires var s := Run(progs, steps).slots[i]; s.next < |s.prog| && s.caller.RWaitValid? && s.remoteFlag
    ensures steps <= reached && Advanced(Run(progs, steps), Run(progs, reached))
  {
    hide *;
    var t := TargetOf(Run(progs, steps), i);
    var served := ServeRemote(progs, steps, t);
    SlotsAgree(Run(progs, steps).slots, Run(progs, served).slots, i);
    SameThreadAsks(Run(progs, steps).slots[i], Run(progs, served).slots[i]);
    reached := PastFree(progs, served, i, t);
    PrefixChain(steps, served, reached);
    AdvancedFrom(Run(progs, steps), Run(progs, served), Run(progs, reached));
  }

  lemma {:induction false} SlotsAgree(a: seq<Slot>, b: seq<Slot>, i: nat)
    requires SameThreads(a, b) && i < |a|
    ensures SameThread(a[i], b[i]) && b[i].caller == a[i].caller && b[i].remoteFlag == a[i].remoteFlag
    ensures b[i].prog == a[i].prog && b[i].next == a[i].next
  {}

  /** A thread whose request has been served before the daemon has cleared its flag. */
  lemma {:induction false} PastFlag(progs: seq<seq<Op>>, steps: seq<Action>, i: nat) returns (reached: seq<Action>)
    requires Admissible(progs) && i < |progs|
    requires var s := Run(progs, steps).slots[i]; s.next < |s.prog| && s.caller.RWaitFlag? && s.remoteFlag
    ensures steps <= reached && Advanced(Run(progs, steps), Run(progs, reached))
  {
    var st := Run(progs, steps);
    RunFlags(progs, steps);
    assert SlotInv(st.slots[i], i) && Flags(st.slots[i]);
    assert Overtaken(st.slots[i]);
    assert st.daemon.DClear?;
    hide *;
    reached := DaemonClears(progs, steps, i);
  }

  /** A thread that has not finished can get on. */
  lemma {:induction false} Advance(progs: seq<seq<Op>>, steps: seq<Action>, i: nat) returns (reached: seq<Action>)
    requires Admissible(progs) && i < |progs| && Run(progs, steps).slots[i].next < |Run(progs, steps).slots[i].prog|
    ensures steps <= reached && Advanced(Run(progs, steps), Run(progs, reached))
  {
    var s := Run(progs, steps).slots[i];
    if !Blocked(s) {
      CallerFalls(progs, steps, i);
      hide *;
      reached := steps + [Caller(i)];
    } else if s.caller.WaitDone? {
      hide *;
      reached := PastLocal(progs, steps, i);
    } else if s.caller.RWaitFlag? {
      assert s.remoteFlag;
      hide *;
      reached := PastFlag(progs, steps, i);
    } else {
      assert s.caller.RWaitValid?;
      hide *;
      if s.remoteFlag {
        reached := PastUnclaimed(progs, steps, i);
      } else {
        reached := PastClaimed(progs, steps, i);
      }
    }
  }

  lemma {:induction false} AdvancedMeans(a: State, b: State)
    requires Advanced(a, b)
    ensures Work(b.slots) < Work(a.slots) || (Work(b.slots) == Work(a.slots) && Raised(b.slots) < Raised(a.slots))
  {
    hide Work, Raised;
  }

  lemma {:induction false} Finish(progs: seq<seq<Op>>, steps: seq<Action>) returns (reached: seq<Action>)
    requires Admissible(progs)
    ensures steps <= reached && Completed(Run(progs, reached))
    decreases Work(Run(progs, steps).slots), Raised(Run(progs, steps).slots)
  {
    var st := Run(progs, steps);
    if Completed(st) {
      reached := steps;
    } else {
      var i := Unfinished(st);
      RunWork(progs, steps);
      var further := Advance(progs, steps, i);
      RunWork(progs, further);
      AdvancedMeans(st, Run(progs, further));
      hide *;
      reached := Finish(progs, further);
      PrefixChain(steps, further, reached);
    }
  }

  lemma {:induction false} Unfinished(st: State) returns (i: nat)
    requires Inv(st) && !Completed(st)
    ensures i < |st.slots| && st.slots[i].next < |st.slots[i].prog|
  {
    i :| 0 <= i < |st.slots| && st.slots[i].next != |st.slots[i].prog|;
    assert SlotInv(st.slots[i], i) && Shape(st.slots[i]);
  }

  /** Everything the program of a slot asks for has been done, once and in order. */
  ghost predicate AllDone(s: Slot) {
    && s.next == |s.prog| && s.caller.Idle?
    && |s.sent| == |Locals(s.prog, |s.prog|)|
    && (forall k | 0 <= k < |s.sent| :: Conforms(s.sent[k], Locals(s.prog, |s.prog|)[k]))
    && s.executed == s.sent && |s.replies| == |s.sent| == |s.got|
    && s.asked == Prints(s.prog, |s.prog|) && s.printed == s.asked
  }

  lemma {:induction false} CompleteIsDone(progs: seq<seq<Op>>, steps: seq<Action>, i: nat)
    requires Admissible(progs) && i < |progs| && Completed(Run(progs, steps))
    ensures AllDone(Run(progs, steps).slots[i])
  {
    var st := Run(progs, steps);
    var s := st.slots[i];
    assert SlotInv(s, i) && Shape(s) && Flags(s) && History(s) && Waiting(st, i);
    assert s.next == |s.prog| && s.caller.Idle? && !s.cmdValid && !Asked(s) && Begun(s) == |s.prog|;
    hide Run, Inv, SlotInv, Locals, Prints, Conforms, Answers, Transfer, Packing, SimControl, GoodProg;
  }

  lemma {:induction false} ProgsKept(progs: seq<seq<Op>>, steps: seq<Action>, i: nat)
    requires Admissible(progs) && i < |progs|
    ensures Run(progs, steps).slots[i].prog == progs[i]
  {
    if steps == [] {
      assert Run(progs, []) == Initial(progs);
    } else {
      var before, a := steps[..|steps| - 1], steps[|steps| - 1];
      ProgsKept(progs, before, i);
      var st := Run(progs, before);
      assert Run(progs, steps) == Step(st, a);
      StepKeepsProg(st, a, i);
      hide Run, Inv, Step;
    }
  }

  lemma {:induction false} CallerKeepsProg(s: Slot)
    requires s.next < |s.prog| && |s.cells| == CELLS && Current(s).WellFormed()
    ensures CallerStep(s).prog == s.prog
  {
    hide Op.Args, Op.Cmd, Op.WellFormed;
  }

  lemma {:induction false} DaemonKeepsProg(st: State, i: nat)
    requires i < |st.slots|
    ensures DaemonStep(st).slots[i].prog == st.slots[i].prog
  {}

  lemma {:induction false} CallerStepKeeps(st: State, j: nat, i: nat)
    requires Inv(st) && Shaped(st) && i < |st.slots| && |Step(st, Caller(j)).slots| == |st.slots|
    ensures Step(st, Caller(j)).slots[i].prog == st.slots[i].prog
  {
    if j < |st.slots| && st.slots[j].next < |st.slots[j].prog| {
      CallerKeepsProg(st.slots[j]);
    }
    hide Inv, CallerStep;
  }

  lemma {:induction false} SimStepKeeps(st: State, j: nat, reply: seq<int>, i: nat)
    requires Inv(st) && Shaped(st) && i < |st.slots| && |Step(st, Sim(j, reply)).slots| == |st.slots|
    ensures Step(st, Sim(j, reply)).slots[i].prog == st.slots[i].prog
  {
    if j < |st.slots| && |reply| == PARS {
      ItReaches(st, j);
      SimStepTouches(st.slots, j, reply);
      TouchesThreads(st.slots, SimStep(st.slots, j, reply), j);
      SlotsAgree(st.slots, SimStep(st.slots, j, reply), i);
    }
    hide Inv, SimStep, SimTouches, Reaches, SameThreads;
  }

  lemma {:induction false} StepKeepsProg(st: State, a: Action, i: nat)
    requires Inv(st) && i < |st.slots|
    ensures Shaped(st) && |Step(st, a).slots| == |st.slots| && Step(st, a).slots[i].prog == st.slots[i].prog
  {
    InvShaped(st);
    StepPreserves(st, a);
    match a
    case Caller(j) =>
      hide *;
      CallerStepKeeps(st, j, i);
    case Sim(j, reply) =>
      hide *;
      SimStepKeeps(st, j, reply, i);
    case Daemon =>
      DaemonKeepsProg(st, i);
      hide Inv, DaemonStep;
  }

  /**
   From every state of every run of admissible programs some further steps complete all of them: every local
   command has been executed and answered, every print request printed, each once and in order.
   */
  lemma {:induction false} NeverStuck(progs: seq<seq<Op>>, steps: seq<Action>) returns (reached: seq<Action>)
    requires Admissible(progs)
    ensures steps <= reached
    ensures forall i | 0 <= i < |progs| ::
              Run(progs, reached).slots[i].prog == progs[i] && AllDone(Run(progs, reached).slots[i])
  {
    reached := Finish(progs, steps);
    hide *;
    forall i | 0 <= i < |progs|
      ensures Run(progs, reached).slots[i].prog == progs[i] && AllDone(Run(progs, reached).slots[i])
    {
      ProgsKept(progs, reached, i);
      CompleteIsDone(progs, reached, i);
    }
  }
}
