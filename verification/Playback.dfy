/** Captured bus traces: the recorder that writes them and the interpreter that plays them back. */
module Playback {
  import opened Bits
  import opened Bits64
  import opened Wrappers

  type U64 = w: nat | w < TWO64

  datatype Event = Wr(adr: nat, dat: nat) | Rd(adr: nat)

  /** A deterministic device: what a read returns after a history of bus events. */
  type Device = (seq<Event>, nat) -> U64

  datatype Cmd =
    | Write(adr: nat, dat: nat)
    | Compare(adr: nat, dat: nat)
    | Spin(adr: nat, dat: nat, mask: nat, timeOut: int)

  predicate Fits(c: Cmd) {
    c.adr < TWO32 && c.dat < TWO64 && (c.Spin? ==> c.mask < TWO64 && -0x8000_0000 <= c.timeOut < 0x8000_0000)
  }

  /** Equal under the mask. */
  predicate Matches(rd: nat, dat: nat, mask: nat) {
    Differ(Word64(rd % TWO64), Word64(dat % TWO64), Word64(mask % TWO64)) == Word(0)
  }

  // ----- what a command does on the bus

  /** Reading until a match or until the count runs out: the reads, and whether there was a match. */
  function Spinning(dev: Device, hist: seq<Event>, c: Cmd, n: int): (r: (seq<Event>, bool))
    requires c.Spin?
    decreases n
  {
    if n <= 0 then ([], false)
    else if Matches(dev(hist, c.adr), c.dat, c.mask) then ([Rd(c.adr)], true)
    else
      var rest := Spinning(dev, hist + [Rd(c.adr)], c, n - 1);
      ([Rd(c.adr)] + rest.0, rest.1)
  }

  function Perform(dev: Device, hist: seq<Event>, c: Cmd): seq<Event> {
    match c
    case Write(adr, dat) => hist + [Wr(adr, dat)]
    case Compare(adr, _) => hist + [Rd(adr)]
    case Spin(_, _, _, timeOut) => hist + Spinning(dev, hist, c, timeOut).0
  }

  function PerformAll(dev: Device, hist: seq<Event>, cs: seq<Cmd>): seq<Event> {
    if cs == [] then hist else Perform(dev, PerformAll(dev, hist, cs[..|cs| - 1]), cs[|cs| - 1])
  }

  /** A spin with a count ran out of it. */
  predicate TimedOut(dev: Device, hist: seq<Event>, c: Cmd) {
    c.Spin? && c.timeOut > 0 && !Spinning(dev, hist, c, c.timeOut).1
  }

  /** What a comparison expects is what the device returned when it was recorded. */
  ghost predicate Honest(dev: Device, hist: seq<Event>, cs: seq<Cmd>) {
    forall k | 0 <= k < |cs| && cs[k].Compare? :: cs[k].dat == dev(PerformAll(dev, hist, cs[..k]), cs[k].adr)
  }

  // ----- the recorded words

  /** A signed 32-bit count printed as an unsigned word. */
  function OfInt(t: int): nat
    requires t >= -0x8000_0000
  {
    if t < 0 then t + TWO32 else t
  }

  /** A word narrowed to a signed 32-bit count. */
  function ToInt(w: nat): int {
    var l := w % TWO32;
    if l >= 0x8000_0000 then l - TWO32 else l
  }

  function Encode(c: Cmd): seq<nat>
    requires Fits(c)
  {
    match c
    case Write(adr, dat) => [1, adr, dat]
    case Compare(adr, dat) => [2, adr, dat]
    case Spin(adr, dat, mask, timeOut) => [3, adr, dat, mask, OfInt(timeOut)]
  }

  function EncodeAll(cs: seq<Cmd>): seq<nat>
    requires forall k | 0 <= k < |cs| :: Fits(cs[k])
  {
    if cs == [] then [] else EncodeAll(cs[..|cs| - 1]) + Encode(cs[|cs| - 1])
  }

  // ----- the interpreter

  datatype Outcome = Outcome(errCnt: nat, i: nat, hist: seq<Event>)

  predicate InRange(adr: nat, upper: nat, lower: nat) {
    lower <= adr < upper
  }

  /** One command at the cursor; None where it would read beyond the array. */
  function PlayOne(dev: Device, hist: seq<Event>, s: seq<nat>, i: nat, upper: nat, lower: nat): Option<Outcome> {
    if i >= |s| then None
    else if s[i] == 1 then
      if i + 1 >= |s| then None
      else if !InRange(s[i + 1], upper, lower) then Some(Outcome(1, i + 3, hist))
      else if i + 2 >= |s| then None
      else Some(Outcome(0, i + 3, hist + [Wr(s[i + 1], s[i + 2])]))
    else if s[i] == 2 then
      if i + 1 >= |s| then None
      else if !InRange(s[i + 1], upper, lower) then Some(Outcome(1, i + 3, hist))
      else if i + 2 >= |s| then None
      else Some(Outcome(if dev(hist, s[i + 1]) != s[i + 2] then 1 else 0, i + 3, hist + [Rd(s[i + 1])]))
    else if s[i] == 3 then
      if i + 1 >= |s| then None
      // outside the window the cursor stays where it is, and no error is counted
      else if !InRange(s[i + 1], upper, lower) then Some(Outcome(0, i, hist))
      else if i + 4 >= |s| then None
      else
        var limit := ToInt(s[i + 4]);
        var r := Spinning(dev, hist, Spin(s[i + 1], s[i + 2], s[i + 3], limit), limit);
        Some(Outcome(if limit > 0 && !r.1 then 1 else 0, i + 5, hist + r.0))
    // the label of the trap state is misspelt: an unknown command is skipped over without an error
    else Some(Outcome(0, i, hist))
  }

  function Play(dev: Device, hist: seq<Event>, s: seq<nat>, i: nat, n: nat, upper: nat, lower: nat): Option<Outcome>
    decreases n
  {
    if n == 0 then Some(Outcome(0, i, hist))
    else
      var o := PlayOne(dev, hist, s, i, upper, lower);
      if o.None? || o.value.errCnt > 0 then o
      else Play(dev, o.value.hist, s, o.value.i, n - 1, upper, lower)
  }

  /** The device on its bus, and everything that has happened on it. */
  class Bus {
    const device: Device
    var hist: seq<Event>

    constructor (device: Device, hist: seq<Event>)
      ensures this.device == device && this.hist == hist
    {
      this.device, this.hist := device, hist;
    }

    method Write(adr: nat, dat: nat)
      modifies this
      ensures hist == old(hist) + [Wr(adr, dat)]
    {
      hist := hist + [Wr(adr, dat)];
    }

    method Read(adr: nat) returns (dat: U64)
      modifies this
      ensures dat == device(old(hist), adr) && hist == Extended(old(hist), Rd(adr))
    {
      dat := device(hist, adr);
      hist := hist + [Rd(adr)];
    }
  }

  lemma {:induction false} PlayNext(dev: Device, hist: seq<Event>, s: seq<nat>, i: nat, n: nat,
                                    upper: nat, lower: nat)
    requires n > 0
    ensures var o := PlayOne(dev, hist, s, i, upper, lower);
            Play(dev, hist, s, i, n, upper, lower) ==
            if o.None? || o.value.errCnt > 0 then o else Play(dev, o.value.hist, s, o.value.i, n - 1, upper, lower)
  {
    hide PlayOne;
  }

  lemma {:induction false} PlayEnd(dev: Device, hist: seq<Event>, s: seq<nat>, i: nat, upper: nat, lower: nat)
    ensures Play(dev, hist, s, i, 0, upper, lower) == Some(Outcome(0, i, hist))
  {
    hide PlayOne;
  }

  method CepPlayback(bus: Bus, cmdSeq: array<nat>, upperAdr: nat, lowerAdr: nat, totalCmds: nat)
    returns (errCnt: nat, i: nat)
    requires Play(bus.device, bus.hist, cmdSeq[..], 0, totalCmds, upperAdr, lowerAdr).Some?
    modifies bus
    ensures Play(bus.device, old(bus.hist), cmdSeq[..], 0, totalCmds, upperAdr, lowerAdr) ==
            Some(Outcome(errCnt, i, bus.hist))
  {
    hide *;
    ghost var s := cmdSeq[..];
    ghost var goal := Play(bus.device, bus.hist, s, 0, totalCmds, upperAdr, lowerAdr);
    errCnt, i := 0, 0;
    for c := 0 to totalCmds
      invariant cmdSeq[..] == s && goal.Some?
      invariant errCnt == 0 && goal == Play(bus.device, bus.hist, s, i, totalCmds - c, upperAdr, lowerAdr)
    {
      PlayNext(bus.device, bus.hist, s, i, totalCmds - c, upperAdr, lowerAdr);
      errCnt, i := PlayCommand(bus, cmdSeq, i, upperAdr, lowerAdr);
      if errCnt > 0 {
        return;
      }
    }
    PlayEnd(bus.device, bus.hist, s, i, upperAdr, lowerAdr);
  }

  /** The switch over commands: one command at the cursor. */
  method PlayCommand(bus: Bus, cmdSeq: array<nat>, at: nat, upperAdr: nat, lowerAdr: nat) returns (errCnt: nat, i: nat)
    requires PlayOne(bus.device, bus.hist, cmdSeq[..], at, upperAdr, lowerAdr).Some?
    modifies bus
    ensures PlayOne(bus.device, old(bus.hist), cmdSeq[..], at, upperAdr, lowerAdr) ==
            Some(Outcome(errCnt, i, bus.hist))
  {
    hide Matches, ToInt, Spinning;
    errCnt, i := 0, at;
    if cmdSeq[i] == 1 {
      if InRange(cmdSeq[i + 1], upperAdr, lowerAdr) {
        bus.Write(cmdSeq[i + 1], cmdSeq[i + 2]);
      } else {
        errCnt := errCnt + 1;
      }
      i := i + 3;
    } else if cmdSeq[i] == 2 {
      if InRange(cmdSeq[i + 1], upperAdr, lowerAdr) {
        var rdDat := bus.Read(cmdSeq[i + 1]);
        if rdDat != cmdSeq[i + 2] {
          errCnt := errCnt + 1;
        }
      } else {
        errCnt := errCnt + 1;
      }
      i := i + 3;
    } else if cmdSeq[i] == 3 {
      if InRange(cmdSeq[i + 1], upperAdr, lowerAdr) {
        errCnt := PlaySpin(bus, cmdSeq[i + 1], cmdSeq[i + 2], cmdSeq[i + 3], ToInt(cmdSeq[i + 4]));
        i := i + 5;
      }
    }
  }

  /** A spin that started with this history has made the reads `done`, and comes to `all` in the end. */
  ghost predicate Spins(bus: Bus, start: seq<Event>, done: seq<Event>, all: (seq<Event>, bool), c: Cmd, left: int)
    reads bus
  {
    c.Spin? && bus.hist == start + done && Comes(bus.device, bus.hist, done, all, c, left)
  }

  /** One read of a spin, and whether it matches. */
  method SpinRead(bus: Bus, adr: nat, dat: nat, mask: nat, ghost start: seq<Event>, ghost done: seq<Event>,
                  ghost all: (seq<Event>, bool), ghost c: Cmd, ghost left: int)
    returns (hit: bool, ghost done': seq<Event>)
    requires Spins(bus, start, done, all, c, left) && left > 0
    requires c.Spin? && c.adr == adr && c.dat == dat && c.mask == mask
    modifies bus
    ensures if hit then bus.hist == start + done' && all == (done', true)
            else Spins(bus, start, done', all, c, left - 1)
  {
    hide Comes, Matches, Extended;
    SpinNext(bus.device, start, bus.hist, done, all, c, left);
    var rdDat := bus.Read(adr);
    done' := Extended(done, Rd(adr));
    hit := Matches(rdDat, dat, mask);
  }

  lemma {:induction false} SpinStarts(bus: Bus, c: Cmd, left: int)
    requires c.Spin?
    ensures Spins(bus, bus.hist, [], Spinning(bus.device, bus.hist, c, left), c, left)
  {
    NoReads(bus.device, bus.hist, c, left);
    hide Comes, Spinning;
  }

  lemma {:induction false} SpinEnds(bus: Bus, start: seq<Event>, done: seq<Event>, all: (seq<Event>, bool), c: Cmd,
                                    left: int)
    requires Spins(bus, start, done, all, c, left) && left <= 0
    ensures bus.hist == start + done && all == (done, false)
  {
    SpinOver(bus.device, bus.hist, done, all, c, left);
    hide Comes;
  }

  /** The spin loop of the interpreter: an error only when the count is used up. */
  method PlaySpin(bus: Bus, adr: nat, dat: nat, mask: nat, timeOut: int) returns (errCnt: nat)
    modifies bus
    ensures var r := Spinning(bus.device, old(bus.hist), Spin(adr, dat, mask, timeOut), timeOut);
            bus.hist == old(bus.hist) + r.0 && errCnt == if timeOut > 0 && !r.1 then 1 else 0
  {
    hide *;
    var left := timeOut;
    ghost var c, start := Spin(adr, dat, mask, timeOut), bus.hist;
    ghost var done: seq<Event> := [];
    ghost var all := Spinning(bus.device, start, c, left);
    SpinStarts(bus, c, left);
    while left > 0
      invariant Spins(bus, start, done, all, c, left) && (timeOut > 0 ==> left > 0)
      decreases left
    {
      var hit: bool;
      hit, done := SpinRead(bus, adr, dat, mask, start, done, all, c, left);
      if hit { return 0; }
      left := left - 1;
      if left <= 0 {
        SpinEnds(bus, start, done, all, c, left);
        return 1;
      }
    }
    SpinEnds(bus, start, done, all, c, left);
    errCnt := 0;
  }

  lemma {:induction false} NoReads(dev: Device, hist: seq<Event>, c: Cmd, left: int)
    requires c.Spin?
    ensures hist + [] == hist && Comes(dev, hist, [], Spinning(dev, hist, c, left), c, left)
  {
    assert [] + Spinning(dev, hist, c, left).0 == Spinning(dev, hist, c, left).0;
    hide Spinning;
  }

  function Extended(h: seq<Event>, e: Event): seq<Event> {
    h + [e]
  }

  lemma {:induction false} SpinNext(dev: Device, start: seq<Event>, hist: seq<Event>, done: seq<Event>,
                                    all: (seq<Event>, bool),
                                    c: Cmd, left: int)
    requires c.Spin? && left > 0 && Comes(dev, hist, done, all, c, left) && hist == start + done
    ensures Extended(hist, Rd(c.adr)) == start + Extended(done, Rd(c.adr))
    ensures if Matches(dev(hist, c.adr), c.dat, c.mask) then all == (Extended(done, Rd(c.adr)), true)
            else Comes(dev, Extended(hist, Rd(c.adr)), Extended(done, Rd(c.adr)), all, c, left - 1)
  {
    hide Matches;
    var rest := Spinning(dev, hist + [Rd(c.adr)], c, left - 1);
    assert done + ([Rd(c.adr)] + rest.0) == (done + [Rd(c.adr)]) + rest.0;
  }

  lemma {:induction false} SpinOver(dev: Device, hist: seq<Event>, done: seq<Event>, all: (seq<Event>, bool), c: Cmd,
                                    left: int)
    requires c.Spin? && left <= 0 && Comes(dev, hist, done, all, c, left)
    ensures all == (done, false)
  {
    assert done + [] == done;
  }

  /** After the reads `done`, the rest of a spin comes to `all`. */
  ghost predicate Comes(dev: Device, hist: seq<Event>, done: seq<Event>, all: (seq<Event>, bool), c: Cmd, left: int)
    requires c.Spin?
  {
    var rest := Spinning(dev, hist, c, left);
    all == (done + rest.0, rest.1)
  }

  // ----- the recorder

  /** The spin loop of the recorder: whether there was a match before the count was used up. */
  method ReadUntil(bus: Bus, adr: nat, dat: nat, mask: nat, timeOut: int) returns (matched: bool)
    modifies bus
    ensures var r := Spinning(bus.device, old(bus.hist), Spin(adr, dat, mask, timeOut), timeOut);
            bus.hist == old(bus.hist) + r.0 && matched == r.1
  {
    hide *;
    var left := timeOut;
    ghost var c, start := Spin(adr, dat, mask, timeOut), bus.hist;
    ghost var done: seq<Event> := [];
    ghost var all := Spinning(bus.device, start, c, left);
    SpinStarts(bus, c, left);
    while left > 0
      invariant Spins(bus, start, done, all, c, left)
      decreases left
    {
      var hit: bool;
      hit, done := SpinRead(bus, adr, dat, mask, start, done, all, c, left);
      if hit { return true; }
      left := left - 1;
    }
    SpinEnds(bus, start, done, all, c, left);
    matched := false;
  }

  class Recorder {
    const bus: Bus
    // base addresses of the cores
    const bases: seq<nat>
    // the words written to the playback file
    var file: seq<nat>
    var mCount: nat
    var mSingle: nat
    var mWordCnt: nat
    var mAdrBase: nat
    const mAdrSize: nat := 0x1_0000
    const mCapture: int
    // what the device had seen when capturing started, and the commands captured since
    ghost const start: seq<Event>
    ghost var script: seq<Cmd>

    constructor (bus: Bus, bases: seq<nat>, mCapture: int)
      ensures Valid() && this.bus == bus && this.bases == bases && this.mCapture == mCapture
      ensures start == bus.hist && script == [] && file == []
    {
      this.bus, this.bases, this.mCapture := bus, bases, mCapture;
      file, mCount, mSingle, mWordCnt, mAdrBase := [], 0, 0, 0, 0;
      start, script := bus.hist, [];
    }

    /** The file holds the commands captured, counted and measured. */
    ghost predicate Noted()
      reads this`file, this`mCount, this`mWordCnt, this`mSingle, this`script
    {
      && (forall k | 0 <= k < |script| :: Fits(script[k]))
      && file == EncodeAll(script) && mCount == |script| && mWordCnt == |file| && mSingle <= mCount
    }

    /** The device has seen exactly the commands captured, and what they compare with is what it returned. */
    ghost predicate Valid()
      reads this, bus
    {
      Noted() && bus.hist == PerformAll(bus.device, start, script) && Honest(bus.device, start, script)
    }

    function PhysicalAdr(coreIndex: nat, pAddress: nat): nat
      requires coreIndex < |bases|
    {
      bases[coreIndex] + pAddress
    }

    /** One more command in the file. */
    method Note(words: seq<nat>, ghost c: Cmd)
      requires Noted() && Fits(c) && words == Encode(c)
      modifies this`mCount, this`file, this`mWordCnt, this`script
      ensures Noted() && script == old(script) + [c]
    {
      EncodeNext(script, c);
      hide EncodeAll, Encode, Fits;
      mCount := mCount + 1;
      file := file + words;
      mWordCnt := mWordCnt + |words|;
      script := script + [c];
    }

    method WriteNCapture(coreIndex: nat, pAddress: nat, pData: nat)
      requires Valid() && coreIndex < |bases| && PhysicalAdr(coreIndex, pAddress) < TWO32 && pData < TWO64
      modifies this, bus
      ensures Valid() && script == old(script) + [Write(PhysicalAdr(coreIndex, pAddress), pData)]
      ensures old(mAdrBase) != 0 ==> mAdrBase == old(mAdrBase)
      ensures old(mAdrBase) == 0 ==>
              mAdrBase % mAdrSize == 0 && InRange(PhysicalAdr(coreIndex, pAddress), mAdrBase + mAdrSize, mAdrBase)
    {
      var adr := PhysicalAdr(coreIndex, pAddress);
      ghost var c := Write(adr, pData);
      assert Fits(c) && Encode(c) == [1, adr % TWO32, pData];
      Captured(bus.device, start, script, c);
      assert Perform(bus.device, bus.hist, c) == bus.hist + [Wr(adr, pData)];
      hide PerformAll, Honest, Encode, Perform, Fits, Noted;
      bus.Write(adr, pData);
      Note([1, adr % TWO32, pData], c);
      if mAdrBase == 0 {
        Aligned(adr);
        mAdrBase := adr - adr % mAdrSize;
      }
    }

    method ReadNCapture(coreIndex: nat, pAddress: nat) returns (pData: U64)
      requires Valid() && coreIndex < |bases| && PhysicalAdr(coreIndex, pAddress) < TWO32
      modifies this, bus
      ensures Valid() && script == old(script) + [Compare(PhysicalAdr(coreIndex, pAddress), pData)]
      ensures pData == bus.device(old(bus.hist), PhysicalAdr(coreIndex, pAddress)) && mAdrBase == old(mAdrBase)
    {
      var adr := PhysicalAdr(coreIndex, pAddress);
      ghost var c := Compare(adr, bus.device(bus.hist, adr));
      assert Fits(c) && Encode(c) == [2, adr % TWO32, c.dat];
      Captured(bus.device, start, script, c);
      assert Perform(bus.device, bus.hist, c) == bus.hist + [Rd(adr)];
      hide PerformAll, Honest, Encode, Perform, Fits, Noted;
      pData := bus.Read(adr);
      Note([2, adr % TWO32, pData], c);
    }

    method ReadNSpin(coreIndex: nat, pAddress: nat, pData: nat, mask: nat, timeOut: int) returns (late: nat)
      requires Valid() && coreIndex < |bases| && PhysicalAdr(coreIndex, pAddress) < TWO32
      requires pData < TWO64 && mask < TWO64 && -0x8000_0000 <= timeOut < 0x8000_0000
      modifies this, bus
      ensures Valid() && script == old(script) + [Spin(PhysicalAdr(coreIndex, pAddress), pData, mask, timeOut)]
      ensures late == if Spinning(bus.device, old(bus.hist), script[|script| - 1], timeOut).1 then 0 else 1
      ensures mAdrBase == old(mAdrBase)
    {
      var adr := PhysicalAdr(coreIndex, pAddress);
      ghost var c := Spin(adr, pData, mask, timeOut);
      assert Fits(c) && Encode(c) == [3, adr % TWO32, pData, mask, OfInt(timeOut)];
      Captured(bus.device, start, script, c);
      assert Perform(bus.device, bus.hist, c) == bus.hist + Spinning(bus.device, bus.hist, c, timeOut).0;
      hide PerformAll, Honest, Encode, Perform, Fits, Noted, Spinning;
      var matched := ReadUntil(bus, adr, pData, mask, timeOut);
      Note([3, adr % TWO32, pData, mask, OfInt(timeOut)], c);
      late := if matched then 0 else 1;
    }

    method MarkSingle(loop: int)
      requires Valid()
      modifies this`mSingle
      ensures Valid() && mSingle == if loop >= mCapture && old(mSingle) == 0 then mCount else old(mSingle)
    {
      if loop >= mCapture && mSingle == 0 {
        mSingle := mCount;
      }
    }
  }

  lemma {:induction false} Aligned(adr: nat)
    ensures var base := adr - adr % 0x1_0000; base >= 0 && base % 0x1_0000 == 0 && InRange(adr, base + 0x1_0000, base)
  {}

  lemma {:induction false} EncodeNext(cs: seq<Cmd>, c: Cmd)
    requires (forall k | 0 <= k < |cs| :: Fits(cs[k])) && Fits(c)
    ensures EncodeAll(cs + [c]) == EncodeAll(cs) + Encode(c)
  {
    var all := cs + [c];
    assert all[..|all| - 1] == cs && all[|all| - 1] == c;
    hide Encode;
  }

  lemma {:induction false} PerformNext(dev: Device, hist: seq<Event>, cs: seq<Cmd>, c: Cmd)
    ensures PerformAll(dev, hist, cs + [c]) == Perform(dev, PerformAll(dev, hist, cs), c)
  {
    var all := cs + [c];
    assert all[..|all| - 1] == cs && all[|all| - 1] == c;
    hide Perform;
  }

  /** A captured command extends what the device has seen, and compares with what it returned. */
  lemma {:induction false} Captured(dev: Device, hist: seq<Event>, cs: seq<Cmd>, c: Cmd)
    requires Honest(dev, hist, cs)
    requires c.Compare? ==> c.dat == dev(PerformAll(dev, hist, cs), c.adr)
    ensures PerformAll(dev, hist, cs + [c]) == Perform(dev, PerformAll(dev, hist, cs), c)
    ensures Honest(dev, hist, cs + [c])
  {
    PerformNext(dev, hist, cs, c);
    hide PerformAll, Perform;
    var all := cs + [c];
    forall k | 0 <= k < |all| && all[k].Compare?
      ensures all[k].dat == dev(PerformAll(dev, hist, all[..k]), all[k].adr)
    {
      assert k < |cs| ==> all[..k] == cs[..k];
      assert k == |cs| ==> all[..k] == cs;
    }
  }
}
