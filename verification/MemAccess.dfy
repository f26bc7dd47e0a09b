/** Runs of a memory test against an arbitrary memory: what is written, what is read, what must come back. */
module MemAccess {
  import opened Bits64
  import opened Wrappers

  /** What the bus sees. */
  datatype Event = Wr(adr: nat, dat: Word) | Rd(adr: nat)

  /** A step of a test: a write, or a read with the value that must come back. */
  datatype Access = W(adr: nat, dat: Word) | R(adr: nat, dat: Word)

  /** A memory, faulty or not: what a read of an address returns after a history of bus events. */
  type Device = (seq<Event>, nat) -> Word

  /** The word with some bits forced. */
  function Forced(d: Word, bits: Word, level: Word): Word {
    Word((d.bits & !bits.bits) | (level.bits & bits.bits))
  }

  function OnBus(a: Access): Event {
    match a
    case W(adr, dat) => Wr(adr, dat)
    case R(adr, _) => Rd(adr)
  }

  function Bus(ops: seq<Access>): (events: seq<Event>)
    ensures |events| == |ops|
  {
    if ops == [] then [] else Bus(ops[..|ops| - 1]) + [OnBus(ops[|ops| - 1])]
  }

  /** Every read returns, under the data mask, what the test expects. */
  ghost predicate Passes(dev: Device, msk: Word, hist: seq<Event>, ops: seq<Access>) {
    if ops == [] then true
    else
      var before, last := ops[..|ops| - 1], ops[|ops| - 1];
      && Passes(dev, msk, hist, before)
      && (last.R? ==> Masked(dev(hist + Bus(before), last.adr), msk) == last.dat)
  }

  lemma {:induction false} BusAppend(a: seq<Access>, b: seq<Access>)
    ensures Bus(a + b) == Bus(a) + Bus(b)
  {
    if b == [] {
      assert a + b == a;
    } else {
      var b', last := b[..|b| - 1], b[|b| - 1];
      BusAppend(a, b');
      assert (a + b)[..|a + b| - 1] == a + b' && (a + b)[|a + b| - 1] == last;
    }
  }

  lemma {:induction false} PassesAppend(dev: Device, msk: Word, hist: seq<Event>, a: seq<Access>, b: seq<Access>)
    ensures Passes(dev, msk, hist, a + b) <==> Passes(dev, msk, hist, a) && Passes(dev, msk, hist + Bus(a), b)
  {
    hide Masked;
    if b == [] {
      assert a + b == a;
    } else {
      var b', last := b[..|b| - 1], b[|b| - 1];
      PassesAppend(dev, msk, hist, a, b');
      BusAppend(a, b');
      assert (a + b)[..|a + b| - 1] == a + b' && (a + b)[|a + b| - 1] == last;
      assert hist + Bus(a + b') == hist + Bus(a) + Bus(b');
    }
  }

  lemma {:induction false} PassesOne(dev: Device, msk: Word, hist: seq<Event>, a: Access)
    ensures Bus([a]) == [OnBus(a)]
    ensures Passes(dev, msk, hist, [a]) <==> (a.R? ==> Masked(dev(hist, a.adr), msk) == a.dat)
  {
    hide Masked;
    assert [a][..0] == [] && hist + Bus([]) == hist;
  }

  // ----- memories

  /** The last value written to an address. */
  function LastWrite(hist: seq<Event>, adr: nat): Option<Word> {
    if hist == [] then None
    else
      var last := hist[|hist| - 1];
      if last.Wr? && last.adr == adr then Some(last.dat) else LastWrite(hist[..|hist| - 1], adr)
  }

  /** The last value written to either of two addresses. */
  function LastOfTwo(hist: seq<Event>, a: nat, b: nat): Option<Word> {
    if hist == [] then None
    else
      var last := hist[|hist| - 1];
      if last.Wr? && (last.adr == a || last.adr == b) then Some(last.dat) else LastOfTwo(hist[..|hist| - 1], a, b)
  }

  /** A memory without faults. */
  ghost predicate FaultFree(dev: Device, msk: Word) {
    forall hist: seq<Event>, adr: nat | LastWrite(hist, adr).Some? ::
      Masked(dev(hist, adr), msk) == Masked(LastWrite(hist, adr).value, msk)
  }

  /** The data bits in `bits` of one address always read as in `level`; any other behaviour is free. */
  ghost predicate StuckAt(dev: Device, adr: nat, bits: Word, level: Word) {
    forall hist: seq<Event> :: Masked(dev(hist, adr), bits) == Masked(level, bits)
  }

  /** A memory whose only fault is a stuck bit. */
  ghost predicate OnlyStuck(dev: Device, msk: Word, adr: nat, bits: Word, level: Word) {
    && StuckAt(dev, adr, bits, level)
    && forall hist: seq<Event>, x: nat | LastWrite(hist, x).Some? ::
         var d := LastWrite(hist, x).value;
         Masked(dev(hist, x), msk) == Masked(if x == adr then Forced(d, bits, level) else d, msk)
  }

  /** Two addresses select the same cell; all other addresses are free. */
  ghost predicate Aliased(dev: Device, msk: Word, a: nat, b: nat) {
    forall hist: seq<Event>, x: nat | (x == a || x == b) && LastOfTwo(hist, a, b).Some? ::
      Masked(dev(hist, x), msk) == Masked(LastOfTwo(hist, a, b).value, msk)
  }

  /** The memory returns the last value written wherever that value is in `good`. */
  ghost predicate Faithful(dev: Device, msk: Word, good: (nat, Word) -> bool) {
    forall hist: seq<Event>, adr: nat | LastWrite(hist, adr).Some? && good(adr, LastWrite(hist, adr).value) ::
      Masked(dev(hist, adr), msk) == Masked(LastWrite(hist, adr).value, msk)
  }

  lemma {:induction false} LastWriteAppend(hist: seq<Event>, e: Event, adr: nat)
    ensures LastWrite(hist + [e], adr) == if e.Wr? && e.adr == adr then Some(e.dat) else LastWrite(hist, adr)
  {
    assert (hist + [e])[..|hist|] == hist;
  }

  lemma {:induction false} LastOfTwoAppend(hist: seq<Event>, e: Event, a: nat, b: nat)
    ensures LastOfTwo(hist + [e], a, b) ==
            if e.Wr? && (e.adr == a || e.adr == b) then Some(e.dat) else LastOfTwo(hist, a, b)
  {
    assert (hist + [e])[..|hist|] == hist;
  }

}
