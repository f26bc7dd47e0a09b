/** Playing a captured trace back repeats the captured run, and exactly when it does not. */
module Replay {
  import opened Bits
  import opened Playback
  import opened Wrappers

  ghost predicate AllFit(cs: seq<Cmd>) {
    forall k | 0 <= k < |cs| :: Fits(cs[k])
  }

  /** Where the k-th command starts. */
  ghost function Boundary(cs: seq<Cmd>, k: nat): nat
    requires AllFit(cs) && k <= |cs|
  {
    |EncodeAll(cs[..k])|
  }

  lemma {:induction false} Assoc(a: seq<nat>, b: seq<nat>, c: seq<nat>)
    ensures (a + b) + c == a + (b + c)
  {}

  lemma {:induction false} EncodeLast(cs: seq<Cmd>, c: Cmd)
    requires AllFit(cs) && Fits(c)
    ensures AllFit(cs + [c]) && EncodeAll(cs + [c]) == EncodeAll(cs) + Encode(c)
  {
    EncodeNext(cs, c);
    hide EncodeAll, Encode, Fits;
  }

  lemma {:induction false} EncodeAppend(a: seq<Cmd>, b: seq<Cmd>)
    requires AllFit(a) && AllFit(b)
    ensures EncodeAll(a + b) == EncodeAll(a) + EncodeAll(b)
  {
    if b == [] {
      assert a + b == a && EncodeAll(b) == [];
      hide *;
    } else {
      var n := |b| - 1;
      assert a + b == (a + b[..n]) + [b[n]] && b == b[..n] + [b[n]];
      assert AllFit(b[..n]) && AllFit(a + b[..n]) && Fits(b[n]);
      hide *;
      EncodeAppend(a, b[..n]);
      EncodeLast(a + b[..n], b[n]);
      EncodeLast(b[..n], b[n]);
      Assoc(EncodeAll(a), EncodeAll(b[..n]), Encode(b[n]));
    }
  }

  /** The words of the k-th command, where they lie. */
  lemma {:induction false} CommandAt(cs: seq<Cmd>, k: nat)
    requires AllFit(cs) && k < |cs|
    ensures var s, i, w := EncodeAll(cs), Boundary(cs, k), Encode(cs[k]);
            && Boundary(cs, k + 1) == i + |w| <= |s|
            && forall j | 0 <= j < |w| :: s[i + j] == w[j]
  {
    var a, c, b := cs[..k], cs[k], cs[k + 1..];
    assert cs == (a + [c]) + b && cs[..k + 1] == a + [c];
    assert AllFit(a) && AllFit(a + [c]) && AllFit(b) && Fits(c);
    hide EncodeAll, Encode, Fits, AllFit;
    EncodeAppend(a + [c], b);
    EncodeLast(a, c);
  }

  lemma {:induction false} CountSurvives(t: int)
    requires -0x8000_0000 <= t < 0x8000_0000
    ensures OfInt(t) < TWO32 && ToInt(OfInt(t)) == t
  {}

  /** At the start of a captured command. */
  ghost predicate Lies(s: seq<nat>, i: nat, c: Cmd) {
    Fits(c) && i + |Encode(c)| <= |s| && forall j | 0 <= j < |Encode(c)| :: s[i + j] == Encode(c)[j]
  }

  /**
   A command inside the window is performed; it counts as an error exactly when a spin with a count runs out of
   it.
   */
  lemma {:induction false} PlaysInside(dev: Device, hist: seq<Event>, s: seq<nat>, i: nat, c: Cmd, upper: nat,
                                       lower: nat)
    requires Lies(s, i, c) && InRange(c.adr, upper, lower) && (c.Compare? ==> c.dat == dev(hist, c.adr))
    ensures PlayOne(dev, hist, s, i, upper, lower) ==
            Some(Outcome(if TimedOut(dev, hist, c) then 1 else 0, i + |Encode(c)|, Perform(dev, hist, c)))
  {
    var w := Encode(c);
    assert s[i + 0] == w[0] && s[i + 1] == w[1] && s[i + 2] == w[2];
    if c.Spin? {
      assert s[i + 3] == w[3] && s[i + 4] == w[4];
      CountSurvives(c.timeOut);
      hide Spinning, ToInt, OfInt;
    } else {
      hide Spinning, ToInt, OfInt;
    }
  }

  /** Outside the window a write or comparison is an error, but a spin is silently retried in place. */
  lemma {:induction false} PlaysOutside(dev: Device, hist: seq<Event>, s: seq<nat>, i: nat, c: Cmd, upper: nat,
                                        lower: nat)
    requires Lies(s, i, c) && !InRange(c.adr, upper, lower)
    ensures PlayOne(dev, hist, s, i, upper, lower) ==
            Some(if c.Spin? then Outcome(0, i, hist) else Outcome(1, i + 3, hist))
  {
    var w := Encode(c);
    assert s[i + 0] == w[0] && s[i + 1] == w[1];
    hide Spinning, ToInt, OfInt;
  }

  // ----- the captured run and its replay

  /** What the device has seen before the k-th command. */
  ghost function HistAt(dev: Device, hist: seq<Event>, cs: seq<Cmd>, k: nat): seq<Event>
    requires k <= |cs|
  {
    PerformAll(dev, hist, cs[..k])
  }

  /** A capture that started when the device had seen hist. */
  ghost predicate Captures(dev: Device, hist: seq<Event>, cs: seq<Cmd>) {
    AllFit(cs) && Honest(dev, hist, cs)
  }

  /** The k-th command lies in the window and, on the captured run, does not run out of its count. */
  ghost predicate Good(dev: Device, hist: seq<Event>, cs: seq<Cmd>, k: nat, upper: nat, lower: nat)
    requires k < |cs|
  {
    InRange(cs[k].adr, upper, lower) && !TimedOut(dev, HistAt(dev, hist, cs, k), cs[k])
  }

  lemma {:induction false} HistNext(dev: Device, hist: seq<Event>, cs: seq<Cmd>, k: nat)
    requires k < |cs|
    ensures HistAt(dev, hist, cs, k + 1) == Perform(dev, HistAt(dev, hist, cs, k), cs[k])
  {
    assert cs[..k + 1] == cs[..k] + [cs[k]];
    hide PerformAll, Perform;
    PerformNext(dev, hist, cs[..k], cs[k]);
  }

  lemma {:induction false} HonestAt(dev: Device, hist: seq<Event>, cs: seq<Cmd>, k: nat)
    requires Honest(dev, hist, cs) && k < |cs| && cs[k].Compare?
    ensures cs[k].dat == dev(HistAt(dev, hist, cs, k), cs[k].adr)
  {
    hide PerformAll;
  }

  lemma {:induction false} LiesAt(cs: seq<Cmd>, k: nat)
    requires AllFit(cs) && k < |cs|
    ensures Fits(cs[k]) && Lies(EncodeAll(cs), Boundary(cs, k), cs[k])
    ensures Boundary(cs, k + 1) == Boundary(cs, k) + |Encode(cs[k])|
  {
    CommandAt(cs, k);
    assert Fits(cs[k]);
    hide EncodeAll, Encode, Fits, AllFit, Boundary;
  }

  /** What the interpreter meets at the k-th command of a capture. */
  lemma {:induction false} Meets(dev: Device, hist: seq<Event>, cs: seq<Cmd>, k: nat)
    requires Captures(dev, hist, cs) && k < |cs|
    ensures AllFit(cs) && Fits(cs[k]) && Lies(EncodeAll(cs), Boundary(cs, k), cs[k])
    ensures Boundary(cs, k + 1) == Boundary(cs, k) + |Encode(cs[k])|
    ensures cs[k].Compare? ==> cs[k].dat == dev(HistAt(dev, hist, cs, k), cs[k].adr)
    ensures HistAt(dev, hist, cs, k + 1) == Perform(dev, HistAt(dev, hist, cs, k), cs[k])
  {
    assert AllFit(cs) && Honest(dev, hist, cs);
    hide *;
    LiesAt(cs, k);
    HistNext(dev, hist, cs, k);
    if cs[k].Compare? {
      HonestAt(dev, hist, cs, k);
    }
  }

  /** The interpreter from the k-th command on. */
  ghost function From(dev: Device, hist: seq<Event>, cs: seq<Cmd>, k: nat, n: nat, upper: nat,
                      lower: nat): Option<Outcome>
    requires AllFit(cs) && k <= |cs|
  {
    Play(dev, HistAt(dev, hist, cs, k), EncodeAll(cs), Boundary(cs, k), n, upper, lower)
  }

  lemma {:induction false} FromIs(dev: Device, hist: seq<Event>, cs: seq<Cmd>, k: nat, n: nat, upper: nat, lower: nat)
    requires AllFit(cs) && k <= |cs|
    ensures From(dev, hist, cs, k, n, upper, lower) ==
            Play(dev, HistAt(dev, hist, cs, k), EncodeAll(cs), Boundary(cs, k), n, upper, lower)
  {
    hide Play, HistAt, EncodeAll, Boundary;
  }

  lemma {:induction false} GoodStep(dev: Device, h: seq<Event>, s: seq<nat>, i: nat, c: Cmd, n: nat, upper: nat,
                                    lower: nat)
    requires Lies(s, i, c) && Fits(c) && (c.Compare? ==> c.dat == dev(h, c.adr)) && n > 0
    requires InRange(c.adr, upper, lower) && !TimedOut(dev, h, c)
    ensures Play(dev, h, s, i, n, upper, lower) ==
            Play(dev, Perform(dev, h, c), s, i + |Encode(c)|, n - 1, upper, lower)
  {
    hide *;
    PlaysInside(dev, h, s, i, c, upper, lower);
    PlayNext(dev, h, s, i, n, upper, lower);
  }

  lemma {:induction false} GoodMeans(dev: Device, hist: seq<Event>, cs: seq<Cmd>, k: nat, upper: nat, lower: nat)
    requires k < |cs| && Good(dev, hist, cs, k, upper, lower)
    ensures InRange(cs[k].adr, upper, lower) && !TimedOut(dev, HistAt(dev, hist, cs, k), cs[k])
  {
    hide InRange, TimedOut, HistAt;
  }

  lemma {:induction false} GoodCommand(dev: Device, hist: seq<Event>, cs: seq<Cmd>, k: nat, n: nat, upper: nat,
                                       lower: nat)
    requires Captures(dev, hist, cs) && AllFit(cs) && k < |cs| && n > 0 && Good(dev, hist, cs, k, upper, lower)
    ensures From(dev, hist, cs, k, n, upper, lower) == From(dev, hist, cs, k + 1, n - 1, upper, lower)
  {
    GoodMeans(dev, hist, cs, k, upper, lower);
    hide *;
    FromIs(dev, hist, cs, k, n, upper, lower);
    FromIs(dev, hist, cs, k + 1, n - 1, upper, lower);
    Meets(dev, hist, cs, k);
    GoodStep(dev, HistAt(dev, hist, cs, k), EncodeAll(cs), Boundary(cs, k), cs[k], n, upper, lower);
  }

  lemma {:induction false} Start(dev: Device, hist: seq<Event>, cs: seq<Cmd>, n: nat, upper: nat, lower: nat)
    requires AllFit(cs)
    ensures From(dev, hist, cs, 0, n, upper, lower) == Play(dev, hist, EncodeAll(cs), 0, n, upper, lower)
  {
    assert cs[..0] == [];
    hide Play;
  }

  /** Good commands are replayed one by one: same bus events, cursor from boundary to boundary. */
  lemma {:induction false} GoodPrefix(dev: Device, hist: seq<Event>, cs: seq<Cmd>, k: nat, n: nat, upper: nat,
                                      lower: nat)
    requires Captures(dev, hist, cs) && AllFit(cs) && k <= |cs| && k <= n
    requires forall j | 0 <= j < k :: Good(dev, hist, cs, j, upper, lower)
    ensures Play(dev, hist, EncodeAll(cs), 0, n, upper, lower) == From(dev, hist, cs, k, n - k, upper, lower)
  {
    hide *;
    if k == 0 {
      Start(dev, hist, cs, n, upper, lower);
    } else {
      GoodPrefix(dev, hist, cs, k - 1, n, upper, lower);
      GoodCommand(dev, hist, cs, k - 1, n - k + 1, upper, lower);
    }
  }

  /** The first command of a capture that is not good. */
  ghost predicate FirstBad(dev: Device, hist: seq<Event>, cs: seq<Cmd>, k: nat, upper: nat, lower: nat) {
    k < |cs| && !Good(dev, hist, cs, k, upper, lower) && forall j | 0 <= j < k :: Good(dev, hist, cs, j, upper, lower)
  }

  /**
   Replay of the first n commands of a capture, from the device state the capture started in, when all are good:
   no error, the same bus events in the same order, and the cursor at the end of the n-th command.
   */
  lemma {:induction false} ReplayRepeats(dev: Device, hist: seq<Event>, cs: seq<Cmd>, n: nat, upper: nat, lower: nat)
    requires Captures(dev, hist, cs) && n <= |cs|
    requires forall j | 0 <= j < n :: Good(dev, hist, cs, j, upper, lower)
    ensures Play(dev, hist, EncodeAll(cs), 0, n, upper, lower) ==
            Some(Outcome(0, Boundary(cs, n), HistAt(dev, hist, cs, n)))
  {
    assert AllFit(cs);
    hide Boundary, HistAt, EncodeAll, Good, PlayOne, Captures, AllFit;
    GoodPrefix(dev, hist, cs, n, n, upper, lower);
  }

  lemma {:induction false} BadStep(dev: Device, h: seq<Event>, s: seq<nat>, i: nat, c: Cmd, n: nat, upper: nat,
                                   lower: nat)
    requires Lies(s, i, c) && Fits(c) && (c.Compare? ==> c.dat == dev(h, c.adr)) && n > 0
    requires InRange(c.adr, upper, lower) ==> TimedOut(dev, h, c)
    ensures Play(dev, h, s, i, n, upper, lower) == Some(
              if InRange(c.adr, upper, lower) then Outcome(1, i + |Encode(c)|, Perform(dev, h, c))
              else if c.Spin? then Outcome(0, i, h)
              else Outcome(1, i + 3, h))
  {
    hide *;
    PlayNext(dev, h, s, i, n, upper, lower);
    if InRange(c.adr, upper, lower) {
      PlaysInside(dev, h, s, i, c, upper, lower);
    } else if c.Spin? {
      Stuck(dev, h, s, i, c, n, upper, lower);
    } else {
      PlaysOutside(dev, h, s, i, c, upper, lower);
    }
  }

  /** The end of a replay at the command it cannot get past. */
  ghost function BrokenOff(dev: Device, hist: seq<Event>, cs: seq<Cmd>, k: nat, upper: nat, lower: nat): Outcome
    requires AllFit(cs) && k < |cs|
  {
    if InRange(cs[k].adr, upper, lower) then Outcome(1, Boundary(cs, k + 1), HistAt(dev, hist, cs, k + 1))
    else if cs[k].Spin? then Outcome(0, Boundary(cs, k), HistAt(dev, hist, cs, k))
    else Outcome(1, Boundary(cs, k) + 3, HistAt(dev, hist, cs, k))
  }

  /** What becomes of the first command that is not good. */
  lemma {:induction false} BadCommand(dev: Device, hist: seq<Event>, cs: seq<Cmd>, k: nat, n: nat, upper: nat,
                                      lower: nat)
    requires Captures(dev, hist, cs) && AllFit(cs) && k < |cs| && n > 0
    requires InRange(cs[k].adr, upper, lower) ==> TimedOut(dev, HistAt(dev, hist, cs, k), cs[k])
    ensures From(dev, hist, cs, k, n, upper, lower) ==
            Some(BrokenOff(dev, hist, cs, k, upper, lower))
  {
    hide Captures, InRange, TimedOut, HistAt, Boundary, EncodeAll, Play, Lies, Fits;
    Meets(dev, hist, cs, k);
    BadStep(dev, HistAt(dev, hist, cs, k), EncodeAll(cs), Boundary(cs, k), cs[k], n, upper, lower);
  }

  /**
   Otherwise, up to the first command that is not good: a spin that ran out of its count in the capture does so
   again and ends the replay with an error behind it; a write or comparison outside the window ends it with an
   error before its bus access; a spin outside the window makes the replay stop moving and report no error.
   */
  lemma {:induction false} ReplayBreaksOff(dev: Device, hist: seq<Event>, cs: seq<Cmd>, n: nat, k: nat, upper: nat,
                                           lower: nat)
    requires Captures(dev, hist, cs) && AllFit(cs) && k < n && FirstBad(dev, hist, cs, k, upper, lower)
    ensures k < |cs|
    ensures Play(dev, hist, EncodeAll(cs), 0, n, upper, lower) ==
            Some(BrokenOff(dev, hist, cs, k, upper, lower))
  {
    assert !Good(dev, hist, cs, k, upper, lower) && k < |cs|;
    assert forall j | 0 <= j < k :: Good(dev, hist, cs, j, upper, lower);
    assert InRange(cs[k].adr, upper, lower) ==> TimedOut(dev, HistAt(dev, hist, cs, k), cs[k]);
    hide *;
    GoodPrefix(dev, hist, cs, k, n, upper, lower);
    BadCommand(dev, hist, cs, k, n - k, upper, lower);
  }

  /** The cursor never leaves a spin outside the window. */
  lemma {:induction false} Stuck(dev: Device, hist: seq<Event>, s: seq<nat>, i: nat, c: Cmd, n: nat, upper: nat,
                                 lower: nat)
    requires Lies(s, i, c) && c.Spin? && !InRange(c.adr, upper, lower)
    ensures Play(dev, hist, s, i, n, upper, lower) == Some(Outcome(0, i, hist))
  {
    if n > 0 {
      hide *;
      PlaysOutside(dev, hist, s, i, c, upper, lower);
      PlayNext(dev, hist, s, i, n, upper, lower);
      Stuck(dev, hist, s, i, c, n - 1, upper, lower);
    } else {
      hide PlayOne;
    }
  }

  lemma {:induction false} StaysPut(dev: Device, hist: seq<Event>, s: seq<nat>, i: nat, n: nat, upper: nat, lower: nat)
    requires PlayOne(dev, hist, s, i, upper, lower) == Some(Outcome(0, i, hist))
    ensures Play(dev, hist, s, i, n, upper, lower) == Some(Outcome(0, i, hist))
  {
    if n > 0 {
      StaysPut(dev, hist, s, i, n - 1, upper, lower);
    }
    hide PlayOne;
  }

  /** A word at the cursor that is no command: whatever follows it, nothing more happens and no error is reported. */
  lemma {:induction false} UnknownStops(dev: Device, hist: seq<Event>, s: seq<nat>, i: nat, n: nat,
                                        upper: nat, lower: nat)
    requires i < |s| && s[i] !in {1, 2, 3}
    ensures Play(dev, hist, s, i, n, upper, lower) == Some(Outcome(0, i, hist))
  {
    assert PlayOne(dev, hist, s, i, upper, lower) == Some(Outcome(0, i, hist));
    hide PlayOne;
    StaysPut(dev, hist, s, i, n, upper, lower);
  }

  lemma {:induction false} OneForward(dev: Device, hist: seq<Event>, s: seq<nat>, i: nat, upper: nat, lower: nat)
    ensures var o := PlayOne(dev, hist, s, i, upper, lower);
            o.Some? ==>
              && o.value.i >= i
              && (o.value.i == i <==> s[i] !in {1, 2, 3} || (s[i] == 3 && !InRange(s[i + 1], upper, lower)))
    ensures var o := PlayOne(dev, hist, s, i, upper, lower);
            o.Some? && o.value.i == i ==> o.value == Outcome(0, i, hist)
  {
    hide InRange;
  }

  lemma {:induction false} CursorForward(dev: Device, hist: seq<Event>, s: seq<nat>, i: nat, n: nat,
                                         upper: nat, lower: nat)
    ensures var o := Play(dev, hist, s, i, n, upper, lower); o.Some? ==> o.value.i >= i
    decreases n
  {
    if n > 0 {
      OneForward(dev, hist, s, i, upper, lower);
      var o := PlayOne(dev, hist, s, i, upper, lower);
      if o.Some? && o.value.errCnt == 0 {
        CursorForward(dev, o.value.hist, s, o.value.i, n - 1, upper, lower);
      }
      hide PlayOne;
    }
  }

  /** The cursor stays where it is exactly at a word that is no command and at a spin outside the window. */
  lemma {:induction false} StopsExactly(dev: Device, hist: seq<Event>, s: seq<nat>, i: nat, n: nat,
                                        upper: nat, lower: nat)
    requires i < |s| && n > 0 && Play(dev, hist, s, i, n, upper, lower).Some?
    ensures Play(dev, hist, s, i, n, upper, lower).value.i == i <==>
            s[i] !in {1, 2, 3} || (s[i] == 3 && i + 1 < |s| && !InRange(s[i + 1], upper, lower))
  {
    var o := PlayOne(dev, hist, s, i, upper, lower);
    OneForward(dev, hist, s, i, upper, lower);
    assert o.Some?;
    if o.value.errCnt == 0 {
      CursorForward(dev, o.value.hist, s, o.value.i, n - 1, upper, lower);
      if o.value.i == i {
        StaysPut(dev, hist, s, i, n, upper, lower);
      }
    }
    assert s[i] == 3 ==> i + 1 < |s|;
    hide PlayOne, InRange;
  }

  lemma {:induction false} BoundariesGrow(cs: seq<Cmd>, k: nat, n: nat)
    requires AllFit(cs) && k <= n <= |cs|
    ensures Boundary(cs, k) <= Boundary(cs, n) && (k < n ==> Boundary(cs, k) < Boundary(cs, n))
  {
    if k < n {
      BoundariesGrow(cs, k, n - 1);
      CommandAt(cs, n - 1);
      assert Fits(cs[n - 1]);
      hide Boundary, EncodeAll, Fits;
    }
  }

  lemma {:induction false} SomeFirstBad(dev: Device, hist: seq<Event>, cs: seq<Cmd>, n: nat, upper: nat, lower: nat)
    returns (k: nat)
    requires n <= |cs| && exists j | 0 <= j < n :: !Good(dev, hist, cs, j, upper, lower)
    ensures k < n && FirstBad(dev, hist, cs, k, upper, lower)
  {
    hide Good;
    k := 0;
    while Good(dev, hist, cs, k, upper, lower)
      invariant k < n && forall j | 0 <= j < k :: Good(dev, hist, cs, j, upper, lower)
      decreases n - k
    {
      k := k + 1;
    }
  }

  /**
   The replay reports no error and reaches the end of what was captured exactly when every address lies in the
   window and no spin with a positive count ran out of it.
   */
  lemma {:induction false} ReplayExactly(dev: Device, hist: seq<Event>, cs: seq<Cmd>, n: nat, upper: nat, lower: nat)
    requires Captures(dev, hist, cs) && n <= |cs|
    ensures Play(dev, hist, EncodeAll(cs), 0, n, upper, lower).Some?
    ensures var o := Play(dev, hist, EncodeAll(cs), 0, n, upper, lower).value;
            o.errCnt == 0 && o.i == Boundary(cs, n) <==> forall j | 0 <= j < n :: Good(dev, hist, cs, j, upper, lower)
  {
    if forall j | 0 <= j < n :: Good(dev, hist, cs, j, upper, lower) {
      ReplayRepeats(dev, hist, cs, n, upper, lower);
      hide *;
    } else {
      var k := SomeFirstBad(dev, hist, cs, n, upper, lower);
      assert AllFit(cs) && !Good(dev, hist, cs, k, upper, lower);
      hide *;
      ReplayBreaksOff(dev, hist, cs, n, k, upper, lower);
      BoundariesGrow(cs, k, n);
    }
  }

  lemma {:induction false} GoodInside(dev: Device, hist: seq<Event>, cs: seq<Cmd>, n: nat, upper: nat, lower: nat)
    requires n <= |cs| && forall j | 0 <= j < n :: InRange(cs[j].adr, upper, lower)
    ensures (forall j | 0 <= j < n :: Good(dev, hist, cs, j, upper, lower)) <==>
            forall j | 0 <= j < n :: !TimedOut(dev, HistAt(dev, hist, cs, j), cs[j])
  {
    hide InRange, TimedOut, HistAt;
    forall j | 0 <= j < n
      ensures Good(dev, hist, cs, j, upper, lower) == !TimedOut(dev, HistAt(dev, hist, cs, j), cs[j])
    {
    }
  }

  /** With every address in the window, the error count is zero exactly when no spin timed out. */
  lemma {:induction false} InWindowExactly(dev: Device, hist: seq<Event>, cs: seq<Cmd>, n: nat, upper: nat, lower: nat)
    requires Captures(dev, hist, cs) && n <= |cs| && forall j | 0 <= j < n :: InRange(cs[j].adr, upper, lower)
    ensures Play(dev, hist, EncodeAll(cs), 0, n, upper, lower).Some?
    ensures Play(dev, hist, EncodeAll(cs), 0, n, upper, lower).value.errCnt == 0 <==>
            forall j | 0 <= j < n :: !TimedOut(dev, HistAt(dev, hist, cs, j), cs[j])
  {
    ReplayExactly(dev, hist, cs, n, upper, lower);
    GoodInside(dev, hist, cs, n, upper, lower);
    if !(forall j | 0 <= j < n :: Good(dev, hist, cs, j, upper, lower)) {
      var k := SomeFirstBad(dev, hist, cs, n, upper, lower);
      assert AllFit(cs);
      hide *;
      ReplayBreaksOff(dev, hist, cs, n, k, upper, lower);
    }
    hide *;
  }
}
