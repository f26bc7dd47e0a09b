/** Runs of a test as it proceeds: what has been seen, and what the error count says. */
module MemRuns {
  import opened Bits64
  import opened MemAccess
  import opened MemPatterns
  import opened MemTheorems
  import opened Wrappers

  /** The first n visits of a pass have been made from `hist` to `at`, and all checks have held. */
  ghost predicate Ran(c: Config, dev: Device, hist: seq<Event>, at: seq<Event>, e: Pass, n: nat)
    requires c.Valid() && n <= Count(c, e)
  {
    at == hist + Bus(Steps(c, e, n)) && Passes(dev, Mask(c), hist, Steps(c, e, n))
  }

  /**
   A test of these passes has run from `hist` to `at`: no error exactly when all checks hold, and then all
   accesses are made.
   */
  ghost predicate Did(c: Config, dev: Device, hist: seq<Event>, at: seq<Event>, passes: seq<Pass>, errCnt: nat)
    requires c.Valid()
  {
    && (errCnt == 0 <==> Passes(dev, Mask(c), hist, All(c, passes)))
    && (errCnt == 0 ==> at == hist + Bus(All(c, passes)))
  }

  lemma {:induction false} Start(c: Config, dev: Device, hist: seq<Event>, e: Pass)
    requires c.Valid()
    ensures Ran(c, dev, hist, hist, e, 0)
  {}

  lemma {:induction false} NoPasses(c: Config, dev: Device, hist: seq<Event>)
    requires c.Valid()
    ensures Did(c, dev, hist, hist, [], 0)
  {}

  ghost function BusOf(adr: nat, r: Option<Word>, w: Option<Word>): seq<Event> {
    (if r.Some? then [Rd(adr)] else []) + if w.Some? then [Wr(adr, w.value)] else []
  }

  lemma {:induction false} Next(c: Config, dev: Device, hist: seq<Event>, at: seq<Event>, at': seq<Event>, e: Pass,
                                i: nat)
    requires c.Valid() && i < Count(c, e) && Ran(c, dev, hist, at, e, i)
    requires at' == at + BusOf(Adr(c, e, i), Expected(c, e, i), Written(c, e, i))
    requires Expected(c, e, i).Some? ==> Masked(dev(at, Adr(c, e, i)), Mask(c)) == Expected(c, e, i).value
    ensures Ran(c, dev, hist, at', e, i + 1)
  {
    assert at == hist + Bus(Steps(c, e, i)) && Passes(dev, Mask(c), hist, Steps(c, e, i));
    var a, r, w := Adr(c, e, i), Expected(c, e, i), Written(c, e, i);
    VisitBus(a, r, w);
    assert BusOf(a, r, w) == Bus(Doing(a, r, w));
    hide Steps, Passes, Bus, Visit, Doing, BusOf, Adr, Expected, Written, Count, Mask, Masked, Config.Valid;
    StepsIs(c, hist, e, i + 1);
    VisitIs(c, e, i);
    VisitPasses(c, dev, at, e, i);
    PassesAppend(dev, Mask(c), hist, Steps(c, e, i), Visit(c, e, i));
  }

  lemma {:induction false} Finish(c: Config, dev: Device, hist: seq<Event>, at: seq<Event>, e: Pass)
    requires c.Valid() && Ran(c, dev, hist, at, e, Count(c, e))
    ensures Did(c, dev, hist, at, [e], 0)
  {
    OnePass(c, e);
    hide All, Steps, Passes, Bus, Count, Mask, Config.Valid;
  }

  lemma {:induction false} OnePass(c: Config, e: Pass)
    requires c.Valid()
    ensures All(c, [e]) == Steps(c, e, Count(c, e))
  {
    AllIs(c, [], e);
    assert [] + [e] == [e] && All(c, []) == [];
    hide *;
    assert [] + Steps(c, e, Count(c, e)) == Steps(c, e, Count(c, e));
  }

  /** Each check of a passed pass. */
  lemma {:induction false} PassedCheck(c: Config, dev: Device, hist: seq<Event>, e: Pass, n: nat, k: nat)
    requires c.Valid() && k < n <= Count(c, e) && Passes(dev, Mask(c), hist, Steps(c, e, n)) && Expected(c, e, k).Some?
    ensures Masked(dev(hist + Bus(Steps(c, e, k)), Adr(c, e, k)), Mask(c)) == Expected(c, e, k).value
  {
    hide *;
    StepsIs(c, hist, e, n);
    PassesAppend(dev, Mask(c), hist, Steps(c, e, n - 1), Visit(c, e, n - 1));
    if k == n - 1 {
      VisitPasses(c, dev, hist + Bus(Steps(c, e, k)), e, k);
    } else {
      PassedCheck(c, dev, hist, e, n - 1, k);
    }
  }

  lemma {:induction false} Fail(c: Config, dev: Device, hist: seq<Event>, at: seq<Event>, at': seq<Event>, e: Pass,
                                i: nat, errCnt: nat)
    requires c.Valid() && i < Count(c, e) && Ran(c, dev, hist, at, e, i) && errCnt > 0
    requires Expected(c, e, i).Some? && Masked(dev(at, Adr(c, e, i)), Mask(c)) != Expected(c, e, i).value
    ensures Did(c, dev, hist, at', [e], errCnt)
  {
    OnePass(c, e);
    assert at == hist + Bus(Steps(c, e, i));
    hide All, Steps, Passes, Bus, Count, Mask, Masked, Config.Valid, Adr, Expected;
    if Passes(dev, Mask(c), hist, Steps(c, e, Count(c, e))) {
      PassedCheck(c, dev, hist, e, Count(c, e), i);
    }
  }

  lemma {:induction false} Then(c: Config, dev: Device, hist: seq<Event>, mid: seq<Event>, at: seq<Event>,
                                p: seq<Pass>, q: seq<Pass>, errCnt: nat)
    requires c.Valid() && Did(c, dev, hist, mid, p, 0) && Did(c, dev, mid, at, q, errCnt)
    ensures Did(c, dev, hist, at, p + q, errCnt)
  {
    hide All, Passes, Bus, Mask, Config.Valid;
    AllAppend(c, p, q);
    PassesAppend(dev, Mask(c), hist, All(c, p), All(c, q));
    BusAppend(All(c, p), All(c, q));
  }

  lemma {:induction false} Stop(c: Config, dev: Device, hist: seq<Event>, at: seq<Event>, p: seq<Pass>, q: seq<Pass>,
                                errCnt: nat)
    requires c.Valid() && Did(c, dev, hist, at, p, errCnt) && errCnt > 0
    ensures Did(c, dev, hist, at, p + q, errCnt)
  {
    hide All, Passes, Bus, Mask, Config.Valid;
    AllAppend(c, p, q);
    PassesAppend(dev, Mask(c), hist, All(c, p), All(c, q));
  }

  lemma {:induction false} AllAppend(c: Config, x: seq<Pass>, y: seq<Pass>)
    requires c.Valid()
    ensures All(c, x + y) == All(c, x) + All(c, y)
  {
    if y == [] {
      assert x + y == x && All(c, []) == [];
      hide *;
    } else {
      var y', e := y[..|y| - 1], y[|y| - 1];
      assert x + y == (x + y') + [e] && y == y' + [e];
      hide *;
      AllAppend(c, x, y');
      AllIs(c, x + y', e);
      AllIs(c, y', e);
      Assoc(All(c, x), All(c, y'), Steps(c, e, Count(c, e)));
    }
  }
}
