/** Polynomials over the two-element field, highest power first, and division by x^16 + x^12 + x^5 + 1. */
module Gf2 {

  /** The generator without its leading term. */
  const POLY: seq<bool> := [false, false, false, true, false, false, false, false,
                            false, false, true, false, false, false, false, true]

  function Zeros(n: nat): (z: seq<bool>)
    ensures |z| == n && forall k | 0 <= k < n :: !z[k]
  {
    seq(n, k => false)
  }

  function Xor(a: seq<bool>, b: seq<bool>): (c: seq<bool>)
    requires |a| == |b|
    ensures |c| == |a| && forall k | 0 <= k < |a| :: c[k] == (a[k] != b[k])
  {
    seq(|a|, k requires 0 <= k < |a| => a[k] != b[k])
  }

  /** The generator times b, aligned to end at the unit. */
  function Term(n: nat, b: bool): (t: seq<bool>)
    ensures |t| == n + 17
  {
    if b then Zeros(n) + [true] + POLY else Zeros(n + 17)
  }

  /** The product of a polynomial and the generator: (q·x + b)·G = (q·G)·x + b·G. */
  function TimesG(q: seq<bool>): (p: seq<bool>)
    ensures |p| == |q| + 16
  {
    if q == [] then Zeros(16)
    else Xor(TimesG(q[..|q| - 1]) + [false], Term(|q| - 1, q[|q| - 1]))
  }

  /** One clock of the register: the incoming bit meets the leading one. */
  function Clock(r: seq<bool>, bit: bool): (r': seq<bool>)
    requires |r| == 16
    ensures |r'| == 16
  {
    Xor(r[1..] + [false], if r[0] != bit then POLY else Zeros(16))
  }

  /** The register after a message. */
  function Feed(r: seq<bool>, m: seq<bool>): (r': seq<bool>)
    requires |r| == 16
    ensures |r'| == 16
  {
    if m == [] then r else Clock(Feed(r, m[..|m| - 1]), m[|m| - 1])
  }

  function Rem(m: seq<bool>): (r: seq<bool>)
    ensures |r| == 16
  {
    Feed(Zeros(16), m)
  }

  /** Every bit fed back is a bit of the quotient. */
  ghost function Quotient(m: seq<bool>): (q: seq<bool>)
    ensures |q| == |m|
  {
    if m == [] then [] else Quotient(m[..|m| - 1]) + [Rem(m[..|m| - 1])[0] != m[|m| - 1]]
  }

  lemma {:induction false} TimesGNext(q: seq<bool>, b: bool, k: nat)
    requires k < |q| + 17
    ensures |TimesG(q + [b])| == |q| + 17
    ensures TimesG(q + [b])[k] ==
            ((k < |q| + 16 && TimesG(q)[k]) != (b && (k == |q| || (k > |q| && POLY[k - |q| - 1]))))
  {
    assert (q + [b])[..|q|] == q;
  }

  lemma {:induction false} RemNext(m: seq<bool>, b: bool, j: nat)
    requires j < 16
    ensures Rem(m + [b])[j] == ((j < 15 && Rem(m)[j + 1]) != ((Rem(m)[0] != b) && POLY[j]))
  {
    assert (m + [b])[..|m|] == m;
  }

  lemma {:induction false} QuotientNext(m: seq<bool>, b: bool)
    ensures Quotient(m + [b]) == Quotient(m) + [Rem(m)[0] != b]
  {
    assert (m + [b])[..|m|] == m;
    hide Rem;
  }

  lemma {:induction false} NothingToDivide()
    ensures TimesG(Quotient([])) == Zeros(16) == Rem([])
  {}

  /** Coefficient k of m·x^16 = Quotient(m)·G + Rem(m). */
  ghost predicate Divided(m: seq<bool>, k: nat)
    requires k < |m| + 16
  {
    TimesG(Quotient(m))[k] == if k < |m| then m[k] else Rem(m)[k - |m|]
  }

  lemma {:induction false} DivisionStep(m: seq<bool>, b: bool, k: nat)
    requires k < |m| + 17 && (k < |m| + 16 ==> Divided(m, k))
    ensures Divided(m + [b], k)
  {
    hide TimesG, Rem, Quotient;
    QuotientNext(m, b);
    TimesGNext(Quotient(m), Rem(m)[0] != b, k);
    if k > |m| {
      RemNext(m, b, k - |m| - 1);
    }
  }

  lemma {:induction false} DivisionAt(m: seq<bool>, k: nat)
    requires k < |m| + 16
    ensures Divided(m, k)
  {
    if m == [] {
      NothingToDivide();
    } else {
      var m', b := m[..|m| - 1], m[|m| - 1];
      assert m == m' + [b];
      hide *;
      if k < |m'| + 16 {
        DivisionAt(m', k);
      }
      DivisionStep(m', b, k);
    }
  }

  /** Division with remainder: m·x^16 + Rem(m) is a multiple of the generator. */
  lemma {:induction false} Division(m: seq<bool>)
    ensures TimesG(Quotient(m)) == m + Rem(m)
  {
    forall k | 0 <= k < |m| + 16
      ensures TimesG(Quotient(m))[k] == (m + Rem(m))[k]
    {
      DivisionAt(m, k);
    }
    hide TimesG, Quotient, Rem;
  }

  // ----- multiples of the generator

  lemma {:induction false} XorNext(p: seq<bool>, q: seq<bool>, a: bool, b: bool)
    requires |p| == |q|
    ensures Xor(p + [a], q + [b]) == Xor(p, q) + [a != b]
  {}

  lemma {:induction false} TimesGAddsNext(p: seq<bool>, q: seq<bool>, a: bool, b: bool)
    requires |p| == |q| && TimesG(Xor(p, q)) == Xor(TimesG(p), TimesG(q))
    ensures TimesG(Xor(p + [a], q + [b])) == Xor(TimesG(p + [a]), TimesG(q + [b]))
  {
    hide TimesG;
    XorNext(p, q, a, b);
    forall k | 0 <= k < |p| + 17
      ensures TimesG(Xor(p, q) + [a != b])[k] == (TimesG(p + [a])[k] != TimesG(q + [b])[k])
    {
      TimesGNext(p, a, k);
      TimesGNext(q, b, k);
      TimesGNext(Xor(p, q), a != b, k);
    }
  }

  lemma {:induction false} NoTimesG()
    ensures TimesG([]) == Zeros(16)
  {}

  lemma {:induction false} TimesGAdds(p: seq<bool>, q: seq<bool>)
    requires |p| == |q|
    ensures TimesG(Xor(p, q)) == Xor(TimesG(p), TimesG(q))
  {
    if p == [] {
      assert Xor(p, q) == [] && p == q;
      NoTimesG();
      hide *;
      assert Xor(Zeros(16), Zeros(16)) == Zeros(16);
    } else {
      var n := |p| - 1;
      assert p == p[..n] + [p[n]] && q == q[..n] + [q[n]];
      hide *;
      TimesGAdds(p[..n], q[..n]);
      TimesGAddsNext(p[..n], q[..n], p[n], q[n]);
    }
  }

  /** The first bit of a multiple is the first bit of the factor. */
  lemma {:induction false} FirstBit(q: seq<bool>, i: nat)
    requires i < |q| && q[i] && forall k | 0 <= k < i :: !q[k]
    ensures TimesG(q)[i]
  {
    var n := |q| - 1;
    var q', b := q[..n], q[n];
    assert q == q' + [b];
    TimesGNext(q', b, i);
    if i < n {
      FirstBit(q', i);
    } else {
      ZeroTimesG(q');
    }
    hide TimesG;
  }

  lemma {:induction false} ZeroTimesG(q: seq<bool>)
    requires forall k | 0 <= k < |q| :: !q[k]
    ensures TimesG(q) == Zeros(|q| + 16)
  {
    if q != [] {
      var n := |q| - 1;
      ZeroTimesG(q[..n]);
    }
  }

  /** The last bit of a multiple is the last bit of the factor, sixteen places on. */
  lemma {:induction false} LastBit(q: seq<bool>, j: nat)
    requires j < |q| && q[j] && forall k | j < k < |q| :: !q[k]
    ensures TimesG(q)[j + 16]
  {
    var n := |q| - 1;
    var q', b := q[..n], q[n];
    assert q == q' + [b];
    TimesGNext(q', b, j + 16);
    if j < n {
      LastBit(q', j);
    } else {
      assert POLY[15];
    }
    hide TimesG;
  }

  lemma {:induction false} FirstAndLast(q: seq<bool>, s: nat) returns (i: nat, j: nat)
    requires s < |q| && q[s]
    ensures i <= j < |q| && q[i] && q[j]
    ensures (forall k | 0 <= k < i :: !q[k]) && forall k | j < k < |q| :: !q[k]
  {
    i, j := s, s;
    for k := 0 to s
      invariant forall l | 0 <= l < k :: !q[l]
    {
      if q[k] {
        i := k;
        break;
      }
    }
    var k := |q| - 1;
    while k > j
      invariant s <= k < |q| && forall l | k < l < |q| :: !q[l]
      decreases k
    {
      if q[k] {
        j := k;
        break;
      }
      k := k - 1;
    }
  }

  /** No nonzero multiple of the generator fits in sixteen places. */
  lemma {:induction false} MultipleIsLong(q: seq<bool>, s: nat, w: int)
    requires s < |q| && q[s]
    ensures !(forall k | 0 <= k < |q| + 16 && TimesG(q)[k] :: w <= k < w + 16)
  {
    var i, j := FirstAndLast(q, s);
    FirstBit(q, i);
    LastBit(q, j);
    hide TimesG;
  }

  /** The remainder is the only sixteen bits that complete a message to a multiple of the generator. */
  lemma {:induction false} RemainderUnique(m: seq<bool>, r: seq<bool>, q: seq<bool>)
    requires |r| == 16 && |q| == |m| && TimesG(q) == m + r
    ensures q == Quotient(m) && r == Rem(m)
  {
    Division(m);
    var p := Quotient(m);
    var d := Xor(p, q);
    TimesGAdds(p, q);
    hide TimesG, Quotient, Rem;
    forall k | 0 <= k < |m|
      ensures !d[k]
    {
      if d[k] {
        assert forall l | 0 <= l < |m| + 16 && TimesG(d)[l] :: |m| <= l < |m| + 16;
        MultipleIsLong(d, k, |m|);
      }
    }
    assert p == q;
    assert r == (m + r)[|m|..] == (m + Rem(m))[|m|..] == Rem(m);
  }

  // ----- what the check finds

  /** A received message and check value that agree. */
  predicate Agree(m: seq<bool>, r: seq<bool>) {
    r == Rem(m)
  }

  /** They agree exactly when together they are a multiple of the generator. */
  lemma {:induction false} AgreeIffMultiple(m: seq<bool>, r: seq<bool>)
    requires |r| == 16
    ensures Agree(m, r) <==> exists q: seq<bool> :: |q| == |m| && TimesG(q) == m + r
  {
    Division(m);
    hide TimesG, Quotient, Rem;
    if Agree(m, r) {
      assert |Quotient(m)| == |m| && TimesG(Quotient(m)) == m + r;
    }
    forall q: seq<bool> | |q| == |m| && TimesG(q) == m + r
      ensures Agree(m, r)
    {
      RemainderUnique(m, r, q);
    }
  }

  lemma {:induction false} XorConcat(a: seq<bool>, r: seq<bool>, b: seq<bool>, s: seq<bool>)
    requires |a| == |b| && |r| == |s|
    ensures Xor(a + r, b + s) == Xor(a, b) + Xor(r, s)
  {}

  /** The remainder is linear. */
  lemma {:induction false} RemAdds(a: seq<bool>, b: seq<bool>)
    requires |a| == |b|
    ensures Rem(Xor(a, b)) == Xor(Rem(a), Rem(b))
  {
    Division(a);
    Division(b);
    TimesGAdds(Quotient(a), Quotient(b));
    hide TimesG, Quotient, Rem;
    var q := Xor(Quotient(a), Quotient(b));
    XorConcat(a, Rem(a), b, Rem(b));
    RemainderUnique(Xor(a, b), Xor(Rem(a), Rem(b)), q);
  }

  lemma {:induction false} BurstIsNoMultiple(p: seq<bool>, q: seq<bool>, w: int)
    requires |p| == |q| && TimesG(p) != TimesG(q)
    ensures !(forall k | 0 <= k < |p| + 16 && TimesG(p)[k] != TimesG(q)[k] :: w <= k < w + 16)
  {
    hide *;
    assert p != q;
    var s :| 0 <= s < |p| && p[s] != q[s];
    TimesGAdds(p, q);
    MultipleIsLong(Xor(p, q), s, w);
  }

  /** A nonzero error confined to sixteen consecutive bits of message and check value is noticed. */
  lemma {:induction false} BurstNoticed(m: seq<bool>, r: seq<bool>, m': seq<bool>, r': seq<bool>, w: int)
    requires |r| == 16 == |r'| && |m| == |m'| && Agree(m, r)
    requires m + r != m' + r'
    requires forall k | 0 <= k < |m| + 16 && (m + r)[k] != (m' + r')[k] :: w <= k < w + 16
    ensures !Agree(m', r')
  {
    if Agree(m', r') {
      Division(m);
      Division(m');
      assert TimesG(Quotient(m')) == m' + r' && TimesG(Quotient(m)) == m + r;
      hide *;
      BurstIsNoMultiple(Quotient(m), Quotient(m'), w);
    }
  }
}
