/** Complex numbers over exact reals, and finite sums of them. */
module Complex {

  datatype C = C(re: real, im: real)

  const Zero := C(0.0, 0.0)
  const One := C(1.0, 0.0)

  function Add(a: C, b: C): C { C(a.re + b.re, a.im + b.im) }

  function Sub(a: C, b: C): C { C(a.re - b.re, a.im - b.im) }

  function Mul(a: C, b: C): C { C(a.re * b.re - a.im * b.im, a.re * b.im + a.im * b.re) }

  function Conj(a: C): C { C(a.re, -a.im) }

  /** Real and imaginary part exchanged: i times the conjugate. */
  function Swap(a: C): C { C(a.im, a.re) }

  function Scale(r: real, a: C): C { C(r * a.re, r * a.im) }

  lemma MulComm(a: C, b: C)
    ensures Mul(a, b) == Mul(b, a)
  {}

  lemma MulAssoc(a: C, b: C, c: C)
    ensures Mul(Mul(a, b), c) == Mul(a, Mul(b, c))
  {}

  lemma MulAdd(a: C, b: C, c: C)
    ensures Mul(a, Add(b, c)) == Add(Mul(a, b), Mul(a, c))
  {}

  lemma MulOne(a: C)
    ensures Mul(a, One) == a && Mul(One, a) == a && Mul(a, Zero) == Zero && Mul(Zero, a) == Zero
  {}

  lemma AddComm(a: C, b: C)
    ensures Add(a, b) == Add(b, a)
  {}

  lemma AddAssoc(a: C, b: C, c: C)
    ensures Add(Add(a, b), c) == Add(a, Add(b, c))
  {}

  lemma AddZero(a: C)
    ensures Add(a, Zero) == a && Add(Zero, a) == a
  {}

  /** (a + b) + (c + d) == (a + c) + (b + d) */
  lemma AddInterchange(a: C, b: C, c: C, d: C)
    ensures Add(Add(a, b), Add(c, d)) == Add(Add(a, c), Add(b, d))
  {}

  lemma SwapMul(a: C, b: C)
    ensures Swap(Mul(a, b)) == Mul(Swap(a), Conj(b))
  {}

  lemma SwapAdd(a: C, b: C)
    ensures Swap(Add(a, b)) == Add(Swap(a), Swap(b))
  {}

  /** (a b) (c d) == (a c) (b d) */
  lemma MulInterchange(a: C, b: C, c: C, d: C)
    ensures Mul(Mul(a, b), Mul(c, d)) == Mul(Mul(a, c), Mul(b, d))
  {
    hide Mul;
    MulAssoc(a, b, Mul(c, d));
    MulAssoc(b, c, d);
    MulComm(b, c);
    MulAssoc(c, b, d);
    MulAssoc(a, c, Mul(b, d));
  }

  /** The product of two reals, with the rule of signs. */
  ghost function Times(x: real, y: real): (r: real)
    ensures x > 0.0 && y > 0.0 ==> r > 0.0
    ensures x > 0.0 && y < 0.0 ==> r < 0.0
    ensures x < 0.0 && y < 0.0 ==> r > 0.0
  {
    x * y
  }

  ghost function Square(x: real): (r: real)
    ensures x != 0.0 ==> r > 0.0
    ensures r >= 0.0
  {
    Times(x, x)
  }

  /** The squared absolute value. */
  ghost function Norm(a: C): (r: real)
    ensures a != Zero ==> r > 0.0
  {
    Square(a.re) + Square(a.im)
  }

  /** A product vanishes only if a factor does. */
  lemma NoZeroDivisors(a: C, b: C)
    requires Mul(a, b) == Zero
    ensures a == Zero || b == Zero
  {
    hide Mul, Norm, Times;
    MulByNorm(a, b);
    assert a.re * 0.0 + a.im * 0.0 == 0.0 && a.re * 0.0 - a.im * 0.0 == 0.0;
  }

  /** conj(a) (a b) == |a|^2 b */
  lemma MulByNorm(a: C, b: C)
    ensures Times(Norm(a), b.re) == a.re * Mul(a, b).re + a.im * Mul(a, b).im
    ensures Times(Norm(a), b.im) == a.re * Mul(a, b).im - a.im * Mul(a, b).re
  {
    hide Times;
    NormIs(a);
    hide Norm;
    MulByNormParts(Norm(a), a.re, a.im, b.re, b.im);
  }

  lemma NormIs(a: C)
    ensures Norm(a) == a.re * a.re + a.im * a.im
  {}

  lemma MulByNormParts(n: real, x: real, y: real, u: real, v: real)
    requires n == x * x + y * y
    ensures Times(n, u) == x * (x * u - y * v) + y * (x * v + y * u)
    ensures Times(n, v) == x * (x * v + y * u) - y * (x * u - y * v)
  {}

  // ----- finite sums

  ghost function Sum(n: nat, f: int -> C): C {
    if n == 0 then Zero else Add(Sum(n - 1, f), f(n - 1))
  }

  lemma {:induction false} SumEq(n: nat, f: int -> C, g: int -> C)
    requires forall k :: 0 <= k < n ==> f(k) == g(k)
    ensures Sum(n, f) == Sum(n, g)
  {
    hide Add;
    if n > 0 {
      SumEq(n - 1, f, g);
    }
  }

  lemma {:induction false} SumAdd(n: nat, f: int -> C, g: int -> C)
    ensures Sum(n, k => Add(f(k), g(k))) == Add(Sum(n, f), Sum(n, g))
  {
    hide Add;
    if n == 0 {
      AddZero(Zero);
    } else {
      SumAdd(n - 1, f, g);
      AddInterchange(Sum(n - 1, f), Sum(n - 1, g), f(n - 1), g(n - 1));
    }
  }

  lemma {:induction false} SumMul(n: nat, c: C, f: int -> C)
    ensures Sum(n, k => Mul(c, f(k))) == Mul(c, Sum(n, f))
  {
    hide Add, Mul;
    if n == 0 {
      MulOne(c);
    } else {
      SumMul(n - 1, c, f);
      MulAdd(c, Sum(n - 1, f), f(n - 1));
    }
  }

  lemma SumMultiple(n: nat, c: C, f: int -> C, g: int -> C)
    requires forall k :: 0 <= k < n ==> g(k) == Mul(c, f(k))
    ensures Sum(n, g) == Mul(c, Sum(n, f))
  {
    SumMul(n, c, f);
    SumEq(n, g, k => Mul(c, f(k)));
  }

  lemma {:induction false} SumZero(n: nat, f: int -> C)
    requires forall k :: 0 <= k < n ==> f(k) == Zero
    ensures Sum(n, f) == Zero
  {
    hide Add;
    if n > 0 {
      AddZero(Zero);
      SumZero(n - 1, f);
    }
  }

  /** A sum with one non-zero term. */
  lemma {:induction false} SumSingle(n: nat, f: int -> C, j: nat)
    requires j < n
    requires forall k :: 0 <= k < n && k != j ==> f(k) == Zero
    ensures Sum(n, f) == f(j)
  {
    hide Add;
    AddZero(f(j));
    if j == n - 1 {
      SumZero(n - 1, f);
    } else {
      SumSingle(n - 1, f, j);
    }
  }

  lemma {:induction false} SumSplit(n: nat, m: nat, f: int -> C)
    ensures Sum(n + m, f) == Add(Sum(n, f), Sum(m, k => f(n + k)))
  {
    hide Add;
    if m == 0 {
      AddZero(Sum(n, f));
    } else {
      SumSplit(n, m - 1, f);
      AddAssoc(Sum(n, f), Sum(m - 1, k => f(n + k)), f(n + m - 1));
    }
  }

  /** Terms at even and at odd positions. */
  lemma {:induction false} SumEvenOdd(m: nat, f: int -> C)
    ensures Sum(2 * m, f) == Add(Sum(m, k => f(2 * k)), Sum(m, k => f(2 * k + 1)))
  {
    hide Add;
    if m == 0 {
      AddZero(Zero);
    } else {
      SumEvenOdd(m - 1, f);
      assert Sum(2 * m, f) == Add(Add(Sum(2 * m - 2, f), f(2 * m - 2)), f(2 * m - 1));
      AddAssoc(Sum(2 * m - 2, f), f(2 * m - 2), f(2 * m - 1));
      AddInterchange(Sum(m - 1, k => f(2 * k)), Sum(m - 1, k => f(2 * k + 1)), f(2 * m - 2), f(2 * m - 1));
    }
  }

  /** Exchange of the order of summation. */
  lemma {:induction false} SumSwap(n: nat, m: nat, f: (int, int) -> C)
    ensures Sum(n, i => Sum(m, j => f(i, j))) == Sum(m, j => Sum(n, i => f(i, j)))
  {
    hide Add;
    if n == 0 {
      var g := (j: int) => Sum(n, i => f(i, j));
      forall j | 0 <= j < m
        ensures g(j) == Zero
      {
        assert g(j) == Sum(0, i => f(i, j));
      }
      SumZero(m, g);
      SumEq(m, g, j => Sum(n, i => f(i, j)));
    } else {
      SumSwap(n - 1, m, f);
      SumAdd(m, j => Sum(n - 1, i => f(i, j)), j => f(n - 1, j));
      SumEq(m, j => Sum(n, i => f(i, j)), k => Add((j => Sum(n - 1, i => f(i, j)))(k), (j => f(n - 1, j))(k)));
    }
  }

  /** Over a full period a cyclic shift does not change a sum. */
  lemma SumCyclic(n: nat, s: nat, f: int -> C, g: int -> C)
    requires s <= n
    requires forall k :: 0 <= k < s ==> g(k) == f(n - s + k)
    requires forall k :: s <= k < n ==> g(k) == f(k - s)
    ensures Sum(n, g) == Sum(n, f)
  {
    hide Sum, Add;
    var p, q := (k: int) => f(n - s + k), (k: int) => g(s + k);
    SumEq(s, g, p);
    SumEq(n - s, q, f);
    assert Sum(n, g) == Add(Sum(s, g), Sum(n - s, q)) by {
      SumSplit(s, n - s, g);
      SumEq(n - s, k => g(s + k), q);
    }
    assert Sum(n, f) == Add(Sum(n - s, f), Sum(s, p)) by {
      SumSplit(n - s, s, f);
      SumEq(s, k => f(n - s + k), p);
    }
    AddComm(Sum(s, g), Sum(n - s, q));
  }

  lemma {:induction false} SumSwapParts(n: nat, f: int -> C)
    ensures Swap(Sum(n, f)) == Sum(n, k => Swap(f(k)))
  {
    if n > 0 {
      SumSwapParts(n - 1, f);
      SwapAdd(Sum(n - 1, f), f(n - 1));
      hide Swap, Add;
    }
  }
}
