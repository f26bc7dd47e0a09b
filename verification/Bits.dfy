/** Powers of two and the bit tricks on unsigned integers that the repository relies on. */
module Bits {

  const TWO32: nat := 0x1_0000_0000
  const TWO64: nat := 0x1_0000_0000_0000_0000

  function Pow2(n: nat): (p: nat)
    ensures p > 0
  {
    if n == 0 then 1 else 2 * Pow2(n - 1)
  }

  predicate IsPow2(n: nat) {
    n > 0 && (n == 1 || (n % 2 == 0 && IsPow2(n / 2)))
  }

  /** Bitwise AND of two naturals, one bit at a time. */
  function And(x: nat, y: nat): (r: nat)
    ensures r <= x && r <= y
  {
    if x == 0 || y == 0 then 0 else 2 * And(x / 2, y / 2) + (x % 2) * (y % 2)
  }

  /** The base-two logarithm of a power of two. */
  function Log2(n: nat): (l: nat)
    requires IsPow2(n)
    ensures Pow2(l) == n
  {
    if n == 1 then 0 else 1 + Log2(n / 2)
  }

  lemma {:induction false} Pow2IsPow2(l: nat)
    ensures IsPow2(Pow2(l))
  {
    if l > 0 {
      Pow2IsPow2(l - 1);
    }
  }

  lemma {:induction false} Pow2Add(a: nat, b: nat)
    ensures Pow2(a + b) == Pow2(a) * Pow2(b)
  {
    if a > 0 {
      Pow2Add(a - 1, b);
    }
  }

  lemma {:induction false} Pow2Of64()
    ensures Pow2(64) == TWO64 == 0x1_0000_0000_0000_0000
  {
    assert Pow2(8) == 0x100;
    hide Pow2;
    Pow2Add(8, 8);
    Pow2Add(16, 16);
    Pow2Add(32, 32);
  }

  lemma {:induction false} Pow2Mono(a: nat, b: nat)
    requires a < b
    ensures 2 * Pow2(a) <= Pow2(b)
  {
    if a + 1 < b {
      Pow2Mono(a, b - 1);
    }
  }

  lemma {:induction false} AndSelf(x: nat)
    ensures And(x, x) == x
  {
    if x > 0 {
      AndSelf(x / 2);
    }
  }

  /** Clearing the lowest set bit leaves nothing exactly for the powers of two. */
  lemma {:induction false} ClearLowestBit(n: nat)
    requires n > 0
    ensures And(n, n - 1) == 0 <==> IsPow2(n)
  {
    if n == 1 {
    } else if n % 2 == 1 {
      AndSelf(n / 2);
      assert (n - 1) / 2 == n / 2 && (n - 1) % 2 == 0;
    } else {
      ClearLowestBit(n / 2);
      assert (n - 1) / 2 == n / 2 - 1 && (n - 1) % 2 == 1;
    }
  }

  /** Masking with 2^k - 1 is reduction modulo 2^k. */
  lemma {:induction false} AndMask(x: nat, k: nat)
    ensures And(x, Pow2(k) - 1) == x % Pow2(k)
  {
    if x == 0 || k == 0 {
    } else {
      AndMask(x / 2, k - 1);
      assert (Pow2(k) - 1) / 2 == Pow2(k - 1) - 1;
      ModOfDouble(x / 2, x % 2, Pow2(k - 1));
    }
  }

  lemma ModOfDouble(y: nat, b: nat, m: nat)
    requires b < 2 && m > 0
    ensures (2 * y + b) % (2 * m) == 2 * (y % m) + b
  {
    var q, r := y / m, y % m;
    assert y == q * m + r;
    DivModUnique(2 * y + b, 2 * m, q, 2 * r + b);
  }

  function Quot(x: nat, m: nat): nat
    requires m > 0
  {
    x / m
  }

  function Rem(x: nat, m: nat): nat
    requires m > 0
  {
    x % m
  }

  lemma QuotRemUnique(x: nat, m: nat, q: nat, r: nat)
    requires m > 0 && r < m && x == q * m + r
    ensures Quot(x, m) == q && Rem(x, m) == r
  {
    DivModUnique(x, m, q, r);
  }

  lemma DivModUnique(x: int, m: int, q: int, r: int)
    requires m > 0 && 0 <= r < m && x == q * m + r
    ensures x / m == q && x % m == r
  {
    var q', r' := x / m, x % m;
    assert x == q' * m + r';
    assert q - q' >= 1 ==> (q - q') * m >= m;
    assert q' - q >= 1 ==> (q' - q) * m >= m;
    assert (q - q') * m == r' - r;
  }
}
