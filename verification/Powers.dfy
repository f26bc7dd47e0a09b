/** Powers of any base, for the digits of numbers. */
module Powers {

  function Pow(b: nat, n: nat): (p: nat)
    ensures b > 0 ==> p > 0
  {
    if n == 0 then 1 else b * Pow(b, n - 1)
  }

  lemma {:induction false} PowSum(b: nat, m: nat, n: nat)
    ensures Pow(b, m + n) == Pow(b, m) * Pow(b, n)
  {
    if m > 0 {
      PowSum(b, m - 1, n);
      var p, q := Pow(b, m - 1), Pow(b, n);
      assert Pow(b, m + n) == b * Pow(b, m - 1 + n) && Pow(b, m) == b * p;
      hide *;
      assert b * (p * q) == (b * p) * q;
    }
  }
}
