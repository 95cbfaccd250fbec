/** Division with remainder by repeated subtraction. The definitions unfold one step at a time, which keeps the built-in
    operators out of proofs about whole packets; `IsDivision` ties them to these operators. */
module Division {

  function Quot(n: nat, d: nat): nat
    requires d > 0
  {
    if n < d then 0 else 1 + Quot(n - d, d)
  }

  function Rem(n: nat, d: nat): (r: nat)
    requires d > 0
    ensures r < d
  {
    if n < d then n else Rem(n - d, d)
  }

  lemma {:induction false} QuotRem(n: nat, d: nat)
    requires d > 0
    ensures n == Quot(n, d) * d + Rem(n, d)
  {
    if n >= d {
      QuotRem(n - d, d);
      OneMore(Quot(n - d, d), d);
    }
  }

  lemma {:induction false} OneMore(q: nat, d: nat)
    ensures (q + 1) * d == q * d + d
  {
  }

  lemma {:induction false} QuotRemUnique(n: nat, d: nat, q: nat, r: nat)
    requires d > 0 && n == q * d + r && r < d
    ensures Quot(n, d) == q && Rem(n, d) == r
    decreases q
  {
    if q > 0 {
      OneMore(q - 1, d);
      QuotRemUnique(n - d, d, q - 1, r);
    }
  }

  lemma {:induction false} IsDivision(n: nat, d: nat)
    requires d > 0
    ensures Quot(n, d) == n / d && Rem(n, d) == n % d
  {
    QuotRemUnique(n, d, n / d, n % d);
  }
}
