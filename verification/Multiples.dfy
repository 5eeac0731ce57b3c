/**
 Products and quotients by repeated addition and subtraction, so that proofs about multiples of a
 variable stay linear; each is tied to the operator it stands for.
 */
module Multiples {

  /** k * u. */
  function Times(k: nat, u: nat): nat {
    if k == 0 then 0 else Times(k - 1, u) + u
  }

  /** x / u. */
  function Quot(x: nat, u: nat): nat
    requires u > 0
  {
    if x < u then 0 else 1 + Quot(x - u, u)
  }

  /** x % u == 0. */
  predicate Multiple(x: nat, u: nat)
    requires u > 0
  {
    Times(Quot(x, u), u) == x
  }

  lemma {:induction false} TimesIsProduct(k: nat, u: nat)
    ensures Times(k, u) == k * u
  {
    if k > 0 {
      TimesIsProduct(k - 1, u);
      assert k * u == (k - 1) * u + u;
    }
  }

  lemma {:induction false} TimesAdd(a: nat, b: nat, u: nat)
    ensures Times(a + b, u) == Times(a, u) + Times(b, u)
  {
    if b > 0 {
      TimesAdd(a, b - 1, u);
    }
  }

  lemma TimesMonotone(a: nat, b: nat, u: nat)
    ensures a <= b ==> Times(a, u) <= Times(b, u)
    ensures a < b ==> Times(a, u) + u <= Times(b, u)
  {
    if a <= b {
      TimesAdd(a, b - a, u);
    }
  }

  lemma {:induction false} TimesTimes(a: nat, b: nat, u: nat)
    ensures Times(Times(a, b), u) == Times(a, Times(b, u))
  {
    if a > 0 {
      TimesTimes(a - 1, b, u);
      TimesAdd(Times(a - 1, b), b, u);
    }
  }

  lemma {:induction false} QuotBounds(x: nat, u: nat)
    requires u > 0
    ensures Times(Quot(x, u), u) <= x < Times(Quot(x, u), u) + u
  {
    if x >= u {
      QuotBounds(x - u, u);
    }
  }

  lemma QuotUnique(x: nat, u: nat, q: nat)
    requires u > 0 && Times(q, u) <= x < Times(q, u) + u
    ensures Quot(x, u) == q
  {
    QuotBounds(x, u);
    TimesMonotone(q, Quot(x, u), u);
    TimesMonotone(Quot(x, u), q, u);
  }

  lemma QuotIsDivision(x: nat, u: nat)
    requires u > 0
    ensures Quot(x, u) == x / u && x % u == x - Times(Quot(x, u), u)
    ensures Multiple(x, u) <==> x % u == 0
  {
    TimesIsProduct(x / u, u);
    DivisionBounds(x, u);
    QuotUnique(x, u, x / u);
  }

  lemma DivisionBounds(x: nat, u: nat)
    requires u > 0
    ensures x == x / u * u + x % u && 0 <= x % u < u
  {
  }

  /** Quotient and remainder are unique. */
  lemma DivideBy(x: int, u: int, q: int, r: int)
    requires u > 0 && x == u * q + r && 0 <= r < u
    ensures x / u == q && x % u == r
  {
    var d := q - x / u;
    assert u * d == x % u - r;
    SmallMultiple(u, d);
  }

  lemma SmallMultiple(u: int, d: int)
    requires u > 0 && -u < u * d < u
    ensures d == 0
  {
  }
}
