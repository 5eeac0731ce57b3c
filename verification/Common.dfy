/**
 Types and arithmetic that several models share.
 */
module Common {
  datatype Option<T> = None | Some(value: T)

  type byte = x: int | 0 <= x < 256

  type u64 = x: int | 0 <= x < 0x1_0000_0000_0000_0000

  /** The largest 64-bit value, which stands for a time that never comes. */
  const NEVER: u64 := 0xffff_ffff_ffff_ffff

  /** Arithmetic on 64-bit unsigned values. */
  function Wrap64(x: int): u64 { x % 0x1_0000_0000_0000_0000 }

  lemma WrapSmall(x: u64)
    ensures Wrap64(x) == x
  {
  }

  lemma WrapSum(a: int, b: int)
    ensures Wrap64(Wrap64(a) + b) == Wrap64(a + b)
  {
  }

  ghost predicate Distinct(s: seq<nat>) {
    forall i, j :: 0 <= i < j < |s| ==> s[i] != s[j]
  }

  function Pow2(n: nat): (p: nat)
    ensures p > 0
  {
    if n == 0 then 1 else 2 * Pow2(n - 1)
  }

  lemma {:induction false} SmallPowers(n: nat)
    requires n < 15
    ensures Pow2(n) == [1, 2, 4, 8, 16, 32, 64, 128, 256, 512, 1024, 2048, 4096, 8192, 16384][n]
  {
    if n > 0 {
      SmallPowers(n - 1);
    }
  }

  lemma MulMonotone(a: int, b: int, u: nat)
    ensures a <= b ==> a * u <= b * u
  {
  }

  lemma DivUnique(x: int, u: nat, q: int)
    requires u > 0 && q * u <= x < q * u + u
    ensures x / u == q
  {
    MulMonotone(x / u + 1, q, u);
    MulMonotone(q + 1, x / u, u);
  }
}
