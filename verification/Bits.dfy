/** Powers of two, trailing zeros, binary ones and binary logarithms. */
module Bits {
  function Pow2(n: nat): (p: nat)
    ensures p > 0
  {
    if n == 0 then 1 else 2 * Pow2(n - 1)
  }

  /** The number of trailing binary zeros. */
  function Ctz(a: nat): nat
    requires a > 0
  {
    if a % 2 == 1 then 0 else 1 + Ctz(a / 2)
  }

  /** The number of binary ones. */
  function Popc(a: nat): nat {
    if a == 0 then 0 else a % 2 + Popc(a / 2)
  }

  /** The floor of the binary logarithm. */
  function Log2(a: nat): nat
    requires a > 0
  {
    if a == 1 then 0 else 1 + Log2(a / 2)
  }

  /** The exponent of the smallest power of two that is not below `a`. */
  function Npw2(a: nat): nat
    requires a >= 2
  {
    1 + Log2(a - 1)
  }

  lemma {:induction false} Log2Bounds(a: nat)
    requires a > 0
    ensures Pow2(Log2(a)) <= a < 2 * Pow2(Log2(a))
  {
    if a > 1 {
      Log2Bounds(a / 2);
    }
  }

  lemma {:induction false} Pow2Monotone(m: nat, n: nat)
    requires m <= n
    ensures Pow2(m) <= Pow2(n)
    ensures m < n ==> 2 * Pow2(m) <= Pow2(n)
    decreases n - m
  {
    if m < n {
      Pow2Monotone(m, n - 1);
    }
  }

  lemma Log2IsUnique(a: nat, k: nat)
    requires a > 0 && Pow2(k) <= a < 2 * Pow2(k)
    ensures Log2(a) == k
  {
    Log2Bounds(a);
    if k < Log2(a) {
      Pow2Monotone(k, Log2(a));
    } else if Log2(a) < k {
      Pow2Monotone(Log2(a), k);
    }
  }

  lemma Pow2Reflects(m: nat, n: nat)
    requires Pow2(m) < Pow2(n)
    ensures m < n
  {
    if n <= m {
      Pow2Monotone(n, m);
    }
  }

  lemma Pow2Order(m: nat, n: nat)
    ensures m < n ==> 2 * Pow2(m) <= Pow2(n)
  {
    if m < n {
      Pow2Monotone(m, n);
    }
  }

  /** `Npw2` is the exponent it claims to be. */
  lemma Npw2IsLeast(a: nat)
    requires a >= 2
    ensures Pow2(Npw2(a)) >= a && forall k: nat | Pow2(k) >= a :: k >= Npw2(a)
  {
    Log2Bounds(a - 1);
    forall k: nat | Pow2(k) >= a ensures k >= Npw2(a) {
      if k < Npw2(a) {
        Pow2Monotone(k, Log2(a - 1));
      }
    }
  }

  /** Taking one away turns the trailing zeros into ones. */
  lemma {:induction false} PopcStep(a: nat)
    requires a > 0
    ensures Popc(a) + Ctz(a) == Popc(a - 1) + 1
  {
    if a % 2 == 0 {
      PopcStep(a / 2);
      assert (a - 1) / 2 == a / 2 - 1 && (a - 1) % 2 == 1;
    } else {
      assert (a - 1) / 2 == a / 2 && (a - 1) % 2 == 0;
    }
  }

  lemma {:induction false} PopcBound(a: nat, n: nat)
    requires a < Pow2(n)
    ensures Popc(a) <= n
    decreases n
  {
    if a > 0 {
      PopcBound(a / 2, n - 1);
    }
  }

  /** Trailing zeros count factors of two. */
  lemma {:induction false} CtzBound(a: nat)
    requires a > 0
    ensures Pow2(Ctz(a)) <= a
  {
    if a % 2 == 0 {
      CtzBound(a / 2);
    }
  }

  lemma CtzDouble(a: nat)
    requires a > 0
    ensures Ctz(2 * a) == 1 + Ctz(a)
  {
    assert (2 * a) % 2 == 0 && 2 * a / 2 == a;
  }

  /** What subtracting a power of two does to the trailing zeros, up to as many as there are. */
  lemma {:induction false} CtzAfterSkip(a: nat, k: nat)
    requires a > 0 && k <= Ctz(a)
    ensures Pow2(k) <= a
    ensures a > Pow2(k) ==> Ctz(a - Pow2(k)) >= k
    ensures a > Pow2(k) && k == Ctz(a) ==> Ctz(a - Pow2(k)) > k
    ensures a > Pow2(k) && k < Ctz(a) ==> Ctz(a - Pow2(k)) == k
    decreases k
  {
    if k > 0 {
      var h := a / 2;
      assert a == 2 * h && Ctz(a) == 1 + Ctz(h);
      CtzAfterSkip(h, k - 1);
      if h > Pow2(k - 1) {
        CtzDouble(h - Pow2(k - 1));
      }
    } else if a > 1 {
      assert Ctz(a) == 0 <==> a % 2 == 1;
      assert Ctz(a - 1) == 0 <==> a % 2 == 0;
    }
  }

  lemma Pow2Steps(n: nat)
    ensures Pow2(n + 8) == 0x100 * Pow2(n)
  {
    assert Pow2(n + 2) == 4 * Pow2(n);
    assert Pow2(n + 4) == 4 * Pow2(n + 2);
    assert Pow2(n + 6) == 4 * Pow2(n + 4);
  }
}
