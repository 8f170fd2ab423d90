/** Multiplication, division and alignment by repeated addition, and the proofs that they are what
    the operators of the language compute. The proofs elsewhere stay linear this way. */
module Arith {
  // ---- multiplication and division by repeated addition ----

  function Times(n: nat, b: nat): nat {
    if n == 0 then 0 else Times(n - 1, b) + b
  }

  lemma {:induction false} TimesIs(n: nat, b: nat)
    ensures Times(n, b) == n * b
  {
    if n > 0 {
      TimesIs(n - 1, b);
    }
  }

  lemma {:induction false} TimesMonotone(m: nat, n: nat, b: nat)
    requires m <= n
    ensures Times(m, b) <= Times(n, b)
    ensures m < n ==> Times(m, b) + b <= Times(n, b)
    decreases n - m
  {
    if m < n {
      TimesMonotone(m, n - 1, b);
    }
  }

  function Div(a: nat, b: nat): nat
    requires b > 0
  {
    if a < b then 0 else 1 + Div(a - b, b)
  }

  lemma {:induction false} DivSplits(a: nat, b: nat)
    requires b > 0
    ensures Times(Div(a, b), b) <= a < Times(Div(a, b), b) + b
  {
    if a >= b {
      DivSplits(a - b, b);
    }
  }

  lemma TimesOrder(m: nat, n: nat, b: nat)
    ensures m < n ==> Times(m, b) + b <= Times(n, b)
  {
    if m < n {
      TimesMonotone(m, n, b);
    }
  }

  lemma DivIs(a: nat, b: nat, q: nat)
    requires b > 0 && Times(q, b) <= a < Times(q, b) + b
    ensures Div(a, b) == q
  {
    DivSplits(a, b);
    TimesOrder(q, Div(a, b), b);
    TimesOrder(Div(a, b), q, b);
  }

  lemma DivMonotone(x: nat, y: nat, b: nat)
    requires b > 0 && x <= y
    ensures Div(x, b) <= Div(y, b)
  {
    DivSplits(x, b);
    DivSplits(y, b);
    TimesOrder(Div(y, b), Div(x, b), b);
  }

  lemma DivBelow(a: nat, b: nat, c: nat)
    requires b > 0
    ensures Div(a, b) < c <==> a < Times(c, b)
  {
    var q := Div(a, b);
    DivSplits(a, b);
    TimesOrder(q, c, b);
    if c <= q {
      TimesMonotone(c, q, b);
    }
  }

  /** Repeated subtraction is integer division. */
  lemma DivIsDivision(a: nat, b: nat)
    requires b > 0
    ensures Div(a, b) == a / b
  {
    var q := a / b;
    assert q * b <= a < q * b + b;
    TimesIs(q, b);
    DivIs(a, b, q);
  }

  // ---- alignment ----

  /** Multiples of `n`, and rounding to them, by repeated addition. */
  predicate Aligned(a: nat, n: nat) {
    n > 0 && (a == 0 || (a >= n && Aligned(a - n, n)))
  }

  function AlignDown(a: nat, n: nat): nat
    requires n > 0
  {
    if a < n then 0 else n + AlignDown(a - n, n)
  }

  function AlignUp(a: nat, n: nat): nat
    requires n > 0
  {
    AlignDown(a + n - 1, n)
  }

  lemma {:induction false} AlignDownIs(a: nat, n: nat)
    requires n > 0
    ensures AlignDown(a, n) <= a < AlignDown(a, n) + n && Aligned(AlignDown(a, n), n)
    ensures Aligned(a, n) ==> AlignDown(a, n) == a
  {
    if a >= n {
      AlignDownIs(a - n, n);
    }
  }

  lemma AlignUpIs(a: nat, n: nat)
    requires n > 0
    ensures a <= AlignUp(a, n) < a + n && Aligned(AlignUp(a, n), n)
  {
    AlignDownIs(a + n - 1, n);
  }

  lemma AlignUpLeast(a: nat, m: nat, n: nat)
    requires Aligned(m, n) && a <= m
    ensures AlignUp(a, n) <= m
  {
    AlignUpIs(a, n);
    if m < AlignUp(a, n) {
      AlignedDifference(AlignUp(a, n), m, n);
    }
  }

  lemma {:induction false} AlignedSum(a: nat, b: nat, n: nat)
    requires Aligned(a, n) && Aligned(b, n)
    ensures Aligned(a + b, n)
  {
    if a != 0 {
      AlignedSum(a - n, b, n);
    }
  }

  lemma {:induction false} AlignedDifference(a: nat, b: nat, n: nat)
    requires Aligned(a, n) && Aligned(b, n) && b <= a
    ensures Aligned(a - b, n) && (b < a ==> b + n <= a)
  {
    if b != 0 {
      AlignedDifference(a - n, b - n, n);
    }
  }

  /** Multiples of a multiple. */
  lemma {:induction false} AlignedTrans(a: nat, m: nat, n: nat)
    requires Aligned(a, m) && Aligned(m, n)
    ensures Aligned(a, n)
    decreases a
  {
    if a != 0 {
      AlignedTrans(a - m, m, n);
      AlignedSum(m, a - m, n);
    }
  }

  lemma {:induction false} AlignDownIsTimes(a: nat, n: nat)
    requires n > 0
    ensures AlignDown(a, n) == Times(Div(a, n), n)
  {
    if a >= n {
      AlignDownIsTimes(a - n, n);
    }
  }

  /** Rounding down subtracts the remainder, as the code does it. */
  lemma AlignDownIsRemainder(a: nat, n: nat)
    requires n > 0
    ensures AlignDown(a, n) == a - a % n
  {
    AlignDownIsTimes(a, n);
    DivIsDivision(a, n);
    TimesIs(a / n, n);
    assert a == a / n * n + a % n;
  }

  lemma AlignedIsRemainder(a: nat, n: nat)
    requires n > 0
    ensures Aligned(a, n) <==> a % n == 0
  {
    AlignDownIs(a, n);
    AlignDownIsRemainder(a, n);
  }

  // ---- the smaller and the larger ----

  function Min(a: nat, b: nat): nat {
    if a < b then a else b
  }

  function Max(a: nat, b: nat): nat {
    if a < b then b else a
  }
}
