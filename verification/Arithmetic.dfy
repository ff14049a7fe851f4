/** Whole-number arithmetic shared by the other modules. */
module Arithmetic {

  function Min(a: int, b: int): int {
    if a < b then a else b
  }

  function Max(a: int, b: int): int {
    if a < b then b else a
  }

  function MinNat(a: nat, b: nat): nat {
    if a < b then a else b
  }

  function MinReal(a: real, b: real): real {
    if a < b then a else b
  }

  function MaxReal(a: real, b: real): real {
    if a < b then b else a
  }

  function Pow2(n: nat): (p: nat)
    ensures p > 0
  {
    if n == 0 then 1 else 2 * Pow2(n - 1)
  }

  /** `val >>> i` */
  function ShiftRight(val: nat, i: nat): nat {
    if i == 0 then val else ShiftRight(val / 2, i - 1)
  }

  lemma {:induction false} ShiftRightOnce(val: nat, i: nat)
    ensures ShiftRight(val, i + 1) == ShiftRight(val, i) / 2
  {
    if i > 0 {
      ShiftRightOnce(val / 2, i - 1);
    }
  }

  lemma {:induction false} ShiftRightOut(val: nat, i: nat)
    requires val < Pow2(i)
    ensures ShiftRight(val, i) == 0
  {
    if i > 0 {
      ShiftRightOut(val / 2, i - 1);
    }
  }

  lemma MulLe(c: int, a: int, b: int)
    requires c >= 0 && a <= b
    ensures c * a <= c * b
  {
  }

  /** Quotient and remainder are the only pair that adds up. */
  lemma QuotientIs(a: int, d: int, q: int, r: int)
    requires d > 0 && a == d * q + r && 0 <= r < d
    ensures a / d == q && a % d == r
  {
    var q', r' := a / d, a % d;
    assert a == d * q' + r';
    assert d * (q + 1) == d * q + d && d * (q' + 1) == d * q' + d;
    if q' > q {
      MulLe(d, q + 1, q');
    } else if q' < q {
      MulLe(d, q' + 1, q);
    }
  }
}
