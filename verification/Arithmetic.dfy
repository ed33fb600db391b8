/** Small facts about integer multiplication and division. */
module Arithmetic {

  lemma MulSucc(i: int, c: int)
    ensures (i + 1) * c == i * c + c
  {
  }

  lemma MulMonotone(a: int, b: int, c: nat)
    requires a <= b
    ensures a * c <= b * c
  {
    var d: nat := b - a;
    assert b * c == a * c + d * c;
    assert d * c >= 0;
  }

  /** Multiplication by counting, for proofs that only ever take one step. */
  ghost function Times(i: nat, n: nat): nat {
    if i == 0 then 0 else Times(i - 1, n) + n
  }

  lemma {:induction false} TimesIsProduct(i: nat, n: nat)
    ensures Times(i, n) == i * n
  {
    if i > 0 {
      TimesIsProduct(i - 1, n);
      MulSucc(i - 1, n);
    }
  }

  lemma {:induction false} TimesMonotone(i: nat, j: nat, n: nat)
    requires i <= j
    ensures Times(i, n) <= Times(j, n)
    decreases j
  {
    if i < j {
      TimesMonotone(i, j - 1, n);
    }
  }

  /** Quotient and remainder are determined by the division equation. */
  lemma DivUnique(a: int, b: int, q: int, r: int)
    requires b > 0 && 0 <= r < b && a == q * b + r
    ensures a / b == q && a % b == r
  {
    var q1, r1 := a / b, a % b;
    assert a == q1 * b + r1;
    if q < q1 {
      MulMonotone(q + 1, q1, b);
      MulSucc(q, b);
    } else if q1 < q {
      MulMonotone(q1 + 1, q, b);
      MulSucc(q1, b);
    }
  }

  /** Dividing twice is dividing by the product. */
  lemma DivDiv(v: nat, a: nat, b: nat)
    requires a > 0 && b > 0
    ensures a * b > 0 && v / a / b == v / (a * b)
  {
    var q, r := v / a, v % a;
    var p, s := q / b, q % b;
    assert v == q * a + r && q == p * b + s;
    MulMonotone(s, b - 1, a);
    MulMonotone(1, b, a);
    MulSucc(b - 1, a);
    assert v == p * (a * b) + (s * a + r) by {
      assert (p * b + s) * a == p * b * a + s * a;
      assert p * b * a == p * (a * b);
    }
    DivUnique(v, a * b, p, s * a + r);
  }

  function CeilDiv(a: nat, b: nat): nat
    requires b > 0
  {
    (a + b - 1) / b
  }

  /** The ceiling of a quotient, as the only integer in its interval. */
  lemma CeilDivUnique(a: nat, b: nat, q: nat)
    requires b > 0
    requires a <= q * b && (q == 0 || (q - 1) * b < a)
    ensures CeilDiv(a, b) == q
  {
    if q == 0 {
      DivUnique(a + b - 1, b, 0, b - 1);
    } else {
      MulSucc(q - 1, b);
      DivUnique(a + b - 1, b, q, a + b - 1 - q * b);
    }
  }

  lemma CeilDivBounds(a: nat, b: nat)
    requires b > 0
    ensures a <= CeilDiv(a, b) * b
    ensures CeilDiv(a, b) == 0 <==> a == 0
    ensures a > 0 ==> (CeilDiv(a, b) - 1) * b < a
  {
    var q, r := (a + b - 1) / b, (a + b - 1) % b;
    assert a + b - 1 == q * b + r;
    MulSucc(q - 1, b);
    if a == 0 {
      DivUnique(b - 1, b, 0, b - 1);
    }
  }

  lemma CeilDivStep(a: nat, b: nat)
    requires 0 < b <= a
    ensures CeilDiv(a, b) == CeilDiv(a - b, b) + 1
  {
    CeilDivBounds(a - b, b);
    var q: nat := CeilDiv(a - b, b);
    MulSucc(q, b);
    MulSucc(q - 1, b);
    CeilDivUnique(a, b, q + 1);
  }

  /** A ceiling is at most `c` exactly when the dividend fits `c` divisors. */
  lemma CeilDivAtMost(a: nat, b: nat, c: nat)
    requires b > 0
    ensures CeilDiv(a, b) <= c <==> a <= c * b
  {
    CeilDivBounds(a, b);
    var q := CeilDiv(a, b);
    if q <= c {
      MulMonotone(q, c, b);
    } else {
      MulMonotone(c, q - 1, b);
    }
  }

  lemma CeilDivSuccessor(a: nat, b: nat)
    requires b > 0
    ensures CeilDiv(a + 1, b) == CeilDiv(a, b) + if a % b == 0 then 1 else 0
  {
    var q, r := a / b, a % b;
    assert a == q * b + r;
    MulSucc(q, b);
    MulSucc(q - 1, b);
    CeilDivUnique(a + 1, b, q + 1);
    CeilDivUnique(a, b, if r == 0 then q else q + 1);
  }
}
