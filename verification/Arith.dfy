/** Facts about multiplication and division that several models need. */
module Arith {

  function Pow2(n: nat): (p: nat)
    ensures p > 0
  {
    if n == 0 then 1 else 2 * Pow2(n - 1)
  }

  lemma {:induction false} MulSign(d: int, p: int)
    requires p > 0
    ensures 0 < d <==> 0 < d * p
    ensures d < 0 <==> d * p < 0
  {
    if d < 0 {
      assert d * p == -(-d * p);
      assert -d * p > 0;
    } else if d > 0 {
      assert d * p > 0;
    }
  }

  lemma {:induction false} MulOrder(a: int, b: int, p: int)
    requires p > 0
    ensures a < b <==> a * p < b * p
    ensures a <= b <==> a * p <= b * p
  {
    assert (b - a) * p == b * p - a * p;
    MulSign(b - a, p);
  }

  /** Quotient and remainder are the only pair with these bounds. */
  lemma {:induction false} DivIs(x: int, p: int, q: int, r: int)
    requires p > 0 && x == q * p + r && 0 <= r < p
    ensures x / p == q && x % p == r
  {
    var d := x / p;
    assert x == d * p + x % p;
    MulOrder(q, d + 1, p);
    MulOrder(d, q + 1, p);
  }

  lemma {:induction false} TwoDigits(a: nat, b: nat, hi: nat, lo: nat, r: nat)
    requires lo < b && r < a
    ensures (hi * b + lo) * a + r == hi * (a * b) + (lo * a + r)
    ensures 0 <= lo * a + r < a * b
  {
    MulOrder(lo + 1, b, a);
    assert (lo + 1) * a == lo * a + a;
    assert lo * a >= 0;
  }

  lemma {:induction false} DigitsAre(x: nat, a: nat, b: nat, hi: nat, lo: nat, r: nat)
    requires lo < b && r < a && x == (hi * b + lo) * a + r
    ensures a * b > 0 && x / (a * b) == hi && x % (a * b) == lo * a + r
  {
    TwoDigits(a, b, hi, lo, r);
    DivIs(x, a * b, hi, lo * a + r);
  }

  lemma {:induction false} Division(x: nat, a: nat)
    requires a > 0
    ensures x == x / a * a + x % a && x % a < a
  {
  }

  /** Dividing by a product digit by digit. */
  lemma {:induction false} Digits(x: nat, a: nat, b: nat)
    requires a > 0 && b > 0
    ensures a * b > 0 && x / (a * b) == x / a / b && x % (a * b) == x / a % b * a + x % a
  {
    Division(x, a);
    Division(x / a, b);
    DigitsAre(x, a, b, x / a / b, x / a % b, x % a);
  }

  /** A binary digit of the lower digits is one of the whole. */
  lemma {:induction false} LowDigit(x: nat, a: nat, b: nat)
    requires a > 0 && b > 0
    ensures a * (2 * b) > 0 && x % (a * (2 * b)) / a % 2 == x / a % 2
  {
    Digits(x, a, 2 * b);
    DivIs(x / a % (2 * b) * a + x % a, a, x / a % (2 * b), x % a);
    Digits(x / a, 2, b);
    DivIs(x / a / 2 % b * 2 + x / a % 2, 2, x / a / 2 % b, x / a % 2);
  }
}
