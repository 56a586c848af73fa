/** Division by a positive number, rounding down. */
module Division {

  lemma Monotone(x: int, y: int, k: int)
    requires x <= y && k >= 0
    ensures x * k <= y * k
  {
  }

  lemma QuotientUnique(a: int, q: int, r: int, b: int)
    requires b > 0 && a == q * b + r && 0 <= r < b
    ensures a / b == q
  {
    var d := a / b - q;
    assert d * b == r - a % b by {
      assert a == (a / b) * b + a % b;
      assert (a / b) * b - q * b == d * b;
    }
    if d >= 1 {
      Monotone(1, d, b);
    } else if d <= -1 {
      Monotone(d, -1, b);
    }
  }

  lemma DivisionOfMultiple(k: int, x: int, b: int)
    requires b > 0
    ensures (k * b + x) / b == k + x / b
  {
    var q, r := x / b, x % b;
    assert k * b + x == (k + q) * b + r;
    QuotientUnique(k * b + x, k + q, r, b);
  }

  lemma QuotientBound(a: int, m: int, b: int)
    requires b > 0 && 0 <= a <= b * m
    ensures 0 <= a / b <= m
  {
    assert a == (a / b) * b + a % b;
    if a / b > m {
      Monotone(m + 1, a / b, b);
    }
    if a / b < 0 {
      Monotone(a / b, -1, b);
    }
  }

  lemma QuotientBounds(a: int, b: int)
    requires a >= 0 && b > 0
    ensures 0 <= a / b <= a && 0 <= a % b <= a
  {
    Monotone(1, b, a);
    QuotientBound(a, a, b);
    Monotone(0, a / b, b);
  }

  lemma QuotientGrows(x: int, y: int, b: int)
    requires x <= y && b > 0
    ensures x / b <= y / b
  {
    assert x == (x / b) * b + x % b && y == (y / b) * b + y % b;
    if x / b > y / b {
      Monotone(y / b + 1, x / b, b);
    }
  }

  lemma MultipleAligned(s: int, k: int)
    requires k > 0
    ensures s * k % k == 0
  {
    DivisionOfMultiple(s, 0, k);
    assert s * k == (s * k / k) * k + s * k % k;
  }
}
