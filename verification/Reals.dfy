// Sign rules for products and quotients of reals.
module Reals {

  lemma Product(a: real, b: real)
    ensures a * b > 0.0 <==> (a > 0.0 && b > 0.0) || (a < 0.0 && b < 0.0)
    ensures a * b < 0.0 <==> (a > 0.0 && b < 0.0) || (a < 0.0 && b > 0.0)
    ensures a * b == 0.0 <==> a == 0.0 || b == 0.0
  {}

  // n / d lies in the unit interval when n lies between 0 and d.
  lemma UnitQuotient(n: real, d: real)
    requires d != 0.0 && (if d > 0.0 then 0.0 <= n <= d else d <= n <= 0.0)
    ensures 0.0 <= n / d <= 1.0 && (n / d) * d == n
  {
    var u := n / d;
    assert u * d == n;
    Product(u, d);
    Product(u - 1.0, d);
  }

  // The value a share t of the way from a to b.
  function Lerp(a: real, b: real, t: real): real {
    a + t * (b - a)
  }

  // A convex combination stays between its ends.
  lemma Between(a: real, b: real, lo: real, hi: real, t: real)
    requires lo <= a <= hi && lo <= b <= hi && 0.0 <= t <= 1.0
    ensures lo <= Lerp(a, b, t) <= hi
  {
    var s := 1.0 - t;
    assert Lerp(a, b, t) == s * a + t * b;
    NonNegative(s, a - lo);
    NonNegative(t, b - lo);
    NonNegative(s, hi - a);
    NonNegative(t, hi - b);
    assert s * (a - lo) + t * (b - lo) == s * a + t * b - lo;
    assert s * (hi - a) + t * (hi - b) == hi - s * a - t * b;
  }

  lemma NonNegative(a: real, b: real)
    requires a >= 0.0 && b >= 0.0
    ensures a * b >= 0.0
  {}

  lemma LerpEnds(a: real, b: real, t: real)
    ensures Lerp(a, b, 0.0) == a && Lerp(a, b, 1.0) == b && Lerp(a, a, t) == a
  {}

  // A share of a share.
  lemma LerpLerp(a: real, b: real, c: real, d: real, t: real)
    ensures Lerp(Lerp(a, b, c), Lerp(a, b, d), t) == Lerp(a, b, Lerp(c, d, t))
  {
    var e := b - a;
    assert Lerp(a, b, d) - Lerp(a, b, c) == (d - c) * e;
    assert t * ((d - c) * e) == (t * (d - c)) * e;
    assert Lerp(c, d, t) * e == c * e + (t * (d - c)) * e;
  }

  // The share at which v is reached.
  function Ratio(a: real, b: real, v: real): real {
    if b != a then (v - a) / (b - a) else 0.0
  }

  lemma RatioReaches(a: real, b: real, v: real)
    requires a != b
    ensures Lerp(a, b, Ratio(a, b, v)) == v
  {
    var u := (v - a) / (b - a);
    assert u * (b - a) == v - a;
  }

  lemma RatioUnit(a: real, b: real, v: real)
    requires a <= v < b || b < v <= a || a < v <= b || b <= v < a
    ensures 0.0 <= Ratio(a, b, v) <= 1.0
  {
    UnitQuotient(v - a, b - a);
  }

  lemma LerpInjective(a: real, b: real, t: real, u: real)
    requires a != b && Lerp(a, b, t) == Lerp(a, b, u)
    ensures t == u
  {
    assert (t - u) * (b - a) == 0.0;
    Product(t - u, b - a);
  }

  lemma LerpFlip(a: real, b: real, t: real)
    ensures Lerp(b, a, t) == Lerp(a, b, 1.0 - t)
  {
    assert (1.0 - t) * (b - a) == b - a - t * (b - a);
    assert t * (a - b) == -(t * (b - a));
  }
}
