/** Binary64 numbers and their addition. Every finite one is a multiple of 2^-1074, and is here that
    multiple, so adding two of them is adding integers and rounding the sum to 53 significant bits. */
module Floats {

  const PRECISION := 0x20_0000_0000_0000

  function Pow2(k: nat): (p: nat)
    ensures p >= 1
  {
    if k == 0 then 1 else 2 * Pow2(k - 1)
  }

  /** The distance of neighbouring numbers around `n`. */
  function Ulp(n: nat): (u: nat)
    ensures u >= 1
  {
    if n < PRECISION then 1 else 2 * Ulp(n / 2)
  }

  predicate Representable(n: nat) {
    n % Ulp(n) == 0
  }

  /** The nearest multiple of `u`, the even one of two. */
  function Nearest(n: nat, u: nat): nat
    requires u >= 1
  {
    var q, r := n / u, n % u;
    if 2 * r > u || (2 * r == u && q % 2 == 1) then (q + 1) * u else q * u
  }

  /** Round half to even, as IEEE 754 section 4.3.1 has it. */
  function Rounded(n: nat): nat {
    Nearest(n, Ulp(n))
  }

  /** A finite number that is not negative. */
  type Float = n: nat | Representable(n) witness 0

  /* ---------- powers of two ---------- */

  predicate IsPow2(u: nat) {
    u == 1 || (u >= 2 && u % 2 == 0 && IsPow2(u / 2))
  }

  lemma {:induction false} Pow2IsPow2(k: nat)
    ensures IsPow2(Pow2(k))
  {
    if k > 0 { Pow2IsPow2(k - 1); }
  }

  lemma {:induction false} UlpIsPow2(n: nat)
    ensures IsPow2(Ulp(n))
  {
    if n >= PRECISION { UlpIsPow2(n / 2); }
  }

  /** Of two powers of two the larger is a multiple of the smaller. */
  lemma {:induction false} Pow2Divides(u: nat, v: nat) returns (m: nat)
    requires IsPow2(u) && IsPow2(v) && u <= v
    ensures m >= 1 && v == m * u && (u < v ==> m >= 2)
  {
    if u == 1 {
      m := v;
    } else {
      m := Pow2Divides(u / 2, v / 2);
      assert v == 2 * (m * (u / 2)) == m * u;
    }
  }

  /* ---------- the size of a number and its spacing ---------- */

  /** From 2^53 on, a number is between 2^52 and 2^53 spacings. */
  lemma {:induction false} UlpBounds(n: nat)
    ensures n < PRECISION * Ulp(n)
    ensures n >= PRECISION ==> Ulp(n) >= 2 && PRECISION / 2 * Ulp(n) <= n
  {
    if n >= PRECISION {
      UlpBounds(n / 2);
    }
  }

  lemma {:induction false} UlpIsMonotone(n: nat, m: nat)
    requires n <= m
    ensures Ulp(n) <= Ulp(m)
  {
    if n >= PRECISION { UlpIsMonotone(n / 2, m / 2); }
  }

  /* ---------- rounding ---------- */

  lemma NearestOfMultiple(q: nat, u: nat)
    requires u >= 1
    ensures Nearest(q * u, u) == q * u
  {
    DivMod(q * u, u, q, 0);
  }

  lemma DivMod(n: nat, u: nat, q: nat, r: nat)
    requires n == q * u + r && r < u
    ensures n / u == q && n % u == r
  {
    var d := n / u - q;
    assert n == (n / u) * u + n % u;
    assert d * u == r - n % u;
    Apart(d, u);
  }

  lemma Apart(d: int, u: nat)
    ensures d >= 1 ==> d * u >= u
    ensures d <= -1 ==> d * u + u <= 0
  {
    if d >= 1 { Times(1, d, u); } else if d <= -1 { Times(d, -1, u); }
  }

  lemma Times(a: int, b: int, u: nat)
    requires a <= b
    ensures a * u <= b * u
  {}

  lemma RepresentableIsFixed(n: nat)
    requires Representable(n)
    ensures Rounded(n) == n
  {
    var u := Ulp(n);
    assert n == (n / u) * u;
    NearestOfMultiple(n / u, u);
  }

  /** The quotient before rounding and what rounding makes of it. */
  lemma NearestIs(n: nat, u: nat) returns (q: nat, up: nat)
    requires u >= 1
    ensures q * u <= n < q * u + u && up <= 1 && Nearest(n, u) == (q + up) * u
    ensures up == if 2 * (n - q * u) > u || (2 * (n - q * u) == u && q % 2 == 1) then 1 else 0
  {
    q := n / u;
    up := if 2 * (n % u) > u || (2 * (n % u) == u && q % 2 == 1) then 1 else 0;
    assert n == q * u + n % u;
  }

  lemma NearestIsMonotone(n: nat, m: nat, u: nat)
    requires n <= m && u >= 1
    ensures Nearest(n, u) <= Nearest(m, u)
  {
    var q, up := NearestIs(n, u);
    var q', up' := NearestIs(m, u);
    Apart(q - q', u);
    assert (q - q') * u == q * u - q' * u;
    Times(q + up, q' + up', u);
  }

  lemma {:induction false} RoundedIsMonotone(n: nat, m: nat)
    requires n <= m
    ensures Rounded(n) <= Rounded(m)
  {
    hide Ulp, Nearest;
    UlpIsMonotone(n, m);
    var u, v := Ulp(n), Ulp(m);
    if u == v {
      NearestIsMonotone(n, m, u);
    } else {
      RoundedBounds(n);
      RoundedBounds(m);
      UlpIsPow2(n);
      UlpIsPow2(m);
      var k := Pow2Divides(u, v);
      Times(2, k, u);
      UlpOfSmall(m);
    }
  }

  lemma UlpOfSmall(n: nat)
    ensures Ulp(n) > 1 ==> n >= PRECISION
  {}

  /** Rounding stays within the numbers that share the spacing. */
  lemma RoundedBounds(n: nat)
    ensures Rounded(n) <= PRECISION * Ulp(n)
    ensures n >= PRECISION ==> PRECISION / 2 * Ulp(n) <= Rounded(n)
  {
    UlpBounds(n);
    var u := Ulp(n);
    NearestIsMonotone(n, PRECISION * u, u);
    NearestOfMultiple(PRECISION, u);
    if n >= PRECISION {
      NearestIsMonotone(PRECISION / 2 * u, n, u);
      NearestOfMultiple(PRECISION / 2, u);
    }
  }

  /** At most 2^53 times a power of two is a number. */
  lemma MultipleIsRepresentable(q: nat, u: nat)
    requires IsPow2(u) && q <= PRECISION
    ensures Representable(q * u)
  {
    hide Ulp, IsPow2;
    if q == PRECISION {
      UlpOfTop(u);
      Regroup(PRECISION / 2, 2, u);
      DivMod(q * u, 2 * u, PRECISION / 2, 0);
    } else {
      var n := q * u;
      UlpIsPow2(n);
      UlpOfMultiple(q, u);
      var m := Pow2Divides(Ulp(n), u);
      Regroup(q, m, Ulp(n));
      DivMod(n, Ulp(n), q * m, 0);
    }
  }

  lemma Regroup(a: nat, b: nat, c: nat)
    ensures a * (b * c) == (a * b) * c
  {}

  lemma {:induction false} UlpOfTop(u: nat)
    requires IsPow2(u)
    ensures Ulp(PRECISION * u) == 2 * u
  {
    if u == 1 {
      assert Ulp(PRECISION / 2) == 1;
    } else {
      UlpOfTop(u / 2);
      assert PRECISION * u / 2 == PRECISION * (u / 2);
    }
  }

  lemma {:induction false} UlpOfMultiple(q: nat, u: nat)
    requires IsPow2(u) && q < PRECISION
    ensures Ulp(q * u) <= u
    ensures q >= PRECISION / 2 ==> Ulp(q * u) == u
  {
    if u > 1 {
      UlpOfMultiple(q, u / 2);
      assert q * u / 2 == q * (u / 2);
    }
  }

  lemma RoundedIsRepresentable(n: nat)
    ensures Representable(Rounded(n))
  {
    var u := Ulp(n);
    UlpIsPow2(n);
    RoundedBounds(n);
    var q, up := NearestIs(n, u);
    Apart(q + up - PRECISION, u);
    assert (q + up - PRECISION) * u == (q + up) * u - PRECISION * u;
    MultipleIsRepresentable(q + up, u);
  }

  /** No number is nearer than the rounded one. */
  lemma RoundedIsNearest(n: nat, m: Float)
    ensures if n <= Rounded(n) then m <= n - (Rounded(n) - n) || Rounded(n) <= m
            else m <= Rounded(n) || n + (n - Rounded(n)) <= m
  {
    hide Ulp;
    var u := Ulp(n);
    UlpBounds(n);
    var q, up := NearestIs(n, u);
    NoneBetween(n, q, m);
    assert (q + 1) * u == q * u + u;
  }

  /** Between neighbouring multiples of the spacing there is no number. */
  lemma NoneBetween(n: nat, q: nat, m: Float)
    requires q * Ulp(n) <= n < q * Ulp(n) + Ulp(n)
    ensures m <= q * Ulp(n) || q * Ulp(n) + Ulp(n) <= m
  {
    hide Ulp, IsPow2;
    var u := Ulp(n);
    if q * u < m < q * u + u {
      var x := MultipleOfUlp(n, q, m);
      assert (q + 1) * u == q * u + u;
      FewerTimes(q, x, u);
      FewerTimes(x, q + 1, u);
    }
  }

  lemma MultipleOfUlp(n: nat, q: nat, m: Float) returns (x: nat)
    requires q * Ulp(n) <= n < q * Ulp(n) + Ulp(n) && q * Ulp(n) < m
    ensures m == x * Ulp(n)
  {
    SpacingGrows(n, q, m);
    UlpIsPow2(n);
    UlpIsPow2(m);
    hide Ulp, IsPow2;
    var u, v := Ulp(n), Ulp(m);
    var k := Pow2Divides(u, v);
    var j := m / v;
    assert Representable(m);
    assert m == j * v + m % v;
    Regroup(j, k, u);
    x := j * k;
  }

  lemma SpacingGrows(n: nat, q: nat, m: Float)
    requires q * Ulp(n) <= n < q * Ulp(n) + Ulp(n) && q * Ulp(n) < m
    ensures Ulp(n) <= Ulp(m)
  {
    hide Ulp, IsPow2;
    var u := Ulp(n);
    UlpOfSmall(n);
    if u > 1 {
      UlpBounds(n);
      assert (q + 1) * u == q * u + u;
      FewerTimes(PRECISION / 2, q + 1, u);
      FewerTimes(q, PRECISION, u);
      UlpIsPow2(n);
      UlpOfMultiple(q, u);
      UlpIsMonotone(q * u, m);
    }
  }

  lemma FewerTimes(a: nat, b: nat, u: nat)
    requires a * u < b * u
    ensures a < b
  {
    Times(b, if b <= a then a else b, u);
  }

  /* ---------- addition ---------- */

  /** `a + b`, for sums that do not overflow. */
  function Plus(a: Float, b: Float): Float {
    RoundedIsRepresentable(a + b);
    Rounded(a + b)
  }

  /** Adding something never makes less, and more summands or larger ones never make less. */
  lemma PlusIsMonotone(a: Float, b: Float, a': Float, b': Float)
    requires a <= a' && b <= b'
    ensures Plus(a, b) <= Plus(a', b')
    ensures a <= Plus(a, b)
  {
    RoundedIsMonotone(a + b, a' + b');
    RepresentableIsFixed(a);
    RoundedIsMonotone(a, a + b);
  }

  lemma PlusZero(a: Float)
    ensures Plus(0, a) == a == Plus(a, 0)
  {
    RepresentableIsFixed(a);
  }

  lemma PlusCommutes(a: Float, b: Float)
    ensures Plus(a, b) == Plus(b, a)
  {}

  /** Multiples of one power of two add exactly as long as the sum stays within 2^53 of them. */
  lemma PlusIsExact(a: Float, b: Float, u: nat)
    requires IsPow2(u) && a % u == 0 && b % u == 0 && a + b <= PRECISION * u
    ensures Plus(a, b) == a + b
    ensures (a + b) % u == 0
  {
    hide Ulp;
    var q := SumOfMultiples(a, b, u);
    AtMost(q, PRECISION, u);
    MultipleIsRepresentable(q, u);
    RepresentableIsFixed(a + b);
  }

  lemma SumOfMultiples(a: nat, b: nat, u: nat) returns (q: nat)
    requires u >= 1 && a % u == 0 && b % u == 0
    ensures a + b == q * u && (a + b) % u == 0
  {
    q := a / u + b / u;
    assert a == (a / u) * u && b == (b / u) * u;
    assert q * u == (a / u) * u + (b / u) * u;
    DivMod(a + b, u, q, 0);
  }

  lemma AtMost(q: nat, most: nat, u: nat)
    requires u >= 1 && q * u <= most * u
    ensures q <= most
  {
    Apart(q - most, u);
    assert (q - most) * u == q * u - most * u;
  }

  /** Rounding, from the quotient by the spacing. */
  lemma RoundsAs(q: nat, r: nat, u: nat)
    requires IsPow2(u) && PRECISION / 2 <= q < PRECISION && r < u
    ensures Rounded(q * u + r) == (if 2 * r > u || (2 * r == u && q % 2 == 1) then q + 1 else q) * u
  {
    UlpOfFloor(q, r, u);
    DivMod(q * u + r, u, q, r);
  }

  lemma {:induction false} UlpOfFloor(q: nat, r: nat, u: nat)
    requires IsPow2(u) && PRECISION / 2 <= q < PRECISION && r < u
    ensures Ulp(q * u + r) == u
  {
    if u > 1 {
      UlpOfFloor(q, r / 2, u / 2);
      var n := q * u + r;
      assert q * u == 2 * (q * (u / 2));
      assert n / 2 == q * (u / 2) + r / 2;
      Times(PRECISION / 2, q, u);
    }
  }

  /* ---------- scale ---------- */

  /** The least positive number is 2^-1074. */
  const LEAST_EXPONENT: nat := 1074

  lemma ScaledIsRepresentable(m: nat, e: nat)
    requires m <= PRECISION
    ensures Representable(m * Pow2(e))
  {
    hide Pow2, IsPow2;
    Pow2IsPow2(e);
    MultipleIsRepresentable(m, Pow2(e));
  }

  /** `m * 2^(e - 1074)`: a decimal literal is read as the nearest of these. */
  function Scaled(m: nat, e: nat): Float
    requires m <= PRECISION
  {
    ScaledIsRepresentable(m, e);
    m * Pow2(e)
  }

  /** A whole number up to 2^53. */
  function Whole(k: nat): Float
    requires k <= PRECISION
  {
    Scaled(k, LEAST_EXPONENT)
  }

  /** Whole numbers compare and add as such. */
  lemma WholeOrder(a: nat, b: nat)
    requires a <= PRECISION && b <= PRECISION
    ensures Whole(a) <= Whole(b) <==> a <= b
    ensures Whole(0) == 0
  {
    hide Pow2;
    var one := Pow2(LEAST_EXPONENT);
    Apart(a - b, one);
    assert (a - b) * one == a * one - b * one;
  }

  lemma WholeAdds(a: nat, b: nat)
    requires a + b <= PRECISION
    ensures Plus(Whole(a), Whole(b)) == Whole(a + b)
  {
    hide Pow2, Representable;
    var one := Pow2(LEAST_EXPONENT);
    assert a * one + b * one == (a + b) * one;
    RepresentableIsFixed(Whole(a + b));
  }
}
