/** Integer and real helpers: Python's `math.floor`, `math.ceil`, `abs`,
    `max` and `min` over the exact reals that stand for the source's floats. */
module Numeric {

  /** A point or direction in 3-space; the source's `mathutils.Vector` of three floats. */
  datatype Vec3 = Vec3(x: real, y: real, z: real)

  /** Component `c` (0, 1 or 2) of a vector. */
  function Axis(v: Vec3, c: nat): real
    requires c < 3
  {
    if c == 0 then v.x else if c == 1 then v.y else v.z
  }

  function Floor(x: real): (r: int)
    ensures r as real <= x < r as real + 1.0
  {
    x.Floor
  }

  function Ceil(x: real): (r: int)
    ensures x <= r as real < x + 1.0
  {
    -((-x).Floor)
  }

  function Abs(x: real): (r: real)
    ensures r >= 0.0
    ensures r == x || r == -x
  {
    if x < 0.0 then -x else x
  }

  function MaxReal(a: real, b: real): (r: real)
    ensures r >= a && r >= b
    ensures r == a || r == b
  {
    if a >= b then a else b
  }

  function MinInt(a: int, b: int): (r: int)
    ensures r <= a && r <= b
    ensures r == a || r == b
  {
    if a <= b then a else b
  }

  function MaxInt(a: int, b: int): (r: int)
    ensures r >= a && r >= b
    ensures r == a || r == b
  {
    if a >= b then a else b
  }

  /** Euclidean division has one quotient and remainder: a remainder in `0..d-1` that makes the
      sum come out is `a % d`. */
  lemma ModUnique(a: int, d: int, q: int, r: int)
    requires d >= 1 && 0 <= r < d && a == q * d + r
    ensures a % d == r
  {
    var q', r' := a / d, a % d;
    assert a == q' * d + r';
    if q' > q {
      MulAtLeast(q' - q, d);
    } else if q' < q {
      MulAtLeast(q - q', d);
    }
  }

  lemma MulAtLeast(k: int, d: int)
    requires d >= 1 && k >= 1
    ensures k * d >= d
  {
  }

  /** Adding the divisor leaves the remainder alone. */
  lemma ModShift(a: int, d: int)
    requires d >= 1
    ensures (a + d) % d == a % d
  {
    var q := a / d;
    assert a == q * d + a % d;
    assert a + d == (q + 1) * d + a % d;
    ModUnique(a + d, d, q + 1, a % d);
  }

  /** A power of two, 2^k for some k >= 0. */
  predicate IsPow2(n: int)
    decreases if n < 1 then 0 else n
  {
    n == 1 || (n >= 2 && n % 2 == 0 && IsPow2(n / 2))
  }

  /** The ceiling of an integer quotient equals the ceiling of the exact real quotient. */
  lemma CeilOfQuotient(a: nat, b: int)
    requires b > 0
    ensures Ceil(a as real / b as real) == (a + b - 1) / b
  {
    var q := (a + b - 1) / b;
    var x := a as real / b as real;
    assert a + b - 1 - b < q * b <= a + b - 1;
    assert x * b as real == a as real;
    assert q as real * b as real == (q * b) as real;
    assert (x + 1.0) * b as real == (a + b) as real;
    MulCancel(x, q as real, b as real);
    MulCancel(q as real, x + 1.0, b as real);
    assert x <= q as real < x + 1.0;
  }

  /** Multiplying by a positive real preserves strict order, in both directions. */
  lemma MulCancel(p: real, q: real, c: real)
    requires c > 0.0
    ensures p * c < q * c <==> p < q
    ensures p * c <= q * c <==> p <= q
  {
    if p < q {
      MulNonNegative(q - p, c);
      assert (q - p) * c == q * c - p * c;
    }
    if q <= p {
      MulNonNegative(p - q, c);
      assert (p - q) * c == p * c - q * c;
    }
  }

  lemma MulNonNegative(p: real, q: real)
    requires p >= 0.0 && q >= 0.0
    ensures p * q >= 0.0
  {
  }

  lemma DivModShift(j: nat, q: nat, w: int)
    requires w > 0
    ensures (q * w + j) / w == q + j / w && (q * w + j) % w == j % w
  {
    var a := j / w;
    var b := j % w;
    assert j == a * w + b;
    assert q * w + j == (q + a) * w + b;
    DivModUnique(q * w + j, w, q + a, b);
  }

  /** Euclidean division is the only way to write `n` as `d * w + r` with `0 <= r < w`. */
  lemma DivModUnique(n: int, w: int, d: int, r: int)
    requires w > 0 && 0 <= r < w && n == d * w + r
    ensures n / w == d && n % w == r
  {
    var d' := n / w;
    var r' := n % w;
    assert n == d' * w + r';
    assert (d - d') * w == r' - r;
    if d > d' {
      MulLeft(1, d - d', w);
    } else if d < d' {
      MulLeft(1, d' - d, w);
    }
  }

  lemma MulLeft(a: int, b: int, c: int)
    requires a <= b && c >= 0
    ensures a * c <= b * c
  {
  }
}
