/** The two packers of the static-data baker. Each squeezes several floats, already
    normalised to the unit interval, into the single float a UV channel can hold: the AB
    packer as two 12-bit lanes of one integer, the XYZ packer as three decimal lanes. */
module StaticPacking {
  import opened Numeric

  /** Which component of a vector a packed lane takes. */
  datatype Component = X | Y | Z

  /** The source picks `x` for "X", `y` for "Y" and `z` for anything else. */
  function Pick(v: Vec3, c: Component): real {
    match c
    case X => v.x
    case Y => v.y
    case Z => v.z
  }

  // ---------------------------------------------------------------------------
  // AB packing: two 12-bit lanes
  // ---------------------------------------------------------------------------

  /** Number of values one lane can take: 4096, so a lane's quantised value is in [0, 4095]. */
  const LaneSize: int := 4096

  /** A unit-interval value scaled to the 4095 steps of a lane and rounded down. */
  function Quantise(x: real): int {
    Floor(x * 4095.0)
  }

  /** A unit-interval value lands in [0, 4095] and is at most one step above its lane value. */
  lemma QuantiseBounds(x: real)
    requires 0.0 <= x <= 1.0
    ensures 0 <= Quantise(x) < LaneSize
    ensures Quantise(x) as real / 4095.0 <= x < (Quantise(x) + 1) as real / 4095.0
  {
    var q := Quantise(x);
    assert q as real <= x * 4095.0 < q as real + 1.0;
    assert x * 4095.0 <= 4095.0;
  }

  /** The packed value: component `a` in the high lane, component `b` in the low lane.
      Unpacking gives back both quantised components exactly; only the low lane has to be a
      unit-interval value for that, since it must not spill into the high lane. Two
      unit-interval components pack into [0, 2^24): an integer a 32-bit float holds exactly. */
  function PackAB(v: Vec3, a: Component, b: Component): (r: int)
    ensures 0.0 <= Pick(v, b) <= 1.0 ==> UnpackAB(r) == (Quantise(Pick(v, a)), Quantise(Pick(v, b)))
    ensures 0.0 <= Pick(v, a) <= 1.0 && 0.0 <= Pick(v, b) <= 1.0 ==> 0 <= r < LaneSize * LaneSize == 16777216
  {
    var hi := Quantise(Pick(v, a));
    var lo := Quantise(Pick(v, b));
    assert 0.0 <= Pick(v, b) <= 1.0 ==> UnpackAB(hi * LaneSize + lo) == (hi, lo) by {
      if 0.0 <= Pick(v, b) <= 1.0 {
        QuantiseBounds(Pick(v, b));
        DivModUnique(hi * LaneSize + lo, LaneSize, hi, lo);
      }
    }
    assert 0.0 <= Pick(v, a) <= 1.0 && 0.0 <= Pick(v, b) <= 1.0 ==> 0 <= hi * LaneSize + lo < LaneSize * LaneSize by {
      if 0.0 <= Pick(v, a) <= 1.0 && 0.0 <= Pick(v, b) <= 1.0 {
        QuantiseBounds(Pick(v, a));
        QuantiseBounds(Pick(v, b));
        LanesFit(hi, lo);
      }
    }
    hi * LaneSize + lo
  }

  lemma LanesFit(hi: int, lo: int)
    requires 0 <= hi < LaneSize && 0 <= lo < LaneSize
    ensures 0 <= hi * LaneSize + lo < LaneSize * LaneSize
  {
    MulLeft(hi, LaneSize - 1, LaneSize);
  }

  /** What a consumer of the packed value does: integer division and remainder by the lane size. */
  function UnpackAB(packed: int): (int, int) {
    (packed / LaneSize, packed % LaneSize)
  }

  /** Decoding each lane back to the unit interval loses less than one step of 1/4095. */
  lemma ABPrecision(v: Vec3, a: Component, b: Component)
    requires 0.0 <= Pick(v, a) <= 1.0 && 0.0 <= Pick(v, b) <= 1.0
    ensures var (hi, lo) := UnpackAB(PackAB(v, a, b));
      && hi as real / 4095.0 <= Pick(v, a) < hi as real / 4095.0 + 1.0 / 4095.0
      && lo as real / 4095.0 <= Pick(v, b) < lo as real / 4095.0 + 1.0 / 4095.0
  {
    QuantiseBounds(Pick(v, a));
    QuantiseBounds(Pick(v, b));
  }

  // ---------------------------------------------------------------------------
  // XYZ packing: three decimal lanes
  // ---------------------------------------------------------------------------

  /** Each component is scaled to hundredths and rounded up; the lanes are then weighted by
      10, 0.1 and 0.001. For a unit vector in the positive octant the packed value lies in
      [0, 1010.1]. */
  function PackXYZ(v: Vec3): (r: real)
    ensures 0.0 <= v.x <= 1.0 && 0.0 <= v.y <= 1.0 && 0.0 <= v.z <= 1.0 ==> 0.0 <= r <= 1010.1
  {
    assert 0.0 <= v.x <= 1.0 && 0.0 <= v.y <= 1.0 && 0.0 <= v.z <= 1.0
      ==> 0 <= Ceil(v.x * 100.0) <= 100 && 0 <= Ceil(v.y * 100.0) <= 100 && 0 <= Ceil(v.z * 100.0) <= 100 by {
      if 0.0 <= v.x <= 1.0 && 0.0 <= v.y <= 1.0 && 0.0 <= v.z <= 1.0 {
        Hundredths(v.x);
        Hundredths(v.y);
        Hundredths(v.z);
      }
    }
    Ceil(v.x * 100.0) as real * 10.0 + Ceil(v.y * 100.0) as real * 0.1
      + Ceil(v.z * 100.0) as real * 0.001
  }

  /** A unit-interval value rounds up to between 0 and 100 hundredths. */
  lemma Hundredths(x: real)
    requires 0.0 <= x <= 1.0
    ensures 0 <= Ceil(x * 100.0) <= 100
  {
    CeilMonotone(0.0, x * 100.0);
    CeilMonotone(x * 100.0, 100.0);
    assert Ceil(0.0) == 0;
    assert Ceil(100.0) == 100;
  }

  /** Rounding up to hundredths never goes down as its argument grows. */
  lemma CeilMonotone(a: real, b: real)
    requires a <= b
    ensures Ceil(a) <= Ceil(b)
  {
  }

  /** The packed value is monotone in every component. */
  lemma PackXYZMonotone(v: Vec3, w: Vec3)
    requires v.x <= w.x && v.y <= w.y && v.z <= w.z
    ensures PackXYZ(v) <= PackXYZ(w)
  {
    CeilMonotone(v.x * 100.0, w.x * 100.0);
    CeilMonotone(v.y * 100.0, w.y * 100.0);
    CeilMonotone(v.z * 100.0, w.z * 100.0);
  }

  /** The lanes overlap, so no unpacking can exist: a hundredth in x packs like a whole y,
      and a hundredth in y packs like a whole z. */
  lemma PackXYZCollides()
    ensures PackXYZ(Vec3(0.01, 0.0, 0.0)) == PackXYZ(Vec3(0.0, 1.0, 0.0)) == 10.0
    ensures PackXYZ(Vec3(0.0, 0.01, 0.0)) == PackXYZ(Vec3(0.0, 0.0, 1.0)) == 0.1
  {
    assert Ceil(0.0) == 0;
    assert Ceil(1.0) == 1;
    assert Ceil(100.0) == 100;
  }
}
