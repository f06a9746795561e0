/** Texture layout planning for a vertex animation bake: the image width, the number of pixel
    rows one frame occupies, the image height, and how a shader has to sample the result. */
module TextureLayout {
  import opened Wrappers
  import opened Numeric

  /** What happens to the pixels left over at the end of a frame's last row. */
  datatype PackingMode = Continuous | Skip

  /** How frames are laid out in the image, as reported to the shader. */
  datatype Sampling = StackSingle | ContinuousSampling | StackMult

  datatype LayoutSettings = LayoutSettings(
    maxWidth: int,
    maxHeight: int,
    powerOfTwo: bool,
    square: bool,
    packing: PackingMode)

  /** Both limits are integer properties bounded to 2..8192. */
  predicate ValidLayoutSettings(s: LayoutSettings) {
    2 <= s.maxWidth <= 8192 && 2 <= s.maxHeight <= 8192
  }

  /** A planned image. In skip mode `frameHeight` is a whole number of rows; in continuous mode it
      is the exact fraction of a row. `frameWidth` is the vertex count over the unsquared width. */
  datatype Layout = Layout(width: int, height: int, frameHeight: real, frameWidth: real, sampling: Sampling)

  datatype LayoutError =
    | DivisionByZero      // non-power-of-two width with no vertices: `num_vertices / 0.0`
    | HeightUnassigned    // the width check's failure result reads a height not yet computed
    | HeightTooLarge(height: int)

  // ---------------------------------------------------------------------------
  // Power-of-two search
  // ---------------------------------------------------------------------------

  /** Doubles `p` until it reaches `bound`. */
  function Grow(p: int, bound: real): (r: int)
    requires p >= 2 && IsPow2(p)
    ensures r >= p && IsPow2(r) && r as real >= bound
    ensures r == p || (r / 2) as real < bound
    decreases if p as real < bound then Ceil(bound) - p else 0
  {
    if p as real < bound then
      var r := Grow(2 * p, bound);
      assert (2 * p) / 2 == p;
      r
    else p
  }

  /** The smallest power of two that is at least 2 and at least `bound`: the result of the
      source's `x = 2; while x < bound: x *= 2`. */
  function PowerOfTwoAtLeast(bound: real): (r: int)
    ensures r >= 2 && IsPow2(r) && r as real >= bound
    ensures r == 2 || (r / 2) as real < bound
  {
    Grow(2, bound)
  }

  /** No power of two from 2 up that reaches `bound` is smaller than `PowerOfTwoAtLeast`. */
  lemma PowerOfTwoAtLeastIsLeast(bound: real, p: int)
    requires p >= 2 && IsPow2(p) && p as real >= bound
    ensures PowerOfTwoAtLeast(bound) <= p
  {
    var r := PowerOfTwoAtLeast(bound);
    if r > p {
      Pow2Gap(r, p);
    }
  }

  /** Of two distinct powers of two the larger is at least twice the smaller. */
  lemma {:induction false} Pow2Gap(a: int, b: int)
    requires IsPow2(a) && IsPow2(b) && a > b
    ensures a >= 2 * b
    decreases a
  {
    if b >= 2 {
      Pow2Gap(a / 2, b / 2);
    }
  }

  /** `PowerOfTwoAtLeast(bound)` is below every power of two from 2 up that reaches `bound`. */
  lemma PowerOfTwoAtLeastIsLeastAll(bound: real)
    ensures forall p :: p >= 2 && IsPow2(p) && p as real >= bound ==> PowerOfTwoAtLeast(bound) <= p
  {
    forall p | p >= 2 && IsPow2(p) && p as real >= bound
      ensures PowerOfTwoAtLeast(bound) <= p
    {
      PowerOfTwoAtLeastIsLeast(bound, p);
    }
  }

  /** The doubling loop as the source writes it. */
  method PowerOfTwoLoop(bound: real) returns (p: int)
    ensures p == PowerOfTwoAtLeast(bound)
  {
    p := 2;
    while p as real < bound
      invariant p >= 2 && IsPow2(p)
      invariant Grow(p, bound) == PowerOfTwoAtLeast(bound)
      decreases Ceil(bound) - p
    {
      assert (2 * p) / 2 == p;
      p := 2 * p;
    }
  }

  // ---------------------------------------------------------------------------
  // Layout
  // ---------------------------------------------------------------------------

  /** The first width tried: a power of two reaching `min(num_vertices, max_width)`, or that
      minimum itself when power of two is off. */
  function InitialWidth(s: LayoutSettings, nv: nat): (w: int)
    requires ValidLayoutSettings(s)
    ensures w >= 0
    ensures !s.powerOfTwo ==> w == MinInt(nv, s.maxWidth)
    ensures s.powerOfTwo ==> w >= 2 && IsPow2(w) && (w >= nv || w >= s.maxWidth)
    ensures s.powerOfTwo ==> forall p :: p >= 2 && IsPow2(p) && (p >= nv || p >= s.maxWidth) ==> w <= p
  {
    PowerOfTwoAtLeastIsLeastAll(MinInt(nv, s.maxWidth) as real);
    if s.powerOfTwo then PowerOfTwoAtLeast(MinInt(nv, s.maxWidth) as real)
    else MinInt(nv, s.maxWidth)
  }

  /** Rows per frame for a width: rounded up to whole rows in skip mode, exact otherwise. */
  function FrameHeight(packing: PackingMode, nv: nat, w: int): (fh: real)
    requires w > 0
    ensures fh >= nv as real / w as real >= 0.0
    ensures packing == Continuous ==> fh == nv as real / w as real
    ensures packing == Skip ==> fh == ((nv + w - 1) / w) as real
  {
    CeilOfQuotient(nv, w);
    if packing == Skip then Ceil(nv as real / w as real) as real else nv as real / w as real
  }

  /** Rows the frames need at a given frame height. */
  function RowsNeeded(nf: nat, fh: real): real {
    nf as real * fh
  }

  /** The image height before squaring. */
  function TextureHeight(s: LayoutSettings, nf: nat, nv: nat, w: int): (h: int)
    requires w > 0
    ensures h as real >= RowsNeeded(nf, FrameHeight(s.packing, nv, w))
    ensures s.powerOfTwo ==> h >= 2 && IsPow2(h)
    ensures s.powerOfTwo ==> forall p :: p >= 2 && IsPow2(p) && p as real >= RowsNeeded(nf, FrameHeight(s.packing, nv, w)) ==> h <= p
    ensures !s.powerOfTwo ==> h == Ceil(RowsNeeded(nf, FrameHeight(s.packing, nv, w)))
  {
    var fh := FrameHeight(s.packing, nv, w);
    PowerOfTwoAtLeastIsLeastAll(RowsNeeded(nf, fh));
    if s.powerOfTwo then PowerOfTwoAtLeast(RowsNeeded(nf, fh))
    else if s.packing == Skip then
      SkipRowsWhole(nf, nv, w);
      nf * ((nv + w - 1) / w)
    else Ceil(RowsNeeded(nf, fh))
  }

  /** In skip mode the rows needed are a whole number, so rounding up changes nothing. */
  lemma SkipRowsWhole(nf: nat, nv: nat, w: int)
    requires w > 0
    ensures Ceil(RowsNeeded(nf, FrameHeight(Skip, nv, w))) == nf * ((nv + w - 1) / w)
  {
    var k := nf * ((nv + w - 1) / w);
    assert RowsNeeded(nf, FrameHeight(Skip, nv, w)) == k as real;
  }

  function SamplingFor(packing: PackingMode, nv: nat, width: int): (m: Sampling)
    ensures m == StackSingle <==> nv == width
    ensures m == ContinuousSampling <==> nv != width && packing == Continuous
    ensures m == StackMult <==> nv != width && packing.Skip?
  {
    if nv == width then StackSingle
    else if packing == Continuous then ContinuousSampling
    else StackMult
  }

  /** The source's resolution search. When the frames do not fit under the maximum height at the
      first width, the width falls back to the maximum while the frame height computed for the
      first width is kept. A width above the maximum fails, as does a height above the maximum;
      with power of two and square both on, the smaller side is then raised to the larger. */
  function BestTextureResolution(s: LayoutSettings, nf: nat, nv: nat): (r: Result<Layout, LayoutError>)
    requires ValidLayoutSettings(s)
    ensures r.Failure? && r.error == DivisionByZero <==> !s.powerOfTwo && nv == 0
    ensures r.Success? <==>
      (InitialWidth(s, nv) > 0 && InitialWidth(s, nv) <= s.maxWidth
       && TextureHeight(s, nf, nv, InitialWidth(s, nv)) <= s.maxHeight)
    ensures r.Failure? && r.error == HeightUnassigned <==>
      (InitialWidth(s, nv) > s.maxWidth
       && RowsNeeded(nf, FrameHeight(s.packing, nv, InitialWidth(s, nv))) <= s.maxHeight as real)
    ensures r.Success? ==> r.value.height <= s.maxHeight || (s.powerOfTwo && s.square)
    ensures r.Success? ==> r.value.width <= s.maxWidth || (s.powerOfTwo && s.square)
    ensures r.Success? ==> r.value.width > 0 && r.value.height >= 0
    ensures r.Success? ==> r.value.sampling == SamplingFor(s.packing, nv, r.value.width)
    ensures r.Success? && s.powerOfTwo ==> IsPow2(r.value.width) && IsPow2(r.value.height)
    ensures r.Success? && s.powerOfTwo && s.square ==> r.value.width == r.value.height
  {
    var w0 := InitialWidth(s, nv);
    if w0 == 0 then Failure(DivisionByZero)
    else
      var fh := FrameHeight(s.packing, nv, w0);
      var w := if RowsNeeded(nf, fh) > s.maxHeight as real then s.maxWidth else w0;
      if w > s.maxWidth then Failure(HeightUnassigned)
      else
        var h := TextureHeight(s, nf, nv, w0);
        if h > s.maxHeight then Failure(HeightTooLarge(h))
        else
          var side := MaxInt(w, h);
          var (w', h') := if s.powerOfTwo && s.square then (side, side) else (w, h);
          Success(Layout(w', h', fh, nv as real / w as real, SamplingFor(s.packing, nv, w')))
  }

  /** Falling back to the maximum width never rescues a layout: the frame height is not
      recomputed, so the rows needed still exceed the maximum height. */
  lemma FallbackNeverSucceeds(s: LayoutSettings, nf: nat, nv: nat)
    requires ValidLayoutSettings(s)
    requires InitialWidth(s, nv) > 0
    requires RowsNeeded(nf, FrameHeight(s.packing, nv, InitialWidth(s, nv))) > s.maxHeight as real
    ensures BestTextureResolution(s, nf, nv).Failure?
  {
    var w0 := InitialWidth(s, nv);
    var h := TextureHeight(s, nf, nv, w0);
    assert h as real > s.maxHeight as real;
  }

  /** A successful layout uses its first width and its computed height, up to squaring. */
  lemma SuccessfulLayoutShape(s: LayoutSettings, nf: nat, nv: nat)
    requires ValidLayoutSettings(s)
    requires BestTextureResolution(s, nf, nv).Success?
    ensures var w0 := InitialWidth(s, nv); var r := BestTextureResolution(s, nf, nv).value;
      && w0 > 0
      && w0 <= s.maxWidth
      && r.width >= w0
      && r.height >= TextureHeight(s, nf, nv, w0)
      && r.frameHeight == FrameHeight(s.packing, nv, w0)
      && (!(s.powerOfTwo && s.square) ==> r.width == w0 && r.height == TextureHeight(s, nf, nv, w0))
  {
    var w0 := InitialWidth(s, nv);
    if RowsNeeded(nf, FrameHeight(s.packing, nv, w0)) > s.maxHeight as real {
      FallbackNeverSucceeds(s, nf, nv);
    }
  }

  /** Without power of two, a successful width is `min(num_vertices, max_width)`. */
  lemma PlainWidth(s: LayoutSettings, nf: nat, nv: nat)
    requires ValidLayoutSettings(s) && !s.powerOfTwo
    requires BestTextureResolution(s, nf, nv).Success?
    ensures BestTextureResolution(s, nf, nv).value.width == MinInt(nv, s.maxWidth)
  {
    SuccessfulLayoutShape(s, nf, nv);
  }

  /** With power of two, an unsquared successful width is the least power of two from 2 that
      reaches the vertex count or the maximum width. */
  lemma PowerOfTwoWidth(s: LayoutSettings, nf: nat, nv: nat, p: int)
    requires ValidLayoutSettings(s) && s.powerOfTwo && !s.square
    requires BestTextureResolution(s, nf, nv).Success?
    requires p >= 2 && IsPow2(p) && (p >= nv || p >= s.maxWidth)
    ensures var w := BestTextureResolution(s, nf, nv).value.width;
      IsPow2(w) && (w >= nv || w >= s.maxWidth) && w <= p
  {
    SuccessfulLayoutShape(s, nf, nv);
    PowerOfTwoAtLeastIsLeast(MinInt(nv, s.maxWidth) as real, p);
  }

  /** Every successful layout has room for every vertex of every frame. */
  lemma LayoutCapacity(s: LayoutSettings, nf: nat, nv: nat)
    requires ValidLayoutSettings(s)
    requires BestTextureResolution(s, nf, nv).Success?
    ensures var r := BestTextureResolution(s, nf, nv).value;
      r.width * r.height >= nv * nf
  {
    SuccessfulLayoutShape(s, nf, nv);
    var w0 := InitialWidth(s, nv);
    var r := BestTextureResolution(s, nf, nv).value;
    HeightCapacity(s, nf, nv, w0);
    MulMonotone(w0, TextureHeight(s, nf, nv, w0), r.width, r.height);
  }

  /** The computed height at a width holds every frame's vertices. */
  lemma HeightCapacity(s: LayoutSettings, nf: nat, nv: nat, w: int)
    requires w > 0
    ensures w * TextureHeight(s, nf, nv, w) >= nv * nf
  {
    CapacityFromRows(w, TextureHeight(s, nf, nv, w), nv, nf, FrameHeight(s.packing, nv, w));
  }

  /** `h >= nf * fh` rows with `fh >= nv / w` hold `nv * nf` pixels in a row of `w`. */
  lemma CapacityFromRows(w: int, h: int, nv: nat, nf: nat, fh: real)
    requires w > 0
    requires fh >= nv as real / w as real
    requires h as real >= nf as real * fh
    ensures w * h >= nv * nf
  {
    var q := nv as real / w as real;
    assert q * w as real == nv as real;
    MulCancel(q, fh, nf as real + 1.0);
    assert nf as real * fh >= nf as real * q by {
      if nf > 0 {
        MulCancel(q, fh, nf as real);
        assert q * nf as real <= fh * nf as real;
      }
    }
    assert h as real >= nf as real * q;
    MulCancel(nf as real * q, h as real, w as real);
    assert (nf as real * q) * w as real == nf as real * nv as real;
    assert (h as real) * (w as real) == (w * h) as real;
    assert nf as real * nv as real == (nv * nf) as real;
  }

  lemma MulMonotone(a: int, b: int, c: int, d: int)
    requires 0 <= a <= c && 0 <= b <= d
    ensures a * b <= c * d
  {
    assert a * b <= c * b;
    assert c * b <= c * d;
  }

  /** With power of two, a maximum width that is not a power of two and more vertices than it
      always fail: the first width overshoots the maximum, and the fallback never succeeds. */
  lemma OvershootingWidthFails(s: LayoutSettings, nf: nat, nv: nat)
    requires ValidLayoutSettings(s) && s.powerOfTwo
    requires !IsPow2(s.maxWidth) && nv > s.maxWidth
    ensures BestTextureResolution(s, nf, nv).Failure?
  {
    var w0 := InitialWidth(s, nv);
    assert w0 != s.maxWidth;
    if BestTextureResolution(s, nf, nv).Success? {
      SuccessfulLayoutShape(s, nf, nv);
    }
  }

  /** Squaring can push a successful width past the maximum width: two vertices, eight frames,
      both limits small. */
  lemma SquareExceedsMaxWidth()
    ensures var s := LayoutSettings(2, 8, true, true, Skip);
      BestTextureResolution(s, 8, 2) == Success(Layout(8, 8, 1.0, 1.0, StackMult))
  {
    var s := LayoutSettings(2, 8, true, true, Skip);
    assert InitialWidth(s, 2) == 2 by {
      assert IsPow2(2);
      assert Grow(2, 2.0) == 2;
    }
    assert FrameHeight(Skip, 2, 2) == 1.0;
    assert PowerOfTwoAtLeast(8.0) == 8 by {
      assert Grow(8, 8.0) == 8;
      assert Grow(4, 8.0) == 8;
      assert Grow(2, 8.0) == 8;
    }
  }
}
