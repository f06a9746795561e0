/** Where each baked vertex lands: its global index across the baked objects, its texel-centre
    UV in the generated mesh, and its RGBA slot in the offset and normal buffers for every frame. */
module BufferAddressing {
  import opened Wrappers
  import opened Numeric
  import opened TextureLayout

  // ---------------------------------------------------------------------------
  // Global vertex indices
  // ---------------------------------------------------------------------------

  /** Vertices of the objects before object `k`, each object contributing its vertex count. */
  function VertsBefore(counts: seq<nat>, k: nat): nat
    requires k <= |counts|
  {
    if k == 0 then 0 else VertsBefore(counts, k - 1) + counts[k - 1]
  }

  function TotalVerts(counts: seq<nat>): nat {
    VertsBefore(counts, |counts|)
  }

  lemma {:induction false} VertsBeforeMonotone(counts: seq<nat>, a: nat, b: nat)
    requires a <= b <= |counts|
    ensures VertsBefore(counts, a) <= VertsBefore(counts, b)
    decreases b - a
  {
    if a < b {
      VertsBeforeMonotone(counts, a, b - 1);
    }
  }

  /** Vertex `i` of object `k` is numbered after every vertex of the objects before it. */
  function GlobalIndex(counts: seq<nat>, k: nat, i: nat): (j: nat)
    requires k < |counts| && i < counts[k]
    ensures VertsBefore(counts, k) <= j < VertsBefore(counts, k + 1)
    ensures j < TotalVerts(counts)
  {
    VertsBeforeMonotone(counts, k + 1, |counts|);
    VertsBefore(counts, k) + i
  }

  /** Different vertices get different global indices. */
  lemma GlobalIndexInjective(counts: seq<nat>, k1: nat, i1: nat, k2: nat, i2: nat)
    requires k1 < |counts| && i1 < counts[k1]
    requires k2 < |counts| && i2 < counts[k2]
    requires GlobalIndex(counts, k1, i1) == GlobalIndex(counts, k2, i2)
    ensures k1 == k2 && i1 == i2
  {
    if k1 < k2 {
      VertsBeforeMonotone(counts, k1 + 1, k2);
    } else if k2 < k1 {
      VertsBeforeMonotone(counts, k2 + 1, k1);
    }
  }

  /** Every global index below the total belongs to some vertex. */
  lemma {:induction false} GlobalIndexOnto(counts: seq<nat>, j: nat) returns (k: nat, i: nat)
    requires j < TotalVerts(counts)
    ensures k < |counts| && i < counts[k] && GlobalIndex(counts, k, i) == j
  {
    k := |counts| - 1;
    while j < VertsBefore(counts, k)
      invariant 0 <= k < |counts|
      invariant j < VertsBefore(counts, k + 1)
      decreases k
    {
      k := k - 1;
    }
    i := j - VertsBefore(counts, k);
  }

  /** The two running offsets of the source, kept while walking the objects: the vertex offset the
      UV pass adds to each object's vertex indices, and the buffer offset the bake loop adds to
      each object's slots. */
  method ObjectOffsets(counts: seq<nat>) returns (uvOffsets: seq<nat>, bufferOffsets: seq<nat>)
    ensures |uvOffsets| == |bufferOffsets| == |counts|
    ensures forall k :: 0 <= k < |counts| ==> uvOffsets[k] == VertsBefore(counts, k)
    ensures forall k :: 0 <= k < |counts| ==> bufferOffsets[k] == 4 * uvOffsets[k]
  {
    uvOffsets := [];
    bufferOffsets := [];
    var vertexOffset := 0;
    var bufferOffset := 0;
    var k := 0;
    while k < |counts|
      invariant k <= |counts|
      invariant |uvOffsets| == |bufferOffsets| == k
      invariant vertexOffset == VertsBefore(counts, k) && bufferOffset == 4 * vertexOffset
      invariant forall m :: 0 <= m < k ==> uvOffsets[m] == VertsBefore(counts, m)
      invariant forall m :: 0 <= m < k ==> bufferOffsets[m] == 4 * uvOffsets[m]
    {
      uvOffsets := uvOffsets + [vertexOffset];
      bufferOffsets := bufferOffsets + [bufferOffset];
      vertexOffset := vertexOffset + counts[k];
      bufferOffset := bufferOffset + counts[k] * 4;
      k := k + 1;
    }
  }

  // ---------------------------------------------------------------------------
  // Texel-centre UVs
  // ---------------------------------------------------------------------------

  datatype UV = UV(u: real, v: real)

  /** The UV the source writes for global index `j`: the centre of texel `(j % w, j // w)`,
      with `v` mirrored when V is inverted. The centre is strictly inside the texture
      horizontally, and vertically too when `j` is one of the `w * h` texels. */
  function TexelUV(j: nat, w: int, h: int, invertV: bool): (uv: UV)
    requires w > 0 && h > 0
    ensures 0.0 < uv.u < 1.0
    ensures j < w * h ==> 0.0 < uv.v < 1.0
  {
    var u := 0.5 / w as real + (j % w) as real / w as real;
    var v := 0.5 / h as real + (j / w) as real / h as real;
    CentreInside(j % w, w);
    assert j < w * h ==> 0.0 < v < 1.0 by {
      if j < w * h {
        RowInside(j, w, h);
        CentreInside(j / w, h);
      }
    }
    UV(u, if invertV then 1.0 - v else v)
  }

  /** The centre of cell `c` of `n` equal cells of [0, 1] lies strictly inside [0, 1]. */
  lemma CentreInside(c: int, n: int)
    requires 0 <= c < n
    ensures 0.0 < 0.5 / n as real + c as real / n as real < 1.0
  {
    var x := 0.5 / n as real + c as real / n as real;
    assert x * n as real == (0.5 / n as real) * n as real + (c as real / n as real) * n as real;
    assert x * n as real == c as real + 0.5;
    MulCancel(x, 1.0, n as real);
    MulCancel(0.0, x, n as real);
  }

  /** Texel `j` of a `w` by `h` image sits in one of its `h` rows. */
  lemma RowInside(j: nat, w: int, h: int)
    requires w > 0 && j < w * h
    ensures 0 <= j / w < h
  {
    if j / w >= h {
      MulLeft(h, j / w, w);
    }
  }

  /** The row-major texel index a shader reads at `uv`, undoing the V mirror. */
  function DecodeUV(uv: UV, w: int, h: int, invertV: bool): int {
    var v := if invertV then 1.0 - uv.v else uv.v;
    Floor(v * h as real) * w + Floor(uv.u * w as real)
  }

  /** Decoding a UV back to texel coordinates (undoing the V mirror) gives column `j % w` and row
      `j // w`. */
  lemma TexelUVDecodes(j: nat, w: int, h: int, invertV: bool)
    requires w > 0 && h > 0
    ensures var uv := TexelUV(j, w, h, invertV);
      var v := if invertV then 1.0 - uv.v else uv.v;
      && Floor(uv.u * w as real) == j % w
      && Floor(v * h as real) == j / w
  {
    var uv := TexelUV(j, w, h, invertV);
    var v := if invertV then 1.0 - uv.v else uv.v;
    CentreFloor(j % w, w);
    CentreFloor(j / w, h);
  }

  /** `(0.5/n + c/n) * n` is `c + 0.5`, whose floor is `c`. */
  lemma CentreFloor(c: int, n: int)
    requires n > 0
    ensures Floor((0.5 / n as real + c as real / n as real) * n as real) == c
  {
    var x := 0.5 / n as real + c as real / n as real;
    assert x * n as real == (0.5 / n as real) * n as real + (c as real / n as real) * n as real;
    assert x * n as real == c as real + 0.5;
  }

  // ---------------------------------------------------------------------------
  // Buffer slots
  // ---------------------------------------------------------------------------

  /** Texels between the starts of consecutive frames: whole rows in skip mode, exactly the
      vertex count in continuous mode. */
  function FrameStride(packing: PackingMode, width: int, frameRows: int, nv: nat): int {
    if packing == Skip then width * frameRows else nv
  }

  /** First of the four buffer entries of vertex `i` of object `k` in frame `f`. */
  function BufferSlot(packing: PackingMode, width: int, frameRows: int, nv: nat, counts: seq<nat>, k: nat, i: nat, f: nat): (slot: int)
    requires k < |counts| && i < counts[k]
    ensures slot == 4 * (f * FrameStride(packing, width, frameRows, nv) + GlobalIndex(counts, k, i))
  {
    4 * VertsBefore(counts, k) + FrameStride(packing, width, frameRows, nv) * f * 4 + i * 4
  }

  /** In frame 0 a vertex's buffer texel is the texel its UV points at. */
  lemma UVMatchesFrameZeroSlot(packing: PackingMode, w: int, h: int, frameRows: int, nv: nat, counts: seq<nat>, k: nat, i: nat, invertV: bool)
    requires w > 0 && h > 0
    requires k < |counts| && i < counts[k]
    ensures DecodeUV(TexelUV(GlobalIndex(counts, k, i), w, h, invertV), w, h, invertV)
         == BufferSlot(packing, w, frameRows, nv, counts, k, i, 0) / 4
  {
    var j := GlobalIndex(counts, k, i);
    var stride := FrameStride(packing, w, frameRows, nv);
    var t := BufferSlot(packing, w, frameRows, nv, counts, k, i, 0);
    assert t == 4 * (0 * stride + j);
    assert t / 4 == j;
    TexelUVToIndex(j, w, h, invertV);
  }

  /** The texel a UV decodes to, read row-major, is the global index it was made from. */
  lemma TexelUVToIndex(j: nat, w: int, h: int, invertV: bool)
    requires w > 0 && h > 0
    ensures DecodeUV(TexelUV(j, w, h, invertV), w, h, invertV) == j
  {
    TexelUVDecodes(j, w, h, invertV);
    RowMajor(j, w, DecodeUV(TexelUV(j, w, h, invertV), w, h, invertV));
  }

  lemma RowMajor(j: nat, w: int, t: int)
    requires w > 0
    requires t == (j / w) * w + j % w
    ensures t == j
  {
  }

  /** In skip mode frame `f` of a vertex sits `f * frameRows` rows above its frame-0 texel, in the
      same column: playback scrolls V by whole frames. */
  lemma SkipFrameShiftsRows(w: int, frameRows: nat, nv: nat, counts: seq<nat>, k: nat, i: nat, f: nat)
    requires w > 0
    requires k < |counts| && i < counts[k]
    requires GlobalIndex(counts, k, i) < w * frameRows
    ensures var t := BufferSlot(Skip, w, frameRows, nv, counts, k, i, f) / 4;
      var j := GlobalIndex(counts, k, i);
      t % w == j % w && t / w == f * frameRows + j / w
  {
    var j := GlobalIndex(counts, k, i);
    var t := f * (w * frameRows) + j;
    assert f * (w * frameRows) == (f * frameRows) * w;
    DivModShift(j, f * frameRows, w);
  }

  /** A slot's four entries lie in a `w * h * 4` buffer when the vertex fits inside one stride
      and the frames' strides fit in the image. */
  lemma SlotInBuffer(stride: int, nf: nat, f: nat, j: nat, w: int, h: int)
    requires j < stride && f < nf
    requires stride * nf <= w * h
    ensures 0 <= 4 * (f * stride + j) && 4 * (f * stride + j) + 3 < 4 * (w * h)
  {
    assert f * stride + j < (f + 1) * stride;
    assert (f + 1) * stride <= nf * stride by {
      MulLeft(f + 1, nf, stride);
    }
  }

  lemma RealProduct(a: int, b: int)
    ensures a as real * b as real == (a * b) as real
  {
  }

  lemma MulRegroup(a: int, b: int, c: int)
    ensures a * b * c == a * (c * b)
  {
  }

  /** The stride the bake loop uses with a planned layout: the final width times the frame
      height in skip mode, the vertex count otherwise. */
  function LayoutStride(packing: PackingMode, layout: Layout, nv: nat): int {
    FrameStride(packing, layout.width, layout.frameHeight.Floor, nv)
  }

  /** With any successful layout, every vertex of every frame has its four entries inside the
      `width * height * 4` buffers. */
  lemma LayoutSlotsInBuffer(s: LayoutSettings, nf: nat, counts: seq<nat>, k: nat, i: nat, f: nat)
    requires ValidLayoutSettings(s)
    requires BestTextureResolution(s, nf, TotalVerts(counts)).Success?
    requires k < |counts| && i < counts[k] && f < nf
    ensures var nv := TotalVerts(counts);
      var r := BestTextureResolution(s, nf, nv).value;
      var slot := BufferSlot(s.packing, r.width, r.frameHeight.Floor, nv, counts, k, i, f);
      0 <= slot && slot + 3 < 4 * (r.width * r.height)
  {
    var nv := TotalVerts(counts);
    var r := BestTextureResolution(s, nf, nv).value;
    var j := GlobalIndex(counts, k, i);
    var stride := LayoutStride(s.packing, r, nv);
    SuccessfulLayoutShape(s, nf, nv);
    if s.packing == Skip {
      SkipStrideFits(s, nf, nv, r);
    } else {
      LayoutCapacity(s, nf, nv);
    }
    SlotInBuffer(stride, nf, f, j, r.width, r.height);
  }

  /** In skip mode one stride holds every vertex, and the strides of all frames fit the image. */
  lemma SkipStrideFits(s: LayoutSettings, nf: nat, nv: nat, r: Layout)
    requires ValidLayoutSettings(s) && s.packing == Skip
    requires BestTextureResolution(s, nf, nv) == Success(r)
    ensures nv <= LayoutStride(Skip, r, nv)
    ensures LayoutStride(Skip, r, nv) * nf <= r.width * r.height
  {
    SuccessfulLayoutShape(s, nf, nv);
    var w0 := InitialWidth(s, nv);
    var rows, h0 := SkipShape(s, nf, nv, w0, r);
    StrideArithmetic(nv, nf, w0, rows, r.width, r.height, h0);
  }

  /** The facts of a successful skip-mode layout that `StrideArithmetic` needs, as plain
      integers: the rows per frame and the height before squaring. */
  lemma SkipShape(s: LayoutSettings, nf: nat, nv: nat, w0: int, r: Layout) returns (rows: int, h0: int)
    requires s.packing == Skip && w0 > 0
    requires r.width >= w0 && r.height >= TextureHeight(s, nf, nv, w0)
    requires r.frameHeight == FrameHeight(s.packing, nv, w0)
    ensures rows == (nv + w0 - 1) / w0 && r.frameHeight.Floor == rows
    ensures r.width >= w0 && r.height >= h0
    ensures h0 as real >= nf as real * rows as real
  {
    rows := (nv + w0 - 1) / w0;
    h0 := TextureHeight(s, nf, nv, w0);
    SkipHeightCoversRows(s, nf, nv, w0);
  }

  /** In skip mode the height before squaring covers `nf` frames of whole rows. */
  lemma SkipHeightCoversRows(s: LayoutSettings, nf: nat, nv: nat, w0: int)
    requires w0 > 0 && s.packing == Skip
    ensures TextureHeight(s, nf, nv, w0) as real >= nf as real * ((nv + w0 - 1) / w0) as real
  {
  }

  /** The integer core of `SkipStrideFits`: a rounded-up row count times any width at least
      `w0` covers the vertices, and `nf` such strides fit under a height that covers
      `nf * rows`. */
  lemma StrideArithmetic(nv: nat, nf: nat, w0: int, rows: int, width: int, height: int, h0: int)
    requires w0 > 0 && rows == (nv + w0 - 1) / w0
    requires width >= w0 && height >= h0
    requires h0 as real >= nf as real * rows as real
    ensures nv <= width * rows
    ensures width * rows * nf <= width * height
  {
    assert nv <= w0 * rows by {
      var rem := (nv + w0 - 1) % w0;
      assert nv + w0 - 1 == rows * w0 + rem;
    }
    MulLeft(w0, width, rows);
    RealProduct(nf, rows);
    assert h0 >= nf * rows;
    MulRegroup(width, rows, nf);
    MulLeft(nf * rows, height, width);
  }
}
