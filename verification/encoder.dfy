/** What happens to the baked offset and normal buffers before they become images: the remaps
    of offsets and normals into [0, 1], the V flip that reverses the order of pixel rows, and
    the length check an image buffer has to pass. A buffer is a flat sequence of RGBA
    entries, four per pixel, row after row. */
module BufferEncoder {
  import opened Wrappers
  import opened Numeric

  datatype EncodeError =
    | RemapDivisionByZero
    | UnexpectedLength(length: nat, expected: nat)

  // ---------------------------------------------------------------------------
  // Row inversion
  // ---------------------------------------------------------------------------

  /** Python's `s[lo:hi]` for non-negative bounds: both ends are clamped to the sequence. */
  function Slice<T>(s: seq<T>, lo: nat, hi: nat): (r: seq<T>)
    ensures lo <= hi <= |s| ==> r == s[lo..hi]
    ensures |r| == if lo >= |s| || hi <= lo then 0 else MinInt(hi, |s|) - lo
  {
    var a := MinInt(lo, |s|);
    var b := MaxInt(a, MinInt(hi, |s|));
    s[a..b]
  }

  /** Pixel row `i` of a `w` pixels wide buffer: `4 * w` entries. */
  function PixelRow<T>(buf: seq<T>, w: nat, i: nat): seq<T> {
    Slice(buf, i * (4 * w), i * (4 * w) + 4 * w)
  }

  /** The first `h` pixel rows of the buffer, appended last row first. Every row is a clamped
      slice, so the result has as many entries as the first `h` rows cover: too short a buffer
      gives a shorter result, a longer one is cut to `w * h * 4`. */
  function InvertRows<T>(buf: seq<T>, w: nat, h: nat): (r: seq<T>)
    ensures |r| == MinInt(|buf|, 4 * w * h)
    decreases h
  {
    if h == 0 then []
    else
      RowsSpan(w, h);
      RowExtendsPrefix(buf, (h - 1) * (4 * w), 4 * w);
      PixelRow(buf, w, h - 1) + InvertRows(buf, w, h - 1)
  }

  /** Where entry `n` of a `w` by `h` image lands when the rows are reversed: row `h - 1 - row`,
      same entry within the row. */
  function Mirror(n: nat, w: nat, h: nat): (m: nat)
    requires w > 0 && n < 4 * w * h
    ensures m < 4 * w * h
    ensures m / (4 * w) == h - 1 - n / (4 * w)
    ensures m % (4 * w) == n % (4 * w)
  {
    var rowLen := 4 * w;
    var row := n / rowLen;
    RowBelow(n, rowLen, h);
    DivModUnique((h - 1 - row) * rowLen + n % rowLen, rowLen, h - 1 - row, n % rowLen);
    MulLeft(h - row, h, rowLen);
    assert (h - 1 - row) * rowLen + rowLen == (h - row) * rowLen;
    (h - 1 - row) * rowLen + n % rowLen
  }

  lemma RowBelow(n: nat, rowLen: int, h: nat)
    requires rowLen > 0 && n < rowLen * h
    ensures n / rowLen < h
  {
    if n / rowLen >= h {
      MulLeft(h, n / rowLen, rowLen);
    }
  }

  /** Reversing the rows twice puts every entry back. */
  lemma MirrorInvolutive(n: nat, w: nat, h: nat)
    requires w > 0 && n < 4 * w * h
    ensures Mirror(Mirror(n, w, h), w, h) == n
  {
  }

  /** `out` holds the first `h` rows of `buf` with their order reversed. */
  ghost predicate MirrorsRows<T>(out: seq<T>, buf: seq<T>, w: nat, h: nat)
    requires w > 0
  {
    |out| == 4 * w * h <= |buf| && forall n :: 0 <= n < |out| ==> out[n] == buf[Mirror(n, w, h)]
  }

  /** When the buffer holds at least `h` rows, entry `n` of the inverted buffer is entry
      `Mirror(n)` of the original. */
  lemma {:induction false} InvertRowsMirrors<T>(buf: seq<T>, w: nat, h: nat)
    requires w > 0 && |buf| >= 4 * w * h
    ensures MirrorsRows(InvertRows(buf, w, h), buf, w, h)
    decreases h
  {
    if h > 0 {
      MulLeft(h - 1, h, 4 * w);
      InvertRowsMirrors(buf, w, h - 1);
      var out := InvertRows(buf, w, h);
      forall n | 0 <= n < |out|
        ensures out[n] == buf[Mirror(n, w, h)]
      {
        InvertRowsEntry(buf, w, h, n);
      }
    }
  }

  /** One step of `InvertRowsMirrors`: the last input row comes first, followed by the
      mirrored rest. */
  lemma InvertRowsEntry<T>(buf: seq<T>, w: nat, h: nat, n: nat)
    requires w > 0 && h > 0 && |buf| >= 4 * w * h && n < 4 * w * h
    requires MirrorsRows(InvertRows(buf, w, h - 1), buf, w, h - 1)
    ensures |InvertRows(buf, w, h)| == 4 * w * h
    ensures InvertRows(buf, w, h)[n] == buf[Mirror(n, w, h)]
  {
    var rowLen := 4 * w;
    var top := PixelRow(buf, w, h - 1);
    var rest := InvertRows(buf, w, h - 1);
    assert rowLen * h == rowLen * (h - 1) + rowLen;
    assert top == buf[(h - 1) * rowLen..(h - 1) * rowLen + rowLen];
    var out := InvertRows(buf, w, h);
    assert out == top + rest;
    if n < rowLen {
      MirrorTopRow(n, w, h);
    } else {
      MirrorLaterRow(n, w, h);
      assert out[n] == rest[n - rowLen];
    }
  }

  /** Entries of the first output row come from the last input row. */
  lemma MirrorTopRow(n: nat, w: nat, h: nat)
    requires w > 0 && h > 0 && n < 4 * w
    ensures n < 4 * w * h
    ensures Mirror(n, w, h) == (h - 1) * (4 * w) + n
  {
    MulLeft(1, h, 4 * w);
    DivModUnique(n, 4 * w, 0, n);
  }

  /** Below the first output row, mirroring in `h` rows is mirroring the rest in `h - 1`. */
  lemma MirrorLaterRow(n: nat, w: nat, h: nat)
    requires w > 0 && 4 * w <= n < 4 * w * h
    ensures h > 0 && n - 4 * w < 4 * w * (h - 1)
    ensures Mirror(n, w, h) == Mirror(n - 4 * w, w, h - 1)
  {
    DivModShift(n - 4 * w, 1, 4 * w);
  }

  /** Inversion keeps the length of a `w * h * 4` buffer, and inverting twice gives back the
      original buffer. */
  lemma InvertRowsInvolution<T>(buf: seq<T>, w: nat, h: nat)
    requires w > 0 && |buf| == 4 * w * h
    ensures |InvertRows(buf, w, h)| == |buf|
    ensures InvertRows(InvertRows(buf, w, h), w, h) == buf
  {
    var once := InvertRows(buf, w, h);
    InvertRowsMirrors(buf, w, h);
    InvertRowsMirrors(once, w, h);
    var twice := InvertRows(once, w, h);
    forall n | 0 <= n < |buf|
      ensures twice[n] == buf[n]
    {
      MirrorInvolutive(n, w, h);
    }
  }

  /** For a `w * h * 4` buffer, output row `r` is input row `h - 1 - r`. */
  lemma InvertedRow<T>(buf: seq<T>, w: nat, h: nat, r: nat)
    requires w > 0 && |buf| == 4 * w * h && r < h
    ensures |PixelRow(InvertRows(buf, w, h), w, r)| == 4 * w
    ensures PixelRow(InvertRows(buf, w, h), w, r) == PixelRow(buf, w, h - 1 - r)
  {
    var rowLen := 4 * w;
    MulLeft(r + 1, h, rowLen);
    MulLeft(h - r, h, rowLen);
    assert r * rowLen + rowLen == (r + 1) * rowLen;
    assert (h - 1 - r) * rowLen + rowLen == (h - r) * rowLen;
    InvertRowsMirrors(buf, w, h);
    var out := InvertRows(buf, w, h);
    var outRow := out[r * rowLen..r * rowLen + rowLen];
    var inRow := buf[(h - 1 - r) * rowLen..(h - 1 - r) * rowLen + rowLen];
    forall c | 0 <= c < rowLen
      ensures outRow[c] == inRow[c]
    {
      DivModShift(c, r, rowLen);
      DivModUnique(c, rowLen, 0, c);
      assert (h - 1 - r) * rowLen + c == Mirror(r * rowLen + c, w, h);
    }
    assert PixelRow(out, w, r) == outRow;
    assert PixelRow(buf, w, h - 1 - r) == inRow;
  }

  lemma RowsSpan(w: nat, h: nat)
    requires h > 0
    ensures 4 * w * h == (h - 1) * (4 * w) + 4 * w
    ensures 4 * w * (h - 1) == (h - 1) * (4 * w)
    ensures 4 * w * h == w * h * 4
  {
  }

  /** A clamped row starting where a clamped prefix ends extends that prefix by the row. */
  lemma RowExtendsPrefix<T>(buf: seq<T>, start: nat, rowLen: nat)
    ensures |Slice(buf, start, start + rowLen)| + MinInt(|buf|, start) == MinInt(|buf|, start + rowLen)
  {
  }

  /** The two buffers inverted together, one pixel row at a time from the last row to the
      first. */
  method InvertedBuffers(offsets: seq<real>, normals: seq<real>, w: nat, h: nat)
    returns (offsetsInv: seq<real>, normalsInv: seq<real>)
    ensures offsetsInv == InvertRows(offsets, w, h)
    ensures normalsInv == InvertRows(normals, w, h)
  {
    offsetsInv := [];
    normalsInv := [];
    var i: nat := h;
    while i > 0
      invariant i <= h
      invariant offsetsInv + InvertRows(offsets, w, i) == InvertRows(offsets, w, h)
      invariant normalsInv + InvertRows(normals, w, i) == InvertRows(normals, w, h)
    {
      i := i - 1;
      InvertStep(offsetsInv, offsets, w, h, i);
      InvertStep(normalsInv, normals, w, h, i);
      offsetsInv := offsetsInv + PixelRow(offsets, w, i);
      normalsInv := normalsInv + PixelRow(normals, w, i);
    }
  }

  /** Appending row `i` moves it from the rows still to go to the rows done. */
  lemma InvertStep<T>(done: seq<T>, buf: seq<T>, w: nat, h: nat, i: nat)
    requires done + InvertRows(buf, w, i + 1) == InvertRows(buf, w, h)
    ensures (done + PixelRow(buf, w, i)) + InvertRows(buf, w, i) == InvertRows(buf, w, h)
  {
    assert InvertRows(buf, w, i + 1) == PixelRow(buf, w, i) + InvertRows(buf, w, i);
  }

  // ---------------------------------------------------------------------------
  // Remaps
  // ---------------------------------------------------------------------------

  predicate NonZero(v: Vec3) {
    v.x != 0.0 && v.y != 0.0 && v.z != 0.0
  }

  /** The per-axis remap range: the larger magnitude of the minimum and the maximum bounds
      offset. */
  function MaxOffset(minOffset: Vec3, maxOffset: Vec3): (m: Vec3)
    ensures forall c :: 0 <= c < 3 ==>
      && Axis(m, c) >= Abs(Axis(minOffset, c))
      && Axis(m, c) >= Abs(Axis(maxOffset, c))
      && (Axis(m, c) == Abs(Axis(minOffset, c)) || Axis(m, c) == Abs(Axis(maxOffset, c)))
  {
    Vec3(MaxReal(Abs(minOffset.x), Abs(maxOffset.x)),
         MaxReal(Abs(minOffset.y), Abs(maxOffset.y)),
         MaxReal(Abs(minOffset.z), Abs(maxOffset.z)))
  }

  function EncodeOffset(o: real, m: real): real
    requires m != 0.0
  {
    (o / m + 1.0) * 0.5
  }

  /** The decode the preview material applies: times 2, minus 1, times the remap range. */
  function DecodeOffset(r: real, m: real): real {
    (r * 2.0 - 1.0) * m
  }

  /** Decoding an encoded offset with the same nonzero range gives the offset back. */
  lemma OffsetRoundTrip(o: real, m: real)
    requires m != 0.0
    ensures DecodeOffset(EncodeOffset(o, m), m) == o
  {
    assert EncodeOffset(o, m) * 2.0 - 1.0 == o / m;
  }

  /** A positive remap range `m` that the offset `o` does not exceed in magnitude. */
  predicate Covers(m: real, o: real) {
    m > 0.0 && -m <= o <= m
  }

  /** An offset no larger in magnitude than a positive range encodes into [0, 1]. */
  lemma EncodedOffsetInUnit(o: real, m: real)
    requires Covers(m, o)
    ensures 0.0 <= EncodeOffset(o, m) <= 1.0
  {
    assert -1.0 <= o / m <= 1.0 by {
      MulCancel(o / m, 1.0, m);
      MulCancel(-1.0, o / m, m);
    }
  }

  function EncodeNormal(n: real): real {
    (n + 1.0) * 0.5
  }

  function DecodeNormal(r: real): real {
    r * 2.0 - 1.0
  }

  /** The normal remap is undone by times 2, minus 1, and a unit component lands in [0, 1]. */
  lemma NormalRoundTrip(n: real)
    ensures DecodeNormal(EncodeNormal(n)) == n
    ensures -1.0 <= n <= 1.0 <==> 0.0 <= EncodeNormal(n) <= 1.0
  {
  }

  /** Entry `n` of a buffer of `len` entries is rewritten by a remap: an x, y or z entry of one
      of the `len / 4` whole pixels. Alpha entries and a trailing partial pixel stay. */
  predicate Remapped(len: nat, n: nat) {
    n < len / 4 * 4 && n % 4 < 3
  }

  /** The offset buffer with every remapped entry encoded against its axis of `m`. Alpha
      entries and a partial pixel stay, an offset within a positive range lands in [0, 1], and
      the preview decode with the same range gives the buffer back. */
  function RemapOffsets(buf: seq<real>, m: Vec3): (r: seq<real>)
    requires |buf| < 4 || NonZero(m)
    ensures |r| == |buf|
    ensures forall n :: 0 <= n < |buf| && !Remapped(|buf|, n) ==> r[n] == buf[n]
    ensures forall n :: 0 <= n < |buf| && Remapped(|buf|, n) && Covers(Axis(m, n % 4), buf[n]) ==> 0.0 <= r[n] <= 1.0
    ensures NonZero(m) ==> DecodeOffsets(r, m) == buf
  {
    var r := seq(|buf|, n requires 0 <= n < |buf| =>
      if Remapped(|buf|, n) then EncodeOffset(buf[n], Axis(m, n % 4)) else buf[n]);
    assert forall n :: 0 <= n < |buf| && Remapped(|buf|, n) && Covers(Axis(m, n % 4), buf[n]) ==> 0.0 <= r[n] <= 1.0 by {
      forall n | 0 <= n < |buf| && Remapped(|buf|, n) && Covers(Axis(m, n % 4), buf[n])
        ensures 0.0 <= r[n] <= 1.0
      {
        EncodedOffsetInUnit(buf[n], Axis(m, n % 4));
      }
    }
    assert NonZero(m) ==> DecodeOffsets(r, m) == buf by {
      if NonZero(m) {
        forall n | 0 <= n < |buf| && Remapped(|buf|, n)
          ensures DecodeOffset(r[n], Axis(m, n % 4)) == buf[n]
        {
          OffsetRoundTrip(buf[n], Axis(m, n % 4));
        }
      }
    }
    r
  }

  /** The preview decode applied to the same entries. */
  function DecodeOffsets(buf: seq<real>, m: Vec3): seq<real> {
    seq(|buf|, n requires 0 <= n < |buf| =>
      if Remapped(|buf|, n) then DecodeOffset(buf[n], Axis(m, n % 4)) else buf[n])
  }

  /** The remapped entries of one whole pixel at entry `b`, and the untouched tail. */
  lemma RemapOffsetsPixel(buf: seq<real>, m: Vec3, v: nat)
    requires v < |buf| / 4 && NonZero(m)
    ensures 4 * v + 4 <= |buf|
    ensures RemapOffsets(buf, m)[4 * v..4 * v + 4]
         == [EncodeOffset(buf[4 * v], m.x), EncodeOffset(buf[4 * v + 1], m.y),
             EncodeOffset(buf[4 * v + 2], m.z), buf[4 * v + 3]]
  {
    PixelEntries(|buf|, v);
    var e := RemapOffsets(buf, m);
    assert e[4 * v..4 * v + 4] == [e[4 * v], e[4 * v + 1], e[4 * v + 2], e[4 * v + 3]];
  }

  /** The four entries of whole pixel `v`: x, y and z are remapped, alpha is not. */
  lemma PixelEntries(len: nat, v: nat)
    requires v < len / 4
    ensures 4 * v + 4 <= len / 4 * 4 <= len
    ensures (4 * v) % 4 == 0 && (4 * v + 1) % 4 == 1 && (4 * v + 2) % 4 == 2 && (4 * v + 3) % 4 == 3
    ensures Remapped(len, 4 * v) && Remapped(len, 4 * v + 1) && Remapped(len, 4 * v + 2)
    ensures !Remapped(len, 4 * v + 3)
  {
  }

  lemma RemapOffsetsTail(buf: seq<real>, m: Vec3)
    requires |buf| < 4 || NonZero(m)
    ensures RemapOffsets(buf, m)[|buf| / 4 * 4..] == buf[|buf| / 4 * 4..]
  {
  }

  /** The offset remap as the bake runs it: the range from the bounds offsets, then x, y and z
      of every whole pixel encoded in order. A zero range component raises a division by
      zero as soon as there is a pixel to encode. */
  method RemapOffsetBuffer(buf: seq<real>, minOffset: Vec3, maxOffset: Vec3)
    returns (r: Result<seq<real>, EncodeError>, m: Vec3)
    ensures m == MaxOffset(minOffset, maxOffset)
    ensures r.Failure? <==> |buf| >= 4 && !NonZero(m)
    ensures r.Failure? ==> r.error == RemapDivisionByZero
    ensures r.Success? ==> r.value == RemapOffsets(buf, m)
  {
    m := MaxOffset(minOffset, maxOffset);
    if |buf| >= 4 && !NonZero(m) {
      return Failure(RemapDivisionByZero), m;
    }
    var out: seq<real> := [];
    var v := 0;
    while v < |buf| / 4
      invariant 0 <= v <= |buf| / 4
      invariant out == RemapOffsets(buf, m)[..4 * v]
    {
      var b := 4 * v;
      RemapOffsetsPixel(buf, m, v);
      assert RemapOffsets(buf, m)[..b + 4] == RemapOffsets(buf, m)[..b] + RemapOffsets(buf, m)[b..b + 4];
      out := out + [EncodeOffset(buf[b], m.x), EncodeOffset(buf[b + 1], m.y), EncodeOffset(buf[b + 2], m.z), buf[b + 3]];
      v := v + 1;
    }
    RemapOffsetsTail(buf, m);
    assert RemapOffsets(buf, m) == RemapOffsets(buf, m)[..4 * v] + RemapOffsets(buf, m)[4 * v..];
    r := Success(out + buf[4 * v..]);
  }

  /** The normal buffer with every remapped entry moved from [-1, 1] to [0, 1]: a remapped
      entry is in [0, 1] exactly when the component was a unit one, alpha entries and a partial
      pixel stay, and the preview decode gives the buffer back. */
  function RemapNormals(buf: seq<real>): (r: seq<real>)
    ensures |r| == |buf|
    ensures forall n :: 0 <= n < |buf| && !Remapped(|buf|, n) ==> r[n] == buf[n]
    ensures forall n :: 0 <= n < |buf| && Remapped(|buf|, n) ==> (-1.0 <= buf[n] <= 1.0 <==> 0.0 <= r[n] <= 1.0)
    ensures DecodeNormals(r) == buf
  {
    var r := seq(|buf|, n requires 0 <= n < |buf| => if Remapped(|buf|, n) then EncodeNormal(buf[n]) else buf[n]);
    assert DecodeNormals(r) == buf by {
      forall n | 0 <= n < |buf| && Remapped(|buf|, n)
        ensures DecodeNormal(r[n]) == buf[n]
      {
        NormalRoundTrip(buf[n]);
      }
    }
    r
  }

  function DecodeNormals(buf: seq<real>): seq<real> {
    seq(|buf|, n requires 0 <= n < |buf| => if Remapped(|buf|, n) then DecodeNormal(buf[n]) else buf[n])
  }

  /** The normal remap as the bake runs it, x, y and z of every whole pixel in order. */
  method RemapNormalBuffer(buf: seq<real>) returns (r: seq<real>)
    ensures r == RemapNormals(buf)
  {
    r := [];
    var v := 0;
    while v < |buf| / 4
      invariant 0 <= v <= |buf| / 4
      invariant r == RemapNormals(buf)[..4 * v]
    {
      var b := 4 * v;
      PixelEntries(|buf|, v);
      assert RemapNormals(buf)[b..b + 4]
          == [EncodeNormal(buf[b]), EncodeNormal(buf[b + 1]), EncodeNormal(buf[b + 2]), buf[b + 3]];
      assert RemapNormals(buf)[..b + 4] == RemapNormals(buf)[..b] + RemapNormals(buf)[b..b + 4];
      r := r + [EncodeNormal(buf[b]), EncodeNormal(buf[b + 1]), EncodeNormal(buf[b + 2]), buf[b + 3]];
      v := v + 1;
    }
    assert RemapNormals(buf)[4 * v..] == buf[4 * v..];
    assert RemapNormals(buf) == RemapNormals(buf)[..4 * v] + RemapNormals(buf)[4 * v..];
    r := r + buf[4 * v..];
  }

  // ---------------------------------------------------------------------------
  // Texture length guard
  // ---------------------------------------------------------------------------

  /** An image is only made from a buffer of exactly four entries per pixel. */
  function CheckBufferLength(buf: seq<real>, w: nat, h: nat): (r: Result<seq<real>, EncodeError>)
    ensures r.Success? <==> |buf| == w * h * 4
    ensures r.Success? ==> r.value == buf
    ensures r.Failure? ==> r.error == UnexpectedLength(|buf|, w * h * 4)
  {
    if |buf| != w * h * 4 then Failure(UnexpectedLength(|buf|, w * h * 4)) else Success(buf)
  }

  /** After the V flip the guard only sees the first `h` rows: a buffer with extra entries is
      cut to length and passes, a short one still fails. */
  lemma GuardAfterInversion(buf: seq<real>, w: nat, h: nat)
    ensures CheckBufferLength(InvertRows(buf, w, h), w, h).Success? <==> |buf| >= w * h * 4
  {
    if h > 0 {
      RowsSpan(w, h);
    }
  }
}
