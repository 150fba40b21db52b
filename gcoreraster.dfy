/**
 * GCORE_TriangleRaster: every record of the stream is drawn into a depth buffer (one double per
 * pixel, row-major, `width` pixels to a row) and an attribute buffer (A + S doubles per pixel: the
 * A interpolated vertex attributes, then the S statics of the triangle). The vertices are ranked by
 * screen y, the scanlines between the lowest and the highest rounded y are walked, and on each the
 * pixels between the rounded ends of the span; a pixel is kept when its depth is at least the one
 * stored.
 */
module GCoreRaster {
  import opened GCoreStream
  import FlatIndex

  // --- Numbers ------------------------------------------------------------------------------------

  /** C's round(): the nearest integer, halves rounded away from zero. */
  function Round(r: real): (n: int)
    ensures 0.0 <= r ==> r - 0.5 < n as real <= r + 0.5
    ensures r < 0.0 ==> r - 0.5 <= n as real < r + 0.5
  {
    if 0.0 <= r then (r + 0.5).Floor else -((0.5 - r).Floor)
  }

  /** Rounding keeps order. */
  lemma RoundMonotone(a: real, b: real)
    requires a <= b
    ensures Round(a) <= Round(b)
  {
    if 0.0 <= a || b < 0.0 {
      assert Round(a) as real < Round(b) as real + 1.0;
    }
  }

  /** x / y for a divisor the routine does not keep away from zero; zero stands in for the IEEE result. */
  function Div(x: real, y: real): real
  {
    if y == 0.0 then 0.0 else x / y
  }

  // --- Ranking the vertices by screen y -----------------------------------------------------------

  /** Vertex j is counted before vertex i: a lower y, or the same y and a lower index. */
  predicate Precedes(ys: seq<real>, j: int, i: int)
    requires 0 <= i < |ys| && 0 <= j < |ys|
  {
    if i > j && ys[j] <= ys[i] then true
    else i < j && ys[j] < ys[i]
  }

  /** The number of vertices among 0 .. k-1 counted before vertex i. */
  function CountBefore(ys: seq<real>, i: int, k: int): (c: int)
    requires 0 <= i < |ys| && 0 <= k <= |ys|
    ensures 0 <= c <= k
  {
    if k == 0 then 0 else CountBefore(ys, i, k - 1) + (if Precedes(ys, k - 1, i) then 1 else 0)
  }

  /** The rank `ind` the routine gives vertex i. */
  function Rank(ys: seq<real>, i: int): (k: int)
    requires |ys| == 3 && 0 <= i < 3
    ensures 0 <= k < 3
  {
    assert CountBefore(ys, i, 1) == if Precedes(ys, 0, i) then 1 else 0;
    assert CountBefore(ys, i, 2) == CountBefore(ys, i, 1) + if Precedes(ys, 1, i) then 1 else 0;
    CountBefore(ys, i, 3)
  }

  /** The three counts written out. */
  lemma RankSum(ys: seq<real>, i: int)
    requires |ys| == 3 && 0 <= i < 3
    ensures Rank(ys, i) == (if Precedes(ys, 0, i) then 1 else 0) + (if Precedes(ys, 1, i) then 1 else 0) + (if Precedes(ys, 2, i) then 1 else 0)
  {
    assert CountBefore(ys, i, 1) == if Precedes(ys, 0, i) then 1 else 0;
    assert CountBefore(ys, i, 2) == CountBefore(ys, i, 1) + if Precedes(ys, 1, i) then 1 else 0;
  }

  /** The ranks are 0, 1 and 2, each given to exactly one vertex. */
  lemma RankPermutation(ys: seq<real>)
    requires |ys| == 3
    ensures forall i :: 0 <= i < 3 ==> 0 <= Rank(ys, i) < 3
    ensures Rank(ys, 0) != Rank(ys, 1) && Rank(ys, 0) != Rank(ys, 2) && Rank(ys, 1) != Rank(ys, 2)
  {
    RankSum(ys, 0);
    RankSum(ys, 1);
    RankSum(ys, 2);
  }

  /** The ranking is stable: a lower rank means a lower y, or the same y and a lower index. */
  lemma RankOrder(ys: seq<real>, i: int, j: int)
    requires |ys| == 3 && 0 <= i < 3 && 0 <= j < 3 && i != j
    ensures Rank(ys, i) < Rank(ys, j) <==> ys[i] < ys[j] || (ys[i] == ys[j] && i < j)
  {
    RankSum(ys, 0);
    RankSum(ys, 1);
    RankSum(ys, 2);
  }

  /** The inner loop of the ranking. */
  method RankVertex(ys: seq<real>, i: int) returns (ind: int)
    requires |ys| == 3 && 0 <= i < 3
    ensures ind == Rank(ys, i)
  {
    ind := 0;
    for j := 0 to 3
      invariant ind == CountBefore(ys, i, j)
    {
      if i > j && ys[j] <= ys[i] {
        ind := ind + 1;
      } else if i < j && ys[j] < ys[i] {
        ind := ind + 1;
      }
    }
  }

  // --- Per-triangle set-up ------------------------------------------------------------------------

  /** Screen y of vertex i, 0.5 * (height * y / w + height). */
  function ScreenY(r: seq<real>, height: int, i: int): real
    requires 0 <= i < 3 && |r| >= 12
  {
    0.5 * (Div(height as real * r[4 * i + 1], r[4 * i + 3]) + height as real)
  }

  /** Screen x of vertex i, 0.5 * (width * x / w + width). */
  function ScreenX(r: seq<real>, width: int, i: int): real
    requires 0 <= i < 3 && |r| >= 12
  {
    0.5 * (Div(width as real * r[4 * i], r[4 * i + 3]) + width as real)
  }

  /** The routine's `ytmp`. */
  function ScreenYs(r: seq<real>, height: int): (ys: seq<real>)
    requires |r| >= 12
    ensures |ys| == 3
  {
    [ScreenY(r, height, 0), ScreenY(r, height, 1), ScreenY(r, height, 2)]
  }

  /** The vertex the ranking puts at rank k. */
  function Ranked(ys: seq<real>, k: int): (i: int)
    requires |ys| == 3 && 0 <= k < 3
    ensures 0 <= i < 3 && Rank(ys, i) == k
  {
    RankPermutation(ys);
    if Rank(ys, 0) == k then 0 else if Rank(ys, 1) == k then 1 else 2
  }

  /** Listed by rank, the vertices go up in y, equal y in index order. */
  lemma RankedSorted(ys: seq<real>, k: int)
    requires |ys| == 3 && 0 <= k < 2
    ensures ys[Ranked(ys, k)] < ys[Ranked(ys, k + 1)] || (ys[Ranked(ys, k)] == ys[Ranked(ys, k + 1)] && Ranked(ys, k) < Ranked(ys, k + 1))
  {
    RankOrder(ys, Ranked(ys, k), Ranked(ys, k + 1));
  }

  /**
   * The routine's arrays for one triangle, indexed by rank: `order[k]` is the vertex put at rank k
   * (`verts[k]` and `attrs[k]` point into it), `xvals[k]` its screen x, `ycut[k]` its rounded screen y.
   */
  datatype Setup = Setup(order: seq<int>, xvals: seq<real>, ycut: seq<int>)

  /** Three entries each, vertex indices in range, and the rounded ys going up. */
  predicate Valid(f: Setup)
  {
    |f.order| == 3 && |f.xvals| == 3 && |f.ycut| == 3 &&
    (forall k :: 0 <= k < 3 ==> 0 <= f.order[k] < 3) &&
    f.ycut[0] <= f.ycut[1] <= f.ycut[2]
  }

  /** What the ranking loop leaves in `verts`, `xvals` and `ycut`. */
  function SetupOf(r: seq<real>, width: int, height: int): (f: Setup)
    requires |r| >= 12
    ensures Valid(f)
    ensures forall k :: 0 <= k < 3 ==> Rank(ScreenYs(r, height), f.order[k]) == k
  {
    var ys := ScreenYs(r, height);
    var o := [Ranked(ys, 0), Ranked(ys, 1), Ranked(ys, 2)];
    RankedSorted(ys, 0);
    RankedSorted(ys, 1);
    RoundMonotone(ys[o[0]], ys[o[1]]);
    RoundMonotone(ys[o[1]], ys[o[2]]);
    Setup(o, [ScreenX(r, width, o[0]), ScreenX(r, width, o[1]), ScreenX(r, width, o[2])],
          [Round(ys[o[0]]), Round(ys[o[1]]), Round(ys[o[2]])])
  }

  /** The ranking loop of the routine, filling `verts`, `xvals` and `ycut` by rank. */
  method SetupTriangle(r: seq<real>, width: int, height: int) returns (f: Setup)
    requires |r| >= 12
    ensures f == SetupOf(r, width, height)
  {
    var ytmp := ScreenYs(r, height);
    var verts: seq<int> := [0, 0, 0];
    var xvals: seq<real> := [0.0, 0.0, 0.0];
    var ycut: seq<int> := [0, 0, 0];
    RankPermutation(ytmp);
    for i := 0 to 3
      invariant |verts| == 3 && |xvals| == 3 && |ycut| == 3
      invariant forall i' :: 0 <= i' < i ==> verts[Rank(ytmp, i')] == i'
      invariant forall i' :: 0 <= i' < i ==> xvals[Rank(ytmp, i')] == ScreenX(r, width, i')
      invariant forall i' :: 0 <= i' < i ==> ycut[Rank(ytmp, i')] == Round(ytmp[i'])
    {
      var ind := RankVertex(ytmp, i);
      verts := verts[ind := i];
      xvals := xvals[ind := ScreenX(r, width, i)];
      ycut := ycut[ind := Round(ytmp[i])];
    }
    ByRank(r, width, height, verts, xvals, ycut);
    f := Setup(verts, xvals, ycut);
  }

  /** Arrays filled vertex by vertex at the vertices' ranks are the set-up. */
  lemma ByRank(r: seq<real>, width: int, height: int, verts: seq<int>, xvals: seq<real>, ycut: seq<int>)
    requires |r| >= 12 && |verts| == 3 && |xvals| == 3 && |ycut| == 3
    requires forall i :: 0 <= i < 3 ==> verts[Rank(ScreenYs(r, height), i)] == i
    requires forall i :: 0 <= i < 3 ==> xvals[Rank(ScreenYs(r, height), i)] == ScreenX(r, width, i)
    requires forall i :: 0 <= i < 3 ==> ycut[Rank(ScreenYs(r, height), i)] == Round(ScreenYs(r, height)[i])
    ensures Setup(verts, xvals, ycut) == SetupOf(r, width, height)
  {
    var ys := ScreenYs(r, height);
    RankPermutation(ys);
    var g := SetupOf(r, width, height);
    forall k | 0 <= k < 3
      ensures verts[k] == g.order[k] && xvals[k] == g.xvals[k] && ycut[k] == g.ycut[k]
    {
      assert Rank(ys, g.order[k]) == k;
    }
  }

  // --- Scanlines and pixels -----------------------------------------------------------------------

  /**
   * One scanline: `t0` along the long edge (rank 0 to rank 2), `t1` along the short edge used on this
   * line (ranks v0 to v1: 1 to 2 when `cmp`, else 0 to 1), and the ends of the span.
   */
  datatype Line = Line(t0: real, cmp: bool, t1: real, xstart: real, xend: real, v0: int, v1: int)

  /** The routine's per-scanline values for y. */
  function LineOf(f: Setup, y: int): (l: Line)
    requires Valid(f) && f.ycut[0] <= y < f.ycut[2]
    ensures 0.0 <= l.t0 < 1.0 && 0.0 <= l.t1 <= 1.0
    ensures l.v0 == (if l.cmp then 1 else 0) && l.v1 == l.v0 + 1
    ensures f.ycut[l.v0] <= y <= f.ycut[l.v1] && f.ycut[l.v0] < f.ycut[l.v1]
  {
    var yc := f.ycut;
    var t0 := (y - yc[0]) as real / (yc[2] - yc[0]) as real;
    var cmp := if yc[2] == yc[1] then false else if yc[1] == yc[0] then true else y > yc[1];
    var t1 := if cmp then (y - yc[1]) as real / (yc[2] - yc[1]) as real else (y - yc[0]) as real / (yc[1] - yc[0]) as real;
    var xstart := f.xvals[0] * (1.0 - t0) + f.xvals[2] * t0;
    var xend := if cmp then f.xvals[1] * (1.0 - t1) + f.xvals[2] * t1 else f.xvals[0] * (1.0 - t1) + f.xvals[1] * t1;
    Line(t0, cmp, t1, xstart, xend, if cmp then 1 else 0, if cmp then 2 else 1)
  }

  /** The first pixel of the span: the rounded smaller end. */
  function XFirst(l: Line): int
  {
    Round(if l.xstart < l.xend then l.xstart else l.xend)
  }

  /** The pixel after the span: the rounded larger end, never before the first. */
  function XLast(l: Line): (e: int)
    ensures XFirst(l) <= e
  {
    RoundMonotone(if l.xstart < l.xend then l.xstart else l.xend, if l.xstart < l.xend then l.xend else l.xstart);
    Round(if l.xstart < l.xend then l.xend else l.xstart)
  }

  /** `t2`, the position of pixel x along the span; a pixel exists only on a span of non-zero length. */
  function T2(l: Line, x: int): real
    requires XFirst(l) <= x < XLast(l)
  {
    (x as real - l.xstart) / (l.xend - l.xstart)
  }

  /**
   * The routine's perspective blend of a per-vertex quantity e (indexed by vertex): e / w along the
   * long edge and along the short edge, mixed by t2. With e = 1 it is `winterp`; with the vertex
   * depths it is the pixel's z.
   */
  function Blend(r: seq<real>, f: Setup, l: Line, t2: real, e: seq<real>): real
    requires |r| >= 12 && Valid(f) && |e| == 3 && 0 <= l.v0 < 3 && 0 <= l.v1 < 3
  {
    var a, c, p, q := f.order[0], f.order[2], f.order[l.v0], f.order[l.v1];
    (Div(e[a] * (1.0 - l.t0), r[4 * a + 3]) + Div(e[c] * l.t0, r[4 * c + 3])) * (1.0 - t2) +
    (Div(e[p] * (1.0 - l.t1), r[4 * p + 3]) + Div(e[q] * l.t1, r[4 * q + 3])) * t2
  }

  /** The clip-space z of the three vertices. */
  function Depths(r: seq<real>): (e: seq<real>)
    requires |r| >= 12
    ensures |e| == 3
  {
    [r[2], r[6], r[10]]
  }

  /** Attribute i of the three vertices. */
  function AttrColumn(r: seq<real>, attributes: int, i: int): (e: seq<real>)
    requires 0 <= i < attributes && |r| >= StatOff(attributes)
    ensures |e| == 3
  {
    AttrSlotsVertexMajor(attributes, 0, i, 0, i);
    AttrSlotsVertexMajor(attributes, 2, i, 2, i);
    [r[AttrSlot(attributes, 0, i)], r[AttrSlot(attributes, 1, i)], r[AttrSlot(attributes, 2, i)]]
  }

  /** Interpolated attribute i of a pixel: its blend divided by `winterp`. */
  function PixelAttr(r: seq<real>, attributes: int, f: Setup, l: Line, t2: real, i: int): real
    requires 0 <= i < attributes && |r| >= StatOff(attributes) && Valid(f) && 0 <= l.v0 < 3 && 0 <= l.v1 < 3
  {
    Div(Blend(r, f, l, t2, AttrColumn(r, attributes, i)), Blend(r, f, l, t2, [1.0, 1.0, 1.0]))
  }

  /** The A + S doubles a kept pixel gets: its interpolated attributes, then the triangle's statics. */
  function PixelRecord(r: seq<real>, attributes: int, statics: int, f: Setup, l: Line, t2: real): (rec: seq<real>)
    requires 0 <= attributes && 0 <= statics && |r| >= Pitch(attributes, statics) && Valid(f) && 0 <= l.v0 < 3 && 0 <= l.v1 < 3
    ensures |rec| == attributes + statics
  {
    seq(attributes, i requires 0 <= i < attributes => PixelAttr(r, attributes, f, l, t2, i)) + r[StatOff(attributes)..Pitch(attributes, statics)]
  }

  // --- The buffers --------------------------------------------------------------------------------

  /** The depth buffer and the attribute buffer. */
  datatype Buffers = Buffers(z: seq<real>, a: seq<real>)

  /** Offset of pixel (x, y) in the depth buffer, `x + width * y`; its attribute record starts at (A + S) times it. */
  function Cell(width: int, x: int, y: int): int
  {
    FlatIndex.Flat(width, y, x)
  }

  /** Room for a width x height raster: width * height depths and (A + S) * width * height attribute doubles. */
  predicate Sized(b: Buffers, attributes: int, statics: int, width: int, height: int)
  {
    0 <= attributes && 0 <= statics && 0 <= width && 0 <= height &&
    width * height <= |b.z| && (attributes + statics) * (width * height) <= |b.a|
  }

  /** A pixel of the raster has its depth and its whole attribute record inside the buffers. */
  lemma CellFits(b: Buffers, attributes: int, statics: int, width: int, height: int, x: int, y: int)
    requires Sized(b, attributes, statics, width, height) && 0 <= x < width && 0 <= y < height
    ensures 0 <= Cell(width, x, y) < |b.z|
    ensures 0 <= (attributes + statics) * Cell(width, x, y)
    ensures (attributes + statics) * Cell(width, x, y) + (attributes + statics) <= |b.a|
  {
    FlatIndex.FlatBound(width, height, y, x);
    var c := Cell(width, x, y);
    FlatIndex.MulMonotone(c + 1, width * height, attributes + statics);
    assert (attributes + statics) * (c + 1) == (attributes + statics) * c + (attributes + statics);
  }

  /** The depth test and the writes of one pixel at `cell`: kept when its depth is at least the stored one. */
  function Plot(b: Buffers, attributes: int, statics: int, cell: int, z: real, rec: seq<real>): (b': Buffers)
    requires 0 <= attributes && 0 <= statics && |rec| == attributes + statics && 0 <= cell < |b.z|
    requires 0 <= (attributes + statics) * cell && (attributes + statics) * cell + (attributes + statics) <= |b.a|
    ensures |b'.z| == |b.z| && |b'.a| == |b.a|
  {
    if z < b.z[cell] then b else Buffers(b.z[cell := z], Put(b.a, (attributes + statics) * cell, rec))
  }

  /**
   * The depth test: the pixel's depth becomes the larger of the stored and the new one, its record
   * is written exactly when the new depth is kept, and no other double of either buffer changes.
   */
  lemma PlotDepthTest(b: Buffers, attributes: int, statics: int, cell: int, z: real, rec: seq<real>)
    requires 0 <= attributes && 0 <= statics && |rec| == attributes + statics && 0 <= cell < |b.z|
    requires 0 <= (attributes + statics) * cell && (attributes + statics) * cell + (attributes + statics) <= |b.a|
    ensures Plot(b, attributes, statics, cell, z, rec).z[cell] == if b.z[cell] <= z then z else b.z[cell]
    ensures forall q :: 0 <= q < |b.z| && q != cell ==> Plot(b, attributes, statics, cell, z, rec).z[q] == b.z[q]
    ensures forall k :: 0 <= k < attributes + statics ==>
      Plot(b, attributes, statics, cell, z, rec).a[(attributes + statics) * cell + k] ==
        if b.z[cell] <= z then rec[k] else b.a[(attributes + statics) * cell + k]
    ensures forall q :: 0 <= q < |b.a| && !((attributes + statics) * cell <= q < (attributes + statics) * cell + attributes + statics) ==>
      Plot(b, attributes, statics, cell, z, rec).a[q] == b.a[q]
  {
  }

  /** The depth of pixel x of scanline y: the blend of the vertex z values. */
  function PixelDepth(r: seq<real>, f: Setup, y: int, x: int): real
    requires |r| >= 12 && Valid(f) && f.ycut[0] <= y < f.ycut[2] && XFirst(LineOf(f, y)) <= x < XLast(LineOf(f, y))
  {
    var l := LineOf(f, y);
    Blend(r, f, l, T2(l, x), Depths(r))
  }

  /** The record pixel x of scanline y gets when it is kept. */
  function PixelValues(r: seq<real>, attributes: int, statics: int, f: Setup, y: int, x: int): (rec: seq<real>)
    requires 0 <= attributes && 0 <= statics && |r| >= Pitch(attributes, statics) && Valid(f)
    requires f.ycut[0] <= y < f.ycut[2] && XFirst(LineOf(f, y)) <= x < XLast(LineOf(f, y))
    ensures |rec| == attributes + statics
  {
    var l := LineOf(f, y);
    PixelRecord(r, attributes, statics, f, l, T2(l, x))
  }

  /** Pixel x of scanline y of the record r, as the routine computes, tests and writes it. */
  function Pixel(b: Buffers, r: seq<real>, attributes: int, statics: int, f: Setup, y: int, width: int, height: int, x: int): (b': Buffers)
    requires Sized(b, attributes, statics, width, height) && |r| >= Pitch(attributes, statics) && Valid(f)
    requires f.ycut[0] <= y < f.ycut[2] && XFirst(LineOf(f, y)) <= x < XLast(LineOf(f, y))
    requires 0 <= x < width && 0 <= y < height
    ensures |b'.z| == |b.z| && |b'.a| == |b.a|
  {
    CellFits(b, attributes, statics, width, height, x, y);
    Plot(b, attributes, statics, Cell(width, x, y), PixelDepth(r, f, y, x), PixelValues(r, attributes, statics, f, y, x))
  }

  /**
   * A pixel is written exactly when its depth is at least the stored one: then its cell holds the
   * new depth, its record the interpolated attributes followed by the triangle's statics verbatim;
   * otherwise nothing changes.
   */
  lemma PixelWrite(b: Buffers, r: seq<real>, attributes: int, statics: int, f: Setup, y: int, width: int, height: int, x: int)
    requires Sized(b, attributes, statics, width, height) && |r| >= Pitch(attributes, statics) && Valid(f)
    requires f.ycut[0] <= y < f.ycut[2] && XFirst(LineOf(f, y)) <= x < XLast(LineOf(f, y))
    requires 0 <= x < width && 0 <= y < height
    ensures 0 <= Cell(width, x, y) < |b.z|
    ensures 0 <= (attributes + statics) * Cell(width, x, y) && (attributes + statics) * Cell(width, x, y) + attributes + statics <= |b.a|
    ensures PixelDepth(r, f, y, x) < b.z[Cell(width, x, y)] ==> Pixel(b, r, attributes, statics, f, y, width, height, x) == b
    ensures b.z[Cell(width, x, y)] <= PixelDepth(r, f, y, x) ==>
      var b', c := Pixel(b, r, attributes, statics, f, y, width, height, x), Cell(width, x, y);
      var base := (attributes + statics) * c;
      b'.z[c] == PixelDepth(r, f, y, x) &&
      (forall i :: 0 <= i < attributes ==> b'.a[base + i] == PixelAttr(r, attributes, f, LineOf(f, y), T2(LineOf(f, y), x), i)) &&
      b'.a[base + attributes..base + attributes + statics] == r[StatOff(attributes)..Pitch(attributes, statics)]
  {
    CellFits(b, attributes, statics, width, height, x, y);
    var c := Cell(width, x, y);
    var base := (attributes + statics) * c;
    var rec := PixelValues(r, attributes, statics, f, y, x);
    var b' := Pixel(b, r, attributes, statics, f, y, width, height, x);
    assert b' == Plot(b, attributes, statics, c, PixelDepth(r, f, y, x), rec);
    if b.z[c] <= PixelDepth(r, f, y, x) {
      assert b'.a == Put(b.a, base, rec);
      assert b'.a[base..base + attributes + statics] == rec;
      assert b'.a[base + attributes..base + attributes + statics] == rec[attributes..];
    }
  }

  /** A scanline that has pixels lies inside the raster: what the routine, which checks no bounds, assumes. */
  predicate RowInside(f: Setup, y: int, width: int, height: int)
    requires Valid(f) && f.ycut[0] <= y < f.ycut[2]
  {
    var l := LineOf(f, y);
    XFirst(l) < XLast(l) ==> 0 <= y < height && 0 <= XFirst(l) && XLast(l) <= width
  }

  /** The buffers after the pixels of scanline y before x. */
  function RowUpTo(b: Buffers, r: seq<real>, attributes: int, statics: int, f: Setup, y: int, width: int, height: int, x: int): (b': Buffers)
    requires Sized(b, attributes, statics, width, height) && |r| >= Pitch(attributes, statics) && Valid(f)
    requires f.ycut[0] <= y < f.ycut[2] && RowInside(f, y, width, height)
    requires XFirst(LineOf(f, y)) <= x <= XLast(LineOf(f, y))
    ensures |b'.z| == |b.z| && |b'.a| == |b.a|
    decreases x - XFirst(LineOf(f, y))
  {
    if x == XFirst(LineOf(f, y)) then b
    else Pixel(RowUpTo(b, r, attributes, statics, f, y, width, height, x - 1), r, attributes, statics, f, y, width, height, x - 1)
  }

  /** Every scanline of the triangle that has pixels lies inside the raster. */
  ghost predicate RowsInside(f: Setup, width: int, height: int)
    requires Valid(f)
  {
    forall y :: f.ycut[0] <= y < f.ycut[2] ==> RowInside(f, y, width, height)
  }

  /** The buffers after the scanlines of the triangle before y. */
  function RowsUpTo(b: Buffers, r: seq<real>, attributes: int, statics: int, f: Setup, width: int, height: int, y: int): (b': Buffers)
    requires Sized(b, attributes, statics, width, height) && |r| >= Pitch(attributes, statics) && Valid(f)
    requires RowsInside(f, width, height) && f.ycut[0] <= y <= f.ycut[2]
    ensures |b'.z| == |b.z| && |b'.a| == |b.a|
    decreases y - f.ycut[0]
  {
    if y == f.ycut[0] then b
    else
      var prior := RowsUpTo(b, r, attributes, statics, f, width, height, y - 1);
      RowUpTo(prior, r, attributes, statics, f, y - 1, width, height, XLast(LineOf(f, y - 1)))
  }

  /** Every pixel the record's triangle covers lies inside the raster. */
  ghost predicate Inside(r: seq<real>, width: int, height: int)
    requires |r| >= 12
  {
    RowsInside(SetupOf(r, width, height), width, height)
  }

  /** One record drawn. */
  function RasterRecord(b: Buffers, r: seq<real>, attributes: int, statics: int, width: int, height: int): (b': Buffers)
    requires Sized(b, attributes, statics, width, height) && |r| >= Pitch(attributes, statics) && Inside(r, width, height)
    ensures |b'.z| == |b.z| && |b'.a| == |b.a|
  {
    var f := SetupOf(r, width, height);
    RowsUpTo(b, r, attributes, statics, f, width, height, f.ycut[2])
  }

  /** The first `count` records of the stream s lie in it, and their triangles inside the raster. */
  ghost predicate AllInside(s: seq<real>, attributes: int, statics: int, count: int, width: int, height: int)
    decreases count
  {
    0 <= attributes && 0 <= statics &&
    (count <= 0 ||
     (Pitch(attributes, statics) <= |s| && Inside(s[..Pitch(attributes, statics)], width, height) &&
      AllInside(s[Pitch(attributes, statics)..], attributes, statics, count - 1, width, height)))
  }

  /** The buffers after the first `count` records of the stream s, drawn one after another. */
  function RasterUpTo(b: Buffers, s: seq<real>, attributes: int, statics: int, width: int, height: int, count: int): (b': Buffers)
    requires Sized(b, attributes, statics, width, height) && 0 <= count && AllInside(s, attributes, statics, count, width, height)
    ensures |b'.z| == |b.z| && |b'.a| == |b.a|
    decreases count
  {
    if count == 0 then b
    else
      var pitch := Pitch(attributes, statics);
      RasterUpTo(RasterRecord(b, s[..pitch], attributes, statics, width, height), s[pitch..], attributes, statics, width, height, count - 1)
  }

  // --- The depth buffer only grows --------------------------------------------------------------

  /** No depth of b' is below the same cell's depth in b. */
  ghost predicate Deeper(b: Buffers, b': Buffers)
  {
    |b'.z| == |b.z| && forall q :: 0 <= q < |b.z| ==> b.z[q] <= b'.z[q]
  }

  lemma DeeperTrans(b0: Buffers, b1: Buffers, b2: Buffers)
    requires Deeper(b0, b1) && Deeper(b1, b2)
    ensures Deeper(b0, b2)
  {
  }

  /** A pixel never lowers a stored depth. */
  lemma PixelDeeper(b: Buffers, r: seq<real>, attributes: int, statics: int, f: Setup, y: int, width: int, height: int, x: int)
    requires Sized(b, attributes, statics, width, height) && |r| >= Pitch(attributes, statics) && Valid(f)
    requires f.ycut[0] <= y < f.ycut[2] && XFirst(LineOf(f, y)) <= x < XLast(LineOf(f, y))
    requires 0 <= x < width && 0 <= y < height
    ensures Deeper(b, Pixel(b, r, attributes, statics, f, y, width, height, x))
  {
    CellFits(b, attributes, statics, width, height, x, y);
    PlotDepthTest(b, attributes, statics, Cell(width, x, y), PixelDepth(r, f, y, x), PixelValues(r, attributes, statics, f, y, x));
  }

  /** A scanline never lowers a stored depth. */
  lemma {:induction false} RowDeeper(b: Buffers, r: seq<real>, attributes: int, statics: int, f: Setup, y: int, width: int, height: int, x: int)
    requires Sized(b, attributes, statics, width, height) && |r| >= Pitch(attributes, statics) && Valid(f)
    requires f.ycut[0] <= y < f.ycut[2] && RowInside(f, y, width, height)
    requires XFirst(LineOf(f, y)) <= x <= XLast(LineOf(f, y))
    ensures Deeper(b, RowUpTo(b, r, attributes, statics, f, y, width, height, x))
    decreases x - XFirst(LineOf(f, y))
  {
    if x != XFirst(LineOf(f, y)) {
      var prior := RowUpTo(b, r, attributes, statics, f, y, width, height, x - 1);
      RowDeeper(b, r, attributes, statics, f, y, width, height, x - 1);
      PixelDeeper(prior, r, attributes, statics, f, y, width, height, x - 1);
      DeeperTrans(b, prior, Pixel(prior, r, attributes, statics, f, y, width, height, x - 1));
    }
  }

  /**
   * The z-buffer keeps the largest depth: after the pixels of scanline y before x, each of their
   * cells holds a depth at least that pixel's own.
   */
  lemma {:induction false} RowHoldsDepths(b: Buffers, r: seq<real>, attributes: int, statics: int, f: Setup, y: int, width: int, height: int, x: int)
    requires Sized(b, attributes, statics, width, height) && |r| >= Pitch(attributes, statics) && Valid(f)
    requires f.ycut[0] <= y < f.ycut[2] && RowInside(f, y, width, height)
    requires XFirst(LineOf(f, y)) <= x <= XLast(LineOf(f, y))
    ensures forall x' :: XFirst(LineOf(f, y)) <= x' < x ==>
      0 <= Cell(width, x', y) < |b.z| &&
      PixelDepth(r, f, y, x') <= RowUpTo(b, r, attributes, statics, f, y, width, height, x).z[Cell(width, x', y)]
    decreases x - XFirst(LineOf(f, y))
  {
    if x != XFirst(LineOf(f, y)) {
      var prior := RowUpTo(b, r, attributes, statics, f, y, width, height, x - 1);
      var now := Pixel(prior, r, attributes, statics, f, y, width, height, x - 1);
      RowHoldsDepths(b, r, attributes, statics, f, y, width, height, x - 1);
      PixelDeeper(prior, r, attributes, statics, f, y, width, height, x - 1);
      PixelWrite(prior, r, attributes, statics, f, y, width, height, x - 1);
      forall x' | XFirst(LineOf(f, y)) <= x' < x
        ensures 0 <= Cell(width, x', y) < |b.z| && PixelDepth(r, f, y, x') <= now.z[Cell(width, x', y)]
      {
        CellFits(b, attributes, statics, width, height, x', y);
        var c := Cell(width, x', y);
        if x' < x - 1 {
          assert PixelDepth(r, f, y, x') <= prior.z[c] <= now.z[c];
        }
      }
    }
  }

  /** The scanlines of a triangle never lower a stored depth. */
  lemma {:induction false} RowsDeeper(b: Buffers, r: seq<real>, attributes: int, statics: int, f: Setup, width: int, height: int, y: int)
    requires Sized(b, attributes, statics, width, height) && |r| >= Pitch(attributes, statics) && Valid(f)
    requires RowsInside(f, width, height) && f.ycut[0] <= y <= f.ycut[2]
    ensures Deeper(b, RowsUpTo(b, r, attributes, statics, f, width, height, y))
    decreases y - f.ycut[0]
  {
    if y != f.ycut[0] {
      var prior := RowsUpTo(b, r, attributes, statics, f, width, height, y - 1);
      RowsDeeper(b, r, attributes, statics, f, width, height, y - 1);
      RowDeeper(prior, r, attributes, statics, f, y - 1, width, height, XLast(LineOf(f, y - 1)));
      DeeperTrans(b, prior, RowUpTo(prior, r, attributes, statics, f, y - 1, width, height, XLast(LineOf(f, y - 1))));
    }
  }

  /** A triangle never lowers a stored depth. */
  lemma RecordDeeper(b: Buffers, r: seq<real>, attributes: int, statics: int, width: int, height: int)
    requires Sized(b, attributes, statics, width, height) && |r| >= Pitch(attributes, statics) && Inside(r, width, height)
    ensures Deeper(b, RasterRecord(b, r, attributes, statics, width, height))
  {
    var f := SetupOf(r, width, height);
    RowsDeeper(b, r, attributes, statics, f, width, height, f.ycut[2]);
  }

  /** Drawing the first `count` records of a stream never lowers a stored depth. */
  lemma {:induction false} RasterDeeper(b: Buffers, s: seq<real>, attributes: int, statics: int, width: int, height: int, count: int)
    requires Sized(b, attributes, statics, width, height) && 0 <= count && AllInside(s, attributes, statics, count, width, height)
    ensures Deeper(b, RasterUpTo(b, s, attributes, statics, width, height, count))
    decreases count
  {
    if count != 0 {
      var pitch := Pitch(attributes, statics);
      var next := RasterRecord(b, s[..pitch], attributes, statics, width, height);
      RecordDeeper(b, s[..pitch], attributes, statics, width, height);
      RasterDeeper(next, s[pitch..], attributes, statics, width, height, count - 1);
      DeeperTrans(b, next, RasterUpTo(next, s[pitch..], attributes, statics, width, height, count - 1));
    }
  }

  // --- The routine --------------------------------------------------------------------------------

  /** One pixel: the depth test, then the attribute loop and the copy of the statics. */
  method PlotPixel(zbuff: array<real>, abuff: array<real>, r: seq<real>, attributes: int, statics: int,
                   f: Setup, y: int, width: int, height: int, x: int)
    requires zbuff != abuff
    requires Sized(Buffers(zbuff[..], abuff[..]), attributes, statics, width, height) && |r| >= Pitch(attributes, statics) && Valid(f)
    requires f.ycut[0] <= y < f.ycut[2] && XFirst(LineOf(f, y)) <= x < XLast(LineOf(f, y))
    requires 0 <= x < width && 0 <= y < height
    modifies zbuff, abuff
    ensures Buffers(zbuff[..], abuff[..]) == Pixel(old(Buffers(zbuff[..], abuff[..])), r, attributes, statics, f, y, width, height, x)
  {
    var l := LineOf(f, y);
    var t2 := T2(l, x);
    var winterp := Blend(r, f, l, t2, [1.0, 1.0, 1.0]);
    var z := Blend(r, f, l, t2, Depths(r));
    CellFits(Buffers(zbuff[..], abuff[..]), attributes, statics, width, height, x, y);
    var cell := x + width * y;
    assert cell == Cell(width, x, y);
    if z < zbuff[cell] {
      return;
    }
    zbuff[cell] := z;
    WriteRecord(abuff, (attributes + statics) * cell, r, attributes, statics, f, l, t2, winterp);
  }

  /** The writes of a kept pixel: the attribute loop, then the copy of the statics, from `base` on. */
  method WriteRecord(abuff: array<real>, base: int, r: seq<real>, attributes: int, statics: int, f: Setup, l: Line, t2: real, winterp: real)
    requires 0 <= attributes && 0 <= statics && |r| >= Pitch(attributes, statics) && Valid(f) && 0 <= l.v0 < 3 && 0 <= l.v1 < 3
    requires winterp == Blend(r, f, l, t2, [1.0, 1.0, 1.0])
    requires 0 <= base && base + attributes + statics <= abuff.Length
    modifies abuff
    ensures abuff[..] == Put(old(abuff[..]), base, PixelRecord(r, attributes, statics, f, l, t2))
  {
    ghost var rec := PixelRecord(r, attributes, statics, f, l, t2);
    WriteAttributes(abuff, base, r, attributes, f, l, t2, winterp);
    CopyStatics(abuff, base + attributes, r, attributes, statics);
    assert rec == rec[..attributes] + r[StatOff(attributes)..Pitch(attributes, statics)];
    PutPut(old(abuff[..]), base, rec[..attributes], r[StatOff(attributes)..Pitch(attributes, statics)]);
  }

  /** The attribute loop: attribute i of the pixel, its blend divided by winterp, goes to base + i. */
  method WriteAttributes(abuff: array<real>, base: int, r: seq<real>, attributes: int, f: Setup, l: Line, t2: real, winterp: real)
    requires 0 <= attributes && |r| >= StatOff(attributes) && Valid(f) && 0 <= l.v0 < 3 && 0 <= l.v1 < 3
    requires winterp == Blend(r, f, l, t2, [1.0, 1.0, 1.0])
    requires 0 <= base && base + attributes <= abuff.Length
    modifies abuff
    ensures abuff[..] == Put(old(abuff[..]), base, seq(attributes, i requires 0 <= i < attributes => PixelAttr(r, attributes, f, l, t2, i)))
  {
    ghost var a0 := abuff[..];
    ghost var vals := seq(attributes, i requires 0 <= i < attributes => PixelAttr(r, attributes, f, l, t2, i));
    for i := 0 to attributes
      invariant abuff[..] == Put(a0, base, vals[..i])
    {
      abuff[base + i] := Div(Blend(r, f, l, t2, AttrColumn(r, attributes, i)), winterp);
      PutSnoc(a0, base, vals[..i], vals[i]);
      assert vals[..i + 1] == vals[..i] + [vals[i]];
    }
    assert vals[..attributes] == vals;
  }

  /** The memcpy of the triangle's statics to base. */
  method CopyStatics(abuff: array<real>, base: int, r: seq<real>, attributes: int, statics: int)
    requires 0 <= attributes && 0 <= statics && |r| >= Pitch(attributes, statics)
    requires 0 <= base && base + statics <= abuff.Length
    modifies abuff
    ensures abuff[..] == Put(old(abuff[..]), base, r[StatOff(attributes)..Pitch(attributes, statics)])
  {
    ghost var a0 := abuff[..];
    ghost var vals := r[StatOff(attributes)..Pitch(attributes, statics)];
    for k := 0 to statics
      invariant abuff[..] == Put(a0, base, vals[..k])
    {
      abuff[base + k] := r[StatOff(attributes) + k];
      PutSnoc(a0, base, vals[..k], vals[k]);
      assert vals[..k + 1] == vals[..k] + [vals[k]];
    }
    assert vals[..statics] == vals;
  }

  /** The pixels of scanline y, left to right. */
  method RasterRow(zbuff: array<real>, abuff: array<real>, r: seq<real>, attributes: int, statics: int,
                   f: Setup, y: int, width: int, height: int)
    requires zbuff != abuff
    requires Sized(Buffers(zbuff[..], abuff[..]), attributes, statics, width, height) && |r| >= Pitch(attributes, statics) && Valid(f)
    requires f.ycut[0] <= y < f.ycut[2] && RowInside(f, y, width, height)
    modifies zbuff, abuff
    ensures Buffers(zbuff[..], abuff[..]) ==
      RowUpTo(old(Buffers(zbuff[..], abuff[..])), r, attributes, statics, f, y, width, height, XLast(LineOf(f, y)))
  {
    ghost var b0 := Buffers(zbuff[..], abuff[..]);
    var l := LineOf(f, y);
    for x := XFirst(l) to XLast(l)
      invariant Buffers(zbuff[..], abuff[..]) == RowUpTo(b0, r, attributes, statics, f, y, width, height, x)
    {
      PlotPixel(zbuff, abuff, r, attributes, statics, f, y, width, height, x);
    }
  }

  /** The scanlines of the triangle, from ycut[0] up to, not including, ycut[2]. */
  method RasterRows(zbuff: array<real>, abuff: array<real>, r: seq<real>, attributes: int, statics: int,
                    f: Setup, width: int, height: int)
    requires zbuff != abuff
    requires Sized(Buffers(zbuff[..], abuff[..]), attributes, statics, width, height) && |r| >= Pitch(attributes, statics) && Valid(f)
    requires RowsInside(f, width, height)
    modifies zbuff, abuff
    ensures Buffers(zbuff[..], abuff[..]) ==
      RowsUpTo(old(Buffers(zbuff[..], abuff[..])), r, attributes, statics, f, width, height, f.ycut[2])
  {
    ghost var b0 := Buffers(zbuff[..], abuff[..]);
    for y := f.ycut[0] to f.ycut[2]
      invariant Buffers(zbuff[..], abuff[..]) == RowsUpTo(b0, r, attributes, statics, f, width, height, y)
    {
      RasterRow(zbuff, abuff, r, attributes, statics, f, y, width, height);
    }
  }

  /** One record: the vertex ranking, then its scanlines. */
  method RasterTriangle(zbuff: array<real>, abuff: array<real>, ctriangle: seq<real>, attributes: int, statics: int,
                        width: int, height: int)
    requires zbuff != abuff
    requires Sized(Buffers(zbuff[..], abuff[..]), attributes, statics, width, height) && |ctriangle| >= Pitch(attributes, statics)
    requires Inside(ctriangle, width, height)
    modifies zbuff, abuff
    ensures Buffers(zbuff[..], abuff[..]) == RasterRecord(old(Buffers(zbuff[..], abuff[..])), ctriangle, attributes, statics, width, height)
  {
    var f := SetupTriangle(ctriangle, width, height);
    RasterRows(zbuff, abuff, ctriangle, attributes, statics, f, width, height);
  }

  /**
   * GCORE_TriangleRaster: draws `count` records of `buff` into the depth buffer `zbuff` and the
   * attribute buffer `abuff`, a width x height raster, keeping at each pixel the largest depth.
   */
  method TriangleRaster(buff: array<real>, attributes: int, statics: int, count: int,
                        zbuff: array<real>, abuff: array<real>, width: int, height: int)
    requires zbuff != abuff && buff != zbuff && buff != abuff
    requires Sized(Buffers(zbuff[..], abuff[..]), attributes, statics, width, height)
    requires 0 <= count && AllInside(buff[..], attributes, statics, count, width, height)
    modifies zbuff, abuff
    ensures Buffers(zbuff[..], abuff[..]) ==
      RasterUpTo(old(Buffers(zbuff[..], abuff[..])), buff[..], attributes, statics, width, height, count)
  {
    ghost var final := RasterUpTo(Buffers(zbuff[..], abuff[..]), buff[..], attributes, statics, width, height, count);
    var ctriangle := buff[..];
    var pitch := Pitch(attributes, statics);
    for n := 0 to count
      invariant AllInside(ctriangle, attributes, statics, count - n, width, height)
      invariant RasterUpTo(Buffers(zbuff[..], abuff[..]), ctriangle, attributes, statics, width, height, count - n) == final
    {
      RasterTriangle(zbuff, abuff, ctriangle[..pitch], attributes, statics, width, height);
      ctriangle := ctriangle[pitch..];
    }
  }
}
