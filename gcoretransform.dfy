/**
 * GCORE_TransformTriangles: every record of the stream is transformed in place. The three positions
 * go through projection * view * world; a per-vertex normal (three doubles at `anormal + A * i`) and a
 * per-triangle normal (three doubles at `snormal`) go through the inverse transpose of world, read as a
 * direction (w = 0). The written-back normal is a whole four-double vector: its fourth component lands
 * in the double after the normal.
 *
 * The specification works on the stream as a sequence: each write of the routine is a `Put`, done
 * in the routine's order, so a write that lands on a later read is seen by that read.
 */
module GCoreTransform {
  import opened M3D
  import opened GCoreStream

  /** The four doubles at `at`, as a vector. */
  function ReadVector(s: seq<real>, at: int): Vec4
    requires 0 <= at && at + 4 <= |s|
  {
    Vec4(s[at], s[at + 1], s[at + 2], s[at + 3])
  }

  /** The three doubles at `at`, as a direction: the `temp2[3] = 0` of the routine. */
  function ReadNormal(s: seq<real>, at: int): (n: Vec4)
    requires 0 <= at && at + 3 <= |s|
    ensures n.w == 0.0
  {
    Vec4(s[at], s[at + 1], s[at + 2], 0.0)
  }

  /** The position doubles of vertices 0 .. k-1 of t, each vertex transformed by m; k = 3 gives a record's twelve. */
  function Positions(m: Mat4, t: seq<Vec4>, k: int): (p: seq<real>)
    requires |t| == 3 && 0 <= k <= 3
    ensures |p| == 4 * k
  {
    if k == 0 then [] else Positions(m, t, k - 1) + Pos(Transform(m, t[k - 1]))
  }

  /** Vertex i of `Positions` is vertex i transformed. */
  lemma {:induction false} PositionsAt(m: Mat4, t: seq<Vec4>, k: int, i: int)
    requires |t| == 3 && 0 <= i < k <= 3
    ensures Positions(m, t, k)[4 * i..4 * i + 4] == Pos(Transform(m, t[i]))
  {
    if i < k - 1 {
      PositionsAt(m, t, k - 1, i);
      assert Positions(m, t, k)[..4 * (k - 1)] == Positions(m, t, k - 1);
    }
  }

  /**
   * The normal at `at` transformed by m and written back. `width` doubles of the result are stored:
   * the routine stores 4 (M3D_Transform writes a whole vector); 3 is the evident intent.
   */
  function WriteNormal(s: seq<real>, at: int, m: Mat4, width: int): (r: seq<real>)
    requires width == 3 || width == 4
    requires 0 <= at && at + width <= |s|
    ensures |r| == |s|
  {
    Put(s, at, Pos(Transform(m, ReadNormal(s, at)))[..width])
  }

  /** The transformed normal at `at`, all four components. */
  function NormalImage(s: seq<real>, at: int, m: Mat4): (v: seq<real>)
    requires 0 <= at && at + 3 <= |s|
    ensures |v| == 4
  {
    Pos(Transform(m, ReadNormal(s, at)))
  }

  /** Double q after a normal write-back: the transformed normal inside the window, the old double outside it. */
  lemma WriteNormalCell(s: seq<real>, at: int, m: Mat4, width: int, q: int)
    requires width == 3 || width == 4
    requires 0 <= at && at + width <= |s| && 0 <= q < |s|
    ensures WriteNormal(s, at, m, width)[q] == if at <= q < at + width then NormalImage(s, at, m)[q - at] else s[q]
  {
  }

  /** Where the positions, the static normal and per-vertex normal i of the record at `base` are written. */
  ghost predicate Fits(len: int, base: int, attributes: int, anormal: int, snormal: int, width: int)
  {
    0 <= base && base + 12 <= len &&
    (snormal != -1 ==> 0 <= base + snormal && base + snormal + width <= len) &&
    (anormal != -1 ==> 0 <= base + anormal && base + anormal + 2 * attributes + width <= len)
  }

  /** The per-vertex normals of vertices 0 .. k-1, written back one after another. */
  function VertexNormals(s: seq<real>, base: int, attributes: int, anormal: int, m: Mat4, width: int, k: int): (r: seq<real>)
    requires 0 <= attributes && 0 <= k <= 3 && (width == 3 || width == 4)
    requires 0 <= base + anormal && base + anormal + 2 * attributes + width <= |s|
    ensures |r| == |s|
  {
    if k == 0 then s
    else
      var at := NormalAt(base, attributes, anormal, k - 1);
      FlatIndex.MulMonotone(k - 1, 2, attributes);
      WriteNormal(VertexNormals(s, base, attributes, anormal, m, width, k - 1), at, m, width)
  }

  /** One record of GCORE_TransformTriangles: positions, then the static normal, then the vertex normals. */
  function TransformRecord(s: seq<real>, base: int, attributes: int, coord: Mat4, norm: Mat4,
                           anormal: int, snormal: int, width: int): (r: seq<real>)
    requires 0 <= attributes && (width == 3 || width == 4)
    requires Fits(|s|, base, attributes, anormal, snormal, width)
    ensures |r| == |s|
  {
    NormalStages(PositionStage(s, base, coord), base, attributes, norm, anormal, snormal, width)
  }

  /** The positions of the record at base, transformed and written back. */
  function PositionStage(s: seq<real>, base: int, coord: Mat4): (r: seq<real>)
    requires 0 <= base && base + 12 <= |s|
    ensures |r| == |s|
  {
    Put(s, base, Positions(coord, Tri(s[base..base + 12]), 3))
  }

  /** The static normal written back, when its offset is not -1. */
  function StaticStage(s: seq<real>, base: int, norm: Mat4, snormal: int, width: int): (r: seq<real>)
    requires width == 3 || width == 4
    requires snormal != -1 ==> 0 <= base + snormal && base + snormal + width <= |s|
    ensures |r| == |s|
  {
    if snormal != -1 then WriteNormal(s, base + snormal, norm, width) else s
  }

  /** The normal writes of one record: the static normal, then the vertex normals, each only when its offset is not -1. */
  function NormalStages(s: seq<real>, base: int, attributes: int, norm: Mat4, anormal: int, snormal: int, width: int): (r: seq<real>)
    requires 0 <= attributes && (width == 3 || width == 4)
    requires Fits(|s|, base, attributes, anormal, snormal, width)
    ensures |r| == |s|
  {
    var s2 := StaticStage(s, base, norm, snormal, width);
    if anormal != -1 then VertexNormals(s2, base, attributes, anormal, norm, width, 3) else s2
  }

  /** Record n of the stream has all its writes inside the buffer. */
  ghost predicate RecordFits(len: int, pitch: int, n: int, attributes: int, anormal: int, snormal: int, width: int)
  {
    Fits(len, n * pitch, attributes, anormal, snormal, width)
  }

  /** Every write of the first `count` records lies inside the buffer: what the routine demands of its caller. */
  ghost predicate AllFit(len: int, attributes: int, statics: int, count: int, anormal: int, snormal: int, width: int)
  {
    forall n :: 0 <= n < count ==> RecordFits(len, Pitch(attributes, statics), n, attributes, anormal, snormal, width)
  }

  /** The stream after the first k records, transformed one after another. */
  function TransformUpTo(s: seq<real>, attributes: int, statics: int, k: int, coord: Mat4, norm: Mat4,
                         anormal: int, snormal: int, width: int): (r: seq<real>)
    requires 0 <= attributes && 0 <= statics && 0 <= k && (width == 3 || width == 4)
    requires AllFit(|s|, attributes, statics, k, anormal, snormal, width)
    ensures |r| == |s|
    decreases k, 0
  {
    if k == 0 then s else TransformThrough(s, attributes, statics, k - 1, coord, norm, anormal, snormal, width)
  }

  /**
   * The stream once records 0 .. n are transformed. TransformUpTo, TransformThrough and RecordAfter
   * call each other in a ring, so the verifier unrolls a stream a record at a time and opens a
   * record's stores only where a proof names them (TransformUpToStep).
   */
  function TransformThrough(s: seq<real>, attributes: int, statics: int, n: int, coord: Mat4, norm: Mat4,
                            anormal: int, snormal: int, width: int): (r: seq<real>)
    requires 0 <= attributes && 0 <= statics && 0 <= n && (width == 3 || width == 4)
    requires AllFit(|s|, attributes, statics, n + 1, anormal, snormal, width)
    ensures |r| == |s|
    decreases n, 2
  {
    RecordAfter(s, attributes, statics, n, coord, norm, anormal, snormal, width)
  }

  /** Record n transformed in the stream the records before it left. */
  function RecordAfter(s: seq<real>, attributes: int, statics: int, n: int, coord: Mat4, norm: Mat4,
                       anormal: int, snormal: int, width: int): (r: seq<real>)
    requires 0 <= attributes && 0 <= statics && 0 <= n && (width == 3 || width == 4)
    requires AllFit(|s|, attributes, statics, n + 1, anormal, snormal, width)
    ensures |r| == |s|
    decreases n, 1
  {
    var prior := TransformUpTo(s, attributes, statics, n, coord, norm, anormal, snormal, width);
    assert RecordFits(|s|, Pitch(attributes, statics), n, attributes, anormal, snormal, width);
    TransformRecord(prior, n * Pitch(attributes, statics), attributes, coord, norm, anormal, snormal, width)
  }

  /** One more record. */
  lemma TransformUpToStep(s: seq<real>, attributes: int, statics: int, k: int, coord: Mat4, norm: Mat4,
                          anormal: int, snormal: int, width: int)
    requires 0 <= attributes && 0 <= statics && 0 <= k && (width == 3 || width == 4)
    requires AllFit(|s|, attributes, statics, k + 1, anormal, snormal, width)
    ensures AllFit(|s|, attributes, statics, k, anormal, snormal, width)
    ensures Fits(|s|, k * Pitch(attributes, statics), attributes, anormal, snormal, width)
    ensures TransformUpTo(s, attributes, statics, k + 1, coord, norm, anormal, snormal, width) ==
      TransformRecord(TransformUpTo(s, attributes, statics, k, coord, norm, anormal, snormal, width),
                      k * Pitch(attributes, statics), attributes, coord, norm, anormal, snormal, width)
  {
    assert RecordFits(|s|, Pitch(attributes, statics), k, attributes, anormal, snormal, width);
    assert TransformUpTo(s, attributes, statics, k + 1, coord, norm, anormal, snormal, width)
        == TransformThrough(s, attributes, statics, k, coord, norm, anormal, snormal, width);
    assert TransformThrough(s, attributes, statics, k, coord, norm, anormal, snormal, width)
        == RecordAfter(s, attributes, statics, k, coord, norm, anormal, snormal, width);
  }

  /** The coordinate transform of the routine: projection * (view * world). */
  function CoordTransform(world: Mat4, view: Mat4, projection: Mat4): Mat4
  {
    Multiply(projection, Multiply(view, world))
  }

  /** The normal transform of the routine, the inverse transpose of world; unused (the identity here) when no normal is transformed. */
  function NormalTransform(world: Mat4, used: bool): Mat4
    requires used ==> InverseDivisor(world) != 0.0
  {
    if used then InverseTranspose(world) else Identity()
  }

  // --- The routine ---------------------------------------------------------------------------

  /** `M3D_Transform(m, v, buff + at)`: the four components of m * v stored at `at`. */
  method Store(buff: array<real>, at: int, m: Mat4, v: Vec4)
    requires 0 <= at && at + 4 <= buff.Length
    modifies buff
    ensures buff[..] == Put(old(buff[..]), at, Pos(Transform(m, v)))
  {
    var r := Transform(m, v);
    buff[at] := r.x;
    buff[at + 1] := r.y;
    buff[at + 2] := r.z;
    buff[at + 3] := r.w;
  }

  /** The `memcpy(temp2, ...); temp2[3] = 0; M3D_Transform(...)` step for a normal at `at`. */
  method StoreNormal(buff: array<real>, at: int, m: Mat4)
    requires 0 <= at && at + 4 <= buff.Length
    modifies buff
    ensures buff[..] == WriteNormal(old(buff[..]), at, m, 4)
  {
    var temp2 := Vec4(buff[at], buff[at + 1], buff[at + 2], 0.0);
    assert temp2 == ReadNormal(buff[..], at);
    Store(buff, at, m, temp2);
    assert Pos(Transform(m, temp2))[..4] == Pos(Transform(m, temp2));
  }

  /** The `memcpy(temp1, ...)` copy of the positions and the three `M3D_Transform` calls that store them. */
  method StorePositions(buff: array<real>, base: int, coord: Mat4)
    requires 0 <= base && base + 12 <= buff.Length
    modifies buff
    ensures buff[..] == Put(old(buff[..]), base, Positions(coord, Tri(old(buff[..])[base..base + 12]), 3))
  {
    ghost var s := buff[..];
    var temp1 := Tri(buff[base..base + 12]);
    assert temp1 == Tri(s[base..base + 12]);
    for i := 0 to 3
      invariant buff[..] == Put(s, base, Positions(coord, temp1, i))
    {
      Store(buff, base + 4 * i, coord, temp1[i]);
      PutPut(s, base, Positions(coord, temp1, i), Pos(Transform(coord, temp1[i])));
    }
  }

  /** The routine's loop over the three per-vertex normals. */
  method StoreVertexNormals(buff: array<real>, base: int, attributes: int, anormal: int, norm: Mat4)
    requires 0 <= attributes && 0 <= base + anormal && base + anormal + 2 * attributes + 4 <= buff.Length
    modifies buff
    ensures buff[..] == VertexNormals(old(buff[..]), base, attributes, anormal, norm, 4, 3)
  {
    ghost var s := buff[..];
    for i := 0 to 3
      invariant buff[..] == VertexNormals(s, base, attributes, anormal, norm, 4, i)
    {
      var offset := anormal + attributes * i;
      FlatIndex.MulMonotone(i, 2, attributes);
      assert base + offset == base + anormal + attributes * i;
      VertexNormalsStep(s, base, attributes, anormal, norm, 4, i);
      StoreNormal(buff, base + anormal + attributes * i, norm);
    }
  }

  /** One more vertex normal. */
  lemma VertexNormalsStep(s: seq<real>, base: int, attributes: int, anormal: int, m: Mat4, width: int, k: int)
    requires 0 <= attributes && 0 <= k < 3 && (width == 3 || width == 4)
    requires 0 <= base + anormal && base + anormal + 2 * attributes + width <= |s|
    ensures 0 <= NormalAt(base, attributes, anormal, k) && NormalAt(base, attributes, anormal, k) + width <= |s|
    ensures VertexNormals(s, base, attributes, anormal, m, width, k + 1) ==
      WriteNormal(VertexNormals(s, base, attributes, anormal, m, width, k), NormalAt(base, attributes, anormal, k), m, width)
  {
    FlatIndex.MulMonotone(k, 2, attributes);
  }

  /** One record: the body of the routine's loop over triangles. */
  method TransformRecordAt(buff: array<real>, base: int, attributes: int, coord: Mat4, norm: Mat4,
                           anormal: int, snormal: int)
    requires 0 <= attributes && Fits(buff.Length, base, attributes, anormal, snormal, 4)
    modifies buff
    ensures buff[..] == TransformRecord(old(buff[..]), base, attributes, coord, norm, anormal, snormal, 4)
  {
    StorePositions(buff, base, coord);
    StoreNormals(buff, base, attributes, norm, anormal, snormal);
  }

  /** The static normal, then the vertex normals, of the record at base. */
  method StoreNormals(buff: array<real>, base: int, attributes: int, norm: Mat4, anormal: int, snormal: int)
    requires 0 <= attributes && Fits(buff.Length, base, attributes, anormal, snormal, 4)
    modifies buff
    ensures buff[..] == NormalStages(old(buff[..]), base, attributes, norm, anormal, snormal, 4)
  {
    if snormal != -1 {
      StoreNormal(buff, base + snormal, norm);
    }
    if anormal != -1 {
      StoreVertexNormals(buff, base, attributes, anormal, norm);
    }
  }

  /** cur is s with its first n records transformed, as the routine does it. */
  ghost predicate Transformed(cur: seq<real>, s: seq<real>, attributes: int, statics: int, n: int, coord: Mat4, norm: Mat4,
                              anormal: int, snormal: int)
  {
    0 <= attributes && 0 <= statics && 0 <= n && AllFit(|s|, attributes, statics, n, anormal, snormal, 4) &&
    cur == TransformUpTo(s, attributes, statics, n, coord, norm, anormal, snormal, 4)
  }

  /** Record n transformed in place: the stream goes from n to n + 1 records transformed. */
  method TransformNext(buff: array<real>, attributes: int, statics: int, count: int, coord: Mat4, norm: Mat4,
                       anormal: int, snormal: int, ghost s: seq<real>, n: int, base: int)
    requires 0 <= attributes && 0 <= statics && 0 <= n < count && base == n * Pitch(attributes, statics)
    requires |s| == buff.Length && AllFit(|s|, attributes, statics, count, anormal, snormal, 4)
    requires Transformed(buff[..], s, attributes, statics, n, coord, norm, anormal, snormal)
    modifies buff
    ensures Transformed(buff[..], s, attributes, statics, n + 1, coord, norm, anormal, snormal)
  {
    assert AllFit(|s|, attributes, statics, n + 1, anormal, snormal, 4) by {
      forall m | 0 <= m < n + 1
        ensures RecordFits(|s|, Pitch(attributes, statics), m, attributes, anormal, snormal, 4)
      {
        assert m < count;
      }
    }
    TransformUpToStep(s, attributes, statics, n, coord, norm, anormal, snormal, 4);
    TransformRecordAt(buff, base, attributes, coord, norm, anormal, snormal);
  }

  /**
   * GCORE_TransformTriangles on `count` records of `buff`. The routine is declared to return an int
   * but returns nothing; the model returns nothing. The normal transform is formed only when a normal
   * is transformed (it needs a non-singular world matrix, see README).
   */
  method TransformTriangles(buff: array<real>, attributes: int, statics: int, count: int, anormal: int, snormal: int,
                            world: Mat4, view: Mat4, projection: Mat4)
    requires 0 <= attributes && 0 <= statics && 0 <= count
    requires AllFit(buff.Length, attributes, statics, count, anormal, snormal, 4)
    requires (anormal != -1 || snormal != -1) ==> InverseDivisor(world) != 0.0
    modifies buff
    ensures buff[..] == TransformUpTo(old(buff[..]), attributes, statics, count, CoordTransform(world, view, projection),
                                      NormalTransform(world, anormal != -1 || snormal != -1), anormal, snormal, 4)
  {
    var pitch := Pitch(attributes, statics);
    var normtrans := Identity();
    if anormal != -1 || snormal != -1 {
      normtrans := InverseTranspose(world);
    }
    assert normtrans == NormalTransform(world, anormal != -1 || snormal != -1);
    var temp := Multiply(view, world);
    var coordtrans := Multiply(projection, temp);
    assert coordtrans == CoordTransform(world, view, projection);
    ghost var s := buff[..];
    for n := 0 to count
      invariant Transformed(buff[..], s, attributes, statics, n, coordtrans, normtrans, anormal, snormal)
    {
      TransformNext(buff, attributes, statics, count, coordtrans, normtrans, anormal, snormal, s, n, n * pitch);
    }
  }

  // --- What a record becomes --------------------------------------------------------------------

  /** Where per-vertex normal i of the record at base lies. */
  function NormalAt(base: int, attributes: int, anormal: int, i: int): (at: int)
    ensures i == 0 ==> at == base + anormal
    ensures i == 1 ==> at == base + anormal + attributes
    ensures i == 2 ==> at == base + anormal + 2 * attributes
  {
    base + anormal + attributes * i
  }

  /** The three per-vertex normal writes of a record, one after another. */
  lemma VertexNormalsThree(s: seq<real>, base: int, attributes: int, anormal: int, m: Mat4, width: int)
    requires 0 <= attributes && (width == 3 || width == 4)
    requires 0 <= base + anormal && base + anormal + 2 * attributes + width <= |s|
    ensures NormalAt(base, attributes, anormal, 0) == base + anormal
    ensures NormalAt(base, attributes, anormal, 1) == base + anormal + attributes
    ensures NormalAt(base, attributes, anormal, 2) == base + anormal + 2 * attributes
    ensures VertexNormals(s, base, attributes, anormal, m, width, 3)
      == WriteNormal(WriteNormal(WriteNormal(s, NormalAt(base, attributes, anormal, 0), m, width),
                                 NormalAt(base, attributes, anormal, 1), m, width),
                     NormalAt(base, attributes, anormal, 2), m, width)
  {
    VertexNormalsStep(s, base, attributes, anormal, m, width, 0);
    VertexNormalsStep(s, base, attributes, anormal, m, width, 1);
    VertexNormalsStep(s, base, attributes, anormal, m, width, 2);
  }

  /** The per-vertex normal stores spelled out, when anormal is not -1. */
  function VertexStage(s: seq<real>, base: int, attributes: int, norm: Mat4, anormal: int, width: int): (r: seq<real>)
    requires 0 <= attributes && (width == 3 || width == 4)
    requires anormal != -1 ==> 0 <= base + anormal && base + anormal + 2 * attributes + width <= |s|
    ensures |r| == |s|
  {
    if anormal == -1 then s
    else WriteNormal(WriteNormal(WriteNormal(s, NormalAt(base, attributes, anormal, 0), norm, width),
                                 NormalAt(base, attributes, anormal, 1), norm, width),
                     NormalAt(base, attributes, anormal, 2), norm, width)
  }

  /** The stores of a record, one stage after another. */
  function Stages(s: seq<real>, base: int, attributes: int, coord: Mat4, norm: Mat4,
                  anormal: int, snormal: int, width: int): (r: seq<real>)
    requires 0 <= attributes && (width == 3 || width == 4)
    requires Fits(|s|, base, attributes, anormal, snormal, width)
    ensures |r| == |s|
  {
    VertexStage(StaticStage(PositionStage(s, base, coord), base, norm, snormal, width), base, attributes, norm, anormal, width)
  }

  /** A record's stores, spelled out one after another. */
  lemma RecordChain(s: seq<real>, base: int, attributes: int, coord: Mat4, norm: Mat4,
                    anormal: int, snormal: int, width: int)
    requires 0 <= attributes && (width == 3 || width == 4)
    requires Fits(|s|, base, attributes, anormal, snormal, width)
    ensures TransformRecord(s, base, attributes, coord, norm, anormal, snormal, width)
      == Stages(s, base, attributes, coord, norm, anormal, snormal, width)
  {
    if anormal != -1 {
      VertexNormalsThree(StaticStage(PositionStage(s, base, coord), base, norm, snormal, width), base, attributes, anormal, norm, width);
    }
  }

  /** at <= q < at + width. */
  ghost predicate InWindow(q: int, at: int, width: int)
  {
    at <= q < at + width
  }

  /** Double q of the record at base is written by none of the routine's stores. */
  ghost predicate Untouched(q: int, base: int, attributes: int, anormal: int, snormal: int, width: int)
  {
    !InWindow(q, base, 12) &&
    (snormal != -1 ==> !InWindow(q, base + snormal, width)) &&
    (anormal != -1 ==> forall i :: 0 <= i < 3 ==> !InWindow(q, NormalAt(base, attributes, anormal, i), width))
  }

  /** A record transformed in place changes only the doubles the routine stores to. */
  lemma RecordUnchanged(s: seq<real>, base: int, attributes: int, coord: Mat4, norm: Mat4,
                        anormal: int, snormal: int, width: int, q: int)
    requires 0 <= attributes && (width == 3 || width == 4)
    requires Fits(|s|, base, attributes, anormal, snormal, width) && 0 <= q < |s|
    requires Untouched(q, base, attributes, anormal, snormal, width)
    ensures TransformRecord(s, base, attributes, coord, norm, anormal, snormal, width)[q] == s[q]
  {
    RecordChain(s, base, attributes, coord, norm, anormal, snormal, width);
    StagesUnchanged(s, base, attributes, coord, norm, anormal, snormal, width, q);
  }

  lemma StagesUnchanged(s: seq<real>, base: int, attributes: int, coord: Mat4, norm: Mat4,
                        anormal: int, snormal: int, width: int, q: int)
    requires 0 <= attributes && (width == 3 || width == 4)
    requires Fits(|s|, base, attributes, anormal, snormal, width) && 0 <= q < |s|
    requires Untouched(q, base, attributes, anormal, snormal, width)
    ensures Stages(s, base, attributes, coord, norm, anormal, snormal, width)[q] == s[q]
  {
    var s1 := PositionStage(s, base, coord);
    var s2 := StaticStage(s1, base, norm, snormal, width);
    if snormal != -1 {
      WriteNormalCell(s1, base + snormal, norm, width, q);
    }
    if anormal != -1 {
      VertexStageMiss(s2, base, attributes, norm, anormal, width, q);
    }
  }

  /** The vertex stage leaves a double outside its three windows alone. */
  lemma VertexStageMiss(s: seq<real>, base: int, attributes: int, norm: Mat4, anormal: int, width: int, q: int)
    requires 0 <= attributes && (width == 3 || width == 4)
    requires anormal != -1 && 0 <= base + anormal && base + anormal + 2 * attributes + width <= |s| && 0 <= q < |s|
    requires forall i :: 0 <= i < 3 ==> !InWindow(q, NormalAt(base, attributes, anormal, i), width)
    ensures VertexStage(s, base, attributes, norm, anormal, width)[q] == s[q]
  {
    assert !InWindow(q, NormalAt(base, attributes, anormal, 0), width);
    assert !InWindow(q, NormalAt(base, attributes, anormal, 1), width);
    assert !InWindow(q, NormalAt(base, attributes, anormal, 2), width);
    ThreeWritesMiss(s, NormalAt(base, attributes, anormal, 0), NormalAt(base, attributes, anormal, 1), NormalAt(base, attributes, anormal, 2), norm, width, q);
  }

  /** Three normal write-backs leave a double outside their windows alone. */
  lemma ThreeWritesMiss(s: seq<real>, a0: int, a1: int, a2: int, m: Mat4, width: int, q: int)
    requires width == 3 || width == 4
    requires 0 <= a0 && 0 <= a1 && 0 <= a2 && a0 + width <= |s| && a1 + width <= |s| && a2 + width <= |s| && 0 <= q < |s|
    requires !InWindow(q, a0, width) && !InWindow(q, a1, width) && !InWindow(q, a2, width)
    ensures WriteNormal(WriteNormal(WriteNormal(s, a0, m, width), a1, m, width), a2, m, width)[q] == s[q]
  {
    var u1 := WriteNormal(s, a0, m, width);
    var u2 := WriteNormal(u1, a1, m, width);
    WriteNormalCell(s, a0, m, width, q);
    WriteNormalCell(u1, a1, m, width, q);
    WriteNormalCell(u2, a2, m, width, q);
  }

  /**
   * The layout the routine's stores assume: no normal overlaps the positions, and the static normal
   * lies clear of the span of the per-vertex normals.
   */
  ghost predicate Separate(attributes: int, anormal: int, snormal: int, width: int)
  {
    (snormal != -1 ==> 12 <= snormal) && (anormal != -1 ==> 12 <= anormal) &&
    (snormal != -1 && anormal != -1 ==> snormal + width <= anormal || anormal + 2 * attributes + width <= snormal)
  }

  /** Vertex i of the record at base, read in place. */
  function VertexAt(s: seq<real>, base: int, i: int): Vec4
    requires 0 <= base && 0 <= i < 3 && base + 12 <= |s|
  {
    Vec4(s[base + 4 * i], s[base + 4 * i + 1], s[base + 4 * i + 2], s[base + 4 * i + 3])
  }

  /** Each position of a transformed record is the original vertex transformed by the coordinate matrix. */
  lemma RecordPositions(s: seq<real>, base: int, attributes: int, coord: Mat4, norm: Mat4,
                        anormal: int, snormal: int, width: int, i: int, c: int)
    requires 0 <= attributes && (width == 3 || width == 4)
    requires Fits(|s|, base, attributes, anormal, snormal, width) && Separate(attributes, anormal, snormal, width)
    requires 0 <= i < 3 && 0 <= c < 4
    ensures TransformRecord(s, base, attributes, coord, norm, anormal, snormal, width)[base + 4 * i + c]
      == Pos(Transform(coord, VertexAt(s, base, i)))[c]
  {
    RecordChain(s, base, attributes, coord, norm, anormal, snormal, width);
    StagesPositions(s, base, attributes, coord, norm, anormal, snormal, width, i, c);
  }

  lemma StagesPositions(s: seq<real>, base: int, attributes: int, coord: Mat4, norm: Mat4,
                        anormal: int, snormal: int, width: int, i: int, c: int)
    requires 0 <= attributes && (width == 3 || width == 4)
    requires Fits(|s|, base, attributes, anormal, snormal, width) && Separate(attributes, anormal, snormal, width)
    requires 0 <= i < 3 && 0 <= c < 4
    ensures Stages(s, base, attributes, coord, norm, anormal, snormal, width)[base + 4 * i + c]
      == Pos(Transform(coord, VertexAt(s, base, i)))[c]
  {
    var t := Tri(s[base..base + 12]);
    var p := Positions(coord, t, 3);
    var q := base + 4 * i + c;
    assert t[i] == VertexAt(s, base, i);
    PositionsAt(coord, t, 3, i);
    assert p[4 * i + c] == p[4 * i..4 * i + 4][c];
    var s1 := PositionStage(s, base, coord);
    var s2 := StaticStage(s1, base, norm, snormal, width);
    if snormal != -1 {
      WriteNormalCell(s1, base + snormal, norm, width, q);
    }
    if anormal != -1 {
      VertexStageMiss(s2, base, attributes, norm, anormal, width, q);
    }
  }

  /** The static normal of a transformed record: the transformed original normal, `width` components of it. */
  lemma RecordStaticNormal(s: seq<real>, base: int, attributes: int, coord: Mat4, norm: Mat4,
                           anormal: int, snormal: int, width: int, c: int)
    requires 0 <= attributes && (width == 3 || width == 4)
    requires Fits(|s|, base, attributes, anormal, snormal, width) && Separate(attributes, anormal, snormal, width)
    requires snormal != -1 && 0 <= c < width
    ensures TransformRecord(s, base, attributes, coord, norm, anormal, snormal, width)[base + snormal + c]
      == NormalImage(s, base + snormal, norm)[c]
  {
    RecordChain(s, base, attributes, coord, norm, anormal, snormal, width);
    StagesStaticNormal(s, base, attributes, coord, norm, anormal, snormal, width, c);
  }

  lemma StagesStaticNormal(s: seq<real>, base: int, attributes: int, coord: Mat4, norm: Mat4,
                           anormal: int, snormal: int, width: int, c: int)
    requires 0 <= attributes && (width == 3 || width == 4)
    requires Fits(|s|, base, attributes, anormal, snormal, width) && Separate(attributes, anormal, snormal, width)
    requires snormal != -1 && 0 <= c < width
    ensures Stages(s, base, attributes, coord, norm, anormal, snormal, width)[base + snormal + c]
      == NormalImage(s, base + snormal, norm)[c]
  {
    var at := base + snormal;
    var s1 := PositionStage(s, base, coord);
    assert ReadNormal(s1, at) == ReadNormal(s, at);
    var s2 := StaticStage(s1, base, norm, snormal, width);
    WriteNormalCell(s1, at, norm, width, at + c);
    if anormal != -1 {
      VertexStageMiss(s2, base, attributes, norm, anormal, width, at + c);
    }
  }

  /**
   * Per-vertex normal i of a transformed record, when each write-back stays inside its own vertex's
   * attributes (width <= attributes): the transformed original normal, `width` components of it.
   */
  lemma RecordVertexNormal(s: seq<real>, base: int, attributes: int, coord: Mat4, norm: Mat4,
                           anormal: int, snormal: int, width: int, i: int, c: int)
    requires 0 <= attributes && (width == 3 || width == 4) && width <= attributes
    requires Fits(|s|, base, attributes, anormal, snormal, width) && Separate(attributes, anormal, snormal, width)
    requires anormal != -1 && 0 <= i < 3 && 0 <= c < width
    ensures TransformRecord(s, base, attributes, coord, norm, anormal, snormal, width)[NormalAt(base, attributes, anormal, i) + c]
      == NormalImage(s, NormalAt(base, attributes, anormal, i), norm)[c]
  {
    RecordChain(s, base, attributes, coord, norm, anormal, snormal, width);
    StagesVertexNormal(s, base, attributes, coord, norm, anormal, snormal, width, i, c);
  }

  lemma StagesVertexNormal(s: seq<real>, base: int, attributes: int, coord: Mat4, norm: Mat4,
                           anormal: int, snormal: int, width: int, i: int, c: int)
    requires 0 <= attributes && (width == 3 || width == 4) && width <= attributes
    requires Fits(|s|, base, attributes, anormal, snormal, width) && Separate(attributes, anormal, snormal, width)
    requires anormal != -1 && 0 <= i < 3 && 0 <= c < width
    ensures Stages(s, base, attributes, coord, norm, anormal, snormal, width)[NormalAt(base, attributes, anormal, i) + c]
      == NormalImage(s, NormalAt(base, attributes, anormal, i), norm)[c]
  {
    var s2 := StaticStage(PositionStage(s, base, coord), base, norm, snormal, width);
    StagesKeepNormal(s, base, coord, norm, snormal, width, NormalAt(base, attributes, anormal, i));
    VertexStageNormal(s2, base, attributes, norm, anormal, width, i, c);
  }

  /** Per-vertex normal i after the vertex stage: the transformed normal found there before it. */
  lemma VertexStageNormal(s: seq<real>, base: int, attributes: int, norm: Mat4, anormal: int, width: int, i: int, c: int)
    requires 0 <= attributes && (width == 3 || width == 4) && width <= attributes
    requires anormal != -1 && 0 <= base + anormal && base + anormal + 2 * attributes + width <= |s|
    requires 0 <= i < 3 && 0 <= c < width
    ensures VertexStage(s, base, attributes, norm, anormal, width)[NormalAt(base, attributes, anormal, i) + c]
      == NormalImage(s, NormalAt(base, attributes, anormal, i), norm)[c]
  {
    ThreeWritesApart(s, NormalAt(base, attributes, anormal, 0), NormalAt(base, attributes, anormal, 1), NormalAt(base, attributes, anormal, 2), norm, width, i, c);
  }

  /** The position and static-normal stores leave a normal clear of both windows as it was. */
  lemma StagesKeepNormal(s: seq<real>, base: int, coord: Mat4, norm: Mat4, snormal: int, width: int, at: int)
    requires (width == 3 || width == 4) && 0 <= base && base + 12 <= at && at + 3 <= |s|
    requires snormal != -1 ==> 0 <= base + snormal && base + snormal + width <= |s|
    requires snormal != -1 ==> base + snormal + width <= at || at + 3 <= base + snormal
    ensures ReadNormal(StaticStage(PositionStage(s, base, coord), base, norm, snormal, width), at) == ReadNormal(s, at)
  {
    var s1 := PositionStage(s, base, coord);
    if snormal != -1 {
      WriteNormalCell(s1, base + snormal, norm, width, at);
      WriteNormalCell(s1, base + snormal, norm, width, at + 1);
      WriteNormalCell(s1, base + snormal, norm, width, at + 2);
    }
  }

  /** Three write-backs `attributes` >= width apart: each window ends with its own transformed normal. */
  lemma ThreeWritesApart(s: seq<real>, a0: int, a1: int, a2: int, m: Mat4, width: int, i: int, c: int)
    requires width == 3 || width == 4
    requires 0 <= a0 && a0 + width <= a1 && a1 + width <= a2 && a2 + width <= |s| && a1 - a0 == a2 - a1
    requires 0 <= i < 3 && 0 <= c < width
    ensures var at := if i == 0 then a0 else if i == 1 then a1 else a2;
      WriteNormal(WriteNormal(WriteNormal(s, a0, m, width), a1, m, width), a2, m, width)[at + c] == NormalImage(s, at, m)[c]
  {
    var u1 := WriteNormal(s, a0, m, width);
    var u2 := WriteNormal(u1, a1, m, width);
    var at := if i == 0 then a0 else if i == 1 then a1 else a2;
    WriteNormalCell(s, a0, m, width, at + c);
    WriteNormalCell(u1, a1, m, width, at + c);
    WriteNormalCell(u2, a2, m, width, at + c);
    ReadMisses(s, a0, m, width, a1);
    ReadMisses(s, a0, m, width, a2);
    ReadMisses(u1, a1, m, width, a2);
  }

  /** A normal write-back ending at or before `at` leaves the normal read at `at` as it was. */
  lemma ReadMisses(s: seq<real>, a: int, m: Mat4, width: int, at: int)
    requires width == 3 || width == 4
    requires 0 <= a && a + width <= at && at + 3 <= |s|
    ensures ReadNormal(WriteNormal(s, a, m, width), at) == ReadNormal(s, at)
  {
    WriteNormalCell(s, a, m, width, at);
    WriteNormalCell(s, a, m, width, at + 1);
    WriteNormalCell(s, a, m, width, at + 2);
  }

  // --- What the stream becomes ---------------------------------------------------------------

  /**
   * Every store of a record stays inside that record: the layout a stream of records needs, so that
   * a record is read before any store of another record reaches it.
   */
  ghost predicate InRecord(attributes: int, statics: int, anormal: int, snormal: int, width: int)
  {
    Separate(attributes, anormal, snormal, width) &&
    (snormal != -1 ==> snormal + width <= Pitch(attributes, statics)) &&
    (anormal != -1 ==> anormal + 2 * attributes + width <= Pitch(attributes, statics))
  }

  /** A record transformed in place leaves every double outside it alone. */
  lemma RecordStaysInside(s: seq<real>, base: int, attributes: int, statics: int, coord: Mat4, norm: Mat4,
                          anormal: int, snormal: int, width: int, q: int)
    requires 0 <= attributes && 0 <= statics && (width == 3 || width == 4)
    requires Fits(|s|, base, attributes, anormal, snormal, width) && InRecord(attributes, statics, anormal, snormal, width)
    requires 0 <= q < |s| && !(base <= q < base + Pitch(attributes, statics))
    ensures TransformRecord(s, base, attributes, coord, norm, anormal, snormal, width)[q] == s[q]
  {
    assert Untouched(q, base, attributes, anormal, snormal, width) by {
      if anormal != -1 {
        forall i | 0 <= i < 3 ensures !InWindow(q, NormalAt(base, attributes, anormal, i), width) {
          assert i == 0 || i == 1 || i == 2;
        }
      }
    }
    RecordUnchanged(s, base, attributes, coord, norm, anormal, snormal, width, q);
  }

  /** Record k leaves every double outside it as the first k records left it. */
  lemma StepOutside(s: seq<real>, attributes: int, statics: int, k: int, coord: Mat4, norm: Mat4,
                    anormal: int, snormal: int, width: int, q: int)
    requires 0 <= attributes && 0 <= statics && 0 <= k && (width == 3 || width == 4)
    requires AllFit(|s|, attributes, statics, k + 1, anormal, snormal, width) && InRecord(attributes, statics, anormal, snormal, width)
    requires 0 <= q < |s| && !(k * Pitch(attributes, statics) <= q < k * Pitch(attributes, statics) + Pitch(attributes, statics))
    ensures AllFit(|s|, attributes, statics, k, anormal, snormal, width)
    ensures TransformUpTo(s, attributes, statics, k + 1, coord, norm, anormal, snormal, width)[q]
         == TransformUpTo(s, attributes, statics, k, coord, norm, anormal, snormal, width)[q]
  {
    TransformUpToStep(s, attributes, statics, k, coord, norm, anormal, snormal, width);
    ghost var prior := TransformUpTo(s, attributes, statics, k, coord, norm, anormal, snormal, width);
    ghost var base := k * Pitch(attributes, statics);
    RecordStaysInside(prior, base, attributes, statics, coord, norm, anormal, snormal, width, q);
  }

  /** The doubles at and after record k are as they were before the first k records are transformed. */
  lemma {:induction false} StreamAfter(s: seq<real>, attributes: int, statics: int, k: int, coord: Mat4, norm: Mat4,
                                       anormal: int, snormal: int, width: int, q: int)
    requires 0 <= attributes && 0 <= statics && 0 <= k && (width == 3 || width == 4)
    requires AllFit(|s|, attributes, statics, k, anormal, snormal, width) && InRecord(attributes, statics, anormal, snormal, width)
    requires k * Pitch(attributes, statics) <= q < |s|
    ensures TransformUpTo(s, attributes, statics, k, coord, norm, anormal, snormal, width)[q] == s[q]
  {
    if k > 0 {
      var pitch := Pitch(attributes, statics);
      assert (k - 1) * pitch + pitch == k * pitch;
      StepOutside(s, attributes, statics, k - 1, coord, norm, anormal, snormal, width, q);
      FlatIndex.MulMonotone(k - 1, k, pitch);
      StreamAfter(s, attributes, statics, k - 1, coord, norm, anormal, snormal, width, q);
    }
  }

  /** Once record n is transformed, the later records leave it alone. */
  lemma {:induction false} StreamFrozen(s: seq<real>, attributes: int, statics: int, n: int, k: int, coord: Mat4, norm: Mat4,
                                        anormal: int, snormal: int, width: int, q: int)
    requires 0 <= attributes && 0 <= statics && 0 <= n < k && (width == 3 || width == 4)
    requires AllFit(|s|, attributes, statics, k, anormal, snormal, width) && InRecord(attributes, statics, anormal, snormal, width)
    requires n * Pitch(attributes, statics) <= q < (n + 1) * Pitch(attributes, statics) && q < |s|
    ensures AllFit(|s|, attributes, statics, n + 1, anormal, snormal, width)
    ensures TransformUpTo(s, attributes, statics, k, coord, norm, anormal, snormal, width)[q]
         == TransformUpTo(s, attributes, statics, n + 1, coord, norm, anormal, snormal, width)[q]
    decreases k
  {
    if k > n + 1 {
      FlatIndex.MulMonotone(n + 1, k - 1, Pitch(attributes, statics));
      StepOutside(s, attributes, statics, k - 1, coord, norm, anormal, snormal, width, q);
      StreamFrozen(s, attributes, statics, n, k - 1, coord, norm, anormal, snormal, width, q);
    }
  }

  /** Record n as the routine finds it: untouched by the records before it. */
  lemma RecordAsFound(s: seq<real>, attributes: int, statics: int, n: int, coord: Mat4, norm: Mat4,
                      anormal: int, snormal: int, width: int)
    requires 0 <= attributes && 0 <= statics && 0 <= n && (width == 3 || width == 4)
    requires AllFit(|s|, attributes, statics, n + 1, anormal, snormal, width) && InRecord(attributes, statics, anormal, snormal, width)
    ensures AllFit(|s|, attributes, statics, n, anormal, snormal, width)
    ensures Fits(|s|, n * Pitch(attributes, statics), attributes, anormal, snormal, width)
    ensures var prior := TransformUpTo(s, attributes, statics, n, coord, norm, anormal, snormal, width);
      forall q :: n * Pitch(attributes, statics) <= q < |s| ==> prior[q] == s[q]
  {
    TransformUpToStep(s, attributes, statics, n, coord, norm, anormal, snormal, width);
    forall q | n * Pitch(attributes, statics) <= q < |s|
      ensures TransformUpTo(s, attributes, statics, n, coord, norm, anormal, snormal, width)[q] == s[q]
    {
      StreamAfter(s, attributes, statics, n, coord, norm, anormal, snormal, width, q);
    }
  }

  /** After `count` records, double q of record n is what transforming record n left there. */
  lemma StreamRecord(s: seq<real>, attributes: int, statics: int, count: int, coord: Mat4, norm: Mat4,
                     anormal: int, snormal: int, width: int, n: int, q: int)
    requires 0 <= attributes && 0 <= statics && 0 <= n < count && (width == 3 || width == 4)
    requires AllFit(|s|, attributes, statics, count, anormal, snormal, width) && InRecord(attributes, statics, anormal, snormal, width)
    requires n * Pitch(attributes, statics) <= q < n * Pitch(attributes, statics) + Pitch(attributes, statics) && q < |s|
    ensures AllFit(|s|, attributes, statics, n, anormal, snormal, width)
    ensures Fits(|s|, n * Pitch(attributes, statics), attributes, anormal, snormal, width)
    ensures TransformUpTo(s, attributes, statics, count, coord, norm, anormal, snormal, width)[q]
         == TransformRecord(TransformUpTo(s, attributes, statics, n, coord, norm, anormal, snormal, width),
                            n * Pitch(attributes, statics), attributes, coord, norm, anormal, snormal, width)[q]
  {
    assert (n + 1) * Pitch(attributes, statics) == n * Pitch(attributes, statics) + Pitch(attributes, statics);
    StreamFrozen(s, attributes, statics, n, count, coord, norm, anormal, snormal, width, q);
    TransformUpToStep(s, attributes, statics, n, coord, norm, anormal, snormal, width);
  }

  /** After `count` records, each position of record n is its original vertex transformed by the coordinate matrix. */
  lemma StreamPositions(s: seq<real>, attributes: int, statics: int, count: int, coord: Mat4, norm: Mat4,
                        anormal: int, snormal: int, width: int, n: int, i: int, c: int)
    requires 0 <= attributes && 0 <= statics && 0 <= n < count && (width == 3 || width == 4)
    requires AllFit(|s|, attributes, statics, count, anormal, snormal, width) && InRecord(attributes, statics, anormal, snormal, width)
    requires 0 <= i < 3 && 0 <= c < 4
    ensures 0 <= n * Pitch(attributes, statics) && n * Pitch(attributes, statics) + 12 <= |s|
    ensures TransformUpTo(s, attributes, statics, count, coord, norm, anormal, snormal, width)[n * Pitch(attributes, statics) + 4 * i + c]
         == Pos(Transform(coord, VertexAt(s, n * Pitch(attributes, statics), i)))[c]
  {
    ghost var base := n * Pitch(attributes, statics);
    ghost var q := base + 4 * i + c;
    assert RecordFits(|s|, Pitch(attributes, statics), n, attributes, anormal, snormal, width);
    StreamRecord(s, attributes, statics, count, coord, norm, anormal, snormal, width, n, q);
    RecordAsFound(s, attributes, statics, n, coord, norm, anormal, snormal, width);
    ghost var prior := TransformUpTo(s, attributes, statics, n, coord, norm, anormal, snormal, width);
    assert VertexAt(prior, base, i) == VertexAt(s, base, i);
    RecordPositions(prior, base, attributes, coord, norm, anormal, snormal, width, i, c);
  }

  /** After `count` records, the static normal of record n is its original normal transformed, `width` components of it. */
  lemma StreamStaticNormal(s: seq<real>, attributes: int, statics: int, count: int, coord: Mat4, norm: Mat4,
                           anormal: int, snormal: int, width: int, n: int, c: int)
    requires 0 <= attributes && 0 <= statics && 0 <= n < count && (width == 3 || width == 4)
    requires AllFit(|s|, attributes, statics, count, anormal, snormal, width) && InRecord(attributes, statics, anormal, snormal, width)
    requires snormal != -1 && 0 <= c < width
    ensures 0 <= n * Pitch(attributes, statics) + snormal && n * Pitch(attributes, statics) + snormal + width <= |s|
    ensures TransformUpTo(s, attributes, statics, count, coord, norm, anormal, snormal, width)[n * Pitch(attributes, statics) + snormal + c]
         == NormalImage(s, n * Pitch(attributes, statics) + snormal, norm)[c]
  {
    assert RecordFits(|s|, Pitch(attributes, statics), n, attributes, anormal, snormal, width);
    StreamRecord(s, attributes, statics, count, coord, norm, anormal, snormal, width, n, n * Pitch(attributes, statics) + snormal + c);
    RecordAsFound(s, attributes, statics, n, coord, norm, anormal, snormal, width);
    StaticNormalFrom(TransformUpTo(s, attributes, statics, n, coord, norm, anormal, snormal, width), s, n * Pitch(attributes, statics),
                     attributes, coord, norm, anormal, snormal, width, c);
  }

  /** The static normal of a record transformed in p, where p holds the normal s holds. */
  lemma StaticNormalFrom(p: seq<real>, s: seq<real>, base: int, attributes: int, coord: Mat4, norm: Mat4,
                         anormal: int, snormal: int, width: int, c: int)
    requires 0 <= attributes && (width == 3 || width == 4) && |p| == |s|
    requires Fits(|p|, base, attributes, anormal, snormal, width) && Separate(attributes, anormal, snormal, width)
    requires snormal != -1 && 0 <= c < width
    requires forall q :: base <= q < |s| ==> p[q] == s[q]
    ensures TransformRecord(p, base, attributes, coord, norm, anormal, snormal, width)[base + snormal + c]
         == NormalImage(s, base + snormal, norm)[c]
  {
    assert ReadNormal(p, base + snormal) == ReadNormal(s, base + snormal);
    RecordStaticNormal(p, base, attributes, coord, norm, anormal, snormal, width, c);
  }

  /**
   * After `count` records, per-vertex normal i of record n is its original normal transformed, when
   * each write-back stays inside its own vertex's attributes (width <= attributes).
   */
  lemma StreamVertexNormal(s: seq<real>, attributes: int, statics: int, count: int, coord: Mat4, norm: Mat4,
                           anormal: int, snormal: int, width: int, n: int, i: int, c: int)
    requires 0 <= attributes && 0 <= statics && 0 <= n < count && (width == 3 || width == 4) && width <= attributes
    requires AllFit(|s|, attributes, statics, count, anormal, snormal, width) && InRecord(attributes, statics, anormal, snormal, width)
    requires anormal != -1 && 0 <= i < 3 && 0 <= c < width
    ensures 0 <= NormalAt(n * Pitch(attributes, statics), attributes, anormal, i)
    ensures NormalAt(n * Pitch(attributes, statics), attributes, anormal, i) + width <= |s|
    ensures TransformUpTo(s, attributes, statics, count, coord, norm, anormal, snormal, width)[NormalAt(n * Pitch(attributes, statics), attributes, anormal, i) + c]
         == NormalImage(s, NormalAt(n * Pitch(attributes, statics), attributes, anormal, i), norm)[c]
  {
    ghost var base := n * Pitch(attributes, statics);
    ghost var at := NormalAt(base, attributes, anormal, i);
    assert base + anormal <= at <= base + anormal + 2 * attributes by {
      assert i == 0 || i == 1 || i == 2;
    }
    assert RecordFits(|s|, Pitch(attributes, statics), n, attributes, anormal, snormal, width);
    StreamRecord(s, attributes, statics, count, coord, norm, anormal, snormal, width, n, at + c);
    ghost var prior := TransformUpTo(s, attributes, statics, n, coord, norm, anormal, snormal, width);
    assert ReadNormal(prior, at) == ReadNormal(s, at) by {
      RecordAsFound(s, attributes, statics, n, coord, norm, anormal, snormal, width);
    }
    assert NormalImage(prior, at, norm) == NormalImage(s, at, norm);
    RecordVertexNormal(prior, base, attributes, coord, norm, anormal, snormal, width, i, c);
  }

  /** After `count` records, a double no store of its record touches, and every double past the records, is unchanged. */
  lemma StreamUnchanged(s: seq<real>, attributes: int, statics: int, count: int, coord: Mat4, norm: Mat4,
                        anormal: int, snormal: int, width: int, q: int)
    requires 0 <= attributes && 0 <= statics && 0 <= count && (width == 3 || width == 4)
    requires AllFit(|s|, attributes, statics, count, anormal, snormal, width) && InRecord(attributes, statics, anormal, snormal, width)
    requires 0 <= q < |s|
    requires forall n :: 0 <= n < count && n * Pitch(attributes, statics) <= q < n * Pitch(attributes, statics) + Pitch(attributes, statics) ==>
      Untouched(q, n * Pitch(attributes, statics), attributes, anormal, snormal, width)
    ensures TransformUpTo(s, attributes, statics, count, coord, norm, anormal, snormal, width)[q] == s[q]
  {
    if count * Pitch(attributes, statics) <= q {
      StreamAfter(s, attributes, statics, count, coord, norm, anormal, snormal, width, q);
    } else {
      var n := RecordHolding(q, Pitch(attributes, statics), count);
      StreamUntouched(s, attributes, statics, count, coord, norm, anormal, snormal, width, n, q);
    }
  }

  /** The record a double before the end of the first `count` records lies in. */
  lemma RecordHolding(q: int, pitch: int, count: int) returns (n: int)
    requires 0 <= q < count * pitch && 0 < pitch
    ensures 0 <= n < count && n * pitch <= q < n * pitch + pitch
  {
    n := q / pitch;
    if n >= count {
      FlatIndex.MulMonotone(count, n, pitch);
    }
  }

  /** A double of record n that none of its stores touches is unchanged after `count` records. */
  lemma StreamUntouched(s: seq<real>, attributes: int, statics: int, count: int, coord: Mat4, norm: Mat4,
                        anormal: int, snormal: int, width: int, n: int, q: int)
    requires 0 <= attributes && 0 <= statics && 0 <= n < count && (width == 3 || width == 4)
    requires AllFit(|s|, attributes, statics, count, anormal, snormal, width) && InRecord(attributes, statics, anormal, snormal, width)
    requires n * Pitch(attributes, statics) <= q < n * Pitch(attributes, statics) + Pitch(attributes, statics) && q < |s|
    requires Untouched(q, n * Pitch(attributes, statics), attributes, anormal, snormal, width)
    ensures TransformUpTo(s, attributes, statics, count, coord, norm, anormal, snormal, width)[q] == s[q]
  {
    StreamRecord(s, attributes, statics, count, coord, norm, anormal, snormal, width, n, q);
    RecordAsFound(s, attributes, statics, n, coord, norm, anormal, snormal, width);
    ghost var prior := TransformUpTo(s, attributes, statics, n, coord, norm, anormal, snormal, width);
    RecordUnchanged(prior, n * Pitch(attributes, statics), attributes, coord, norm, anormal, snormal, width, q);
  }

  // --- The four-double write-back ---------------------------------------------------------------

  /** m maps every direction (w = 0) to itself with w = -x: the inverse transpose of a translation by (1, 0, 0). */
  ghost predicate ShiftsW(m: Mat4)
  {
    forall n: Vec4 {:trigger Transform(m, n)} :: n.w == 0.0 ==> Transform(m, n) == Vec4(n.x, n.y, n.z, -n.x)
  }

  /** The normal transform of a world translation by (1, 0, 0). */
  lemma TranslateShiftsW(o: Vec4)
    requires o.x == 1.0 && o.y == 0.0 && o.z == 0.0
    ensures InverseDivisor(Translate(o)) != 0.0 && ShiftsW(InverseTranspose(Translate(o)))
  {
    InverseTranslate(o);
    var m := InverseTranspose(Translate(o));
    forall n: Vec4 | n.w == 0.0
      ensures Transform(m, n) == Vec4(n.x, n.y, n.z, -n.x)
    {
      InverseTransposeTranslateNormal(o, n);
      assert Dot(o, n) == n.x;
    }
  }

  /**
   * With three attributes per vertex, vertex 0's normal written back as four doubles puts its w into
   * vertex 1's normal x before vertex 1 reads it. Under the normal transform of a translation by
   * (1, 0, 0) (TranslateShiftsW) and unit normals along x, y and z, double 15 (vertex 1's normal x)
   * ends as -1 as written, where the three-double write-back leaves the transformed normal's x, 0.
   */
  lemma NormalWriteBackClobbers(s: seq<real>, norm: Mat4)
    requires |s| == 22 && s[12..21] == [1.0, 0.0, 0.0, 0.0, 1.0, 0.0, 0.0, 0.0, 1.0]
    requires ShiftsW(norm)
    ensures TransformRecord(s, 0, 3, Identity(), norm, 12, -1, 4)[15] == -1.0
    ensures TransformRecord(s, 0, 3, Identity(), norm, 12, -1, 3)[15] == 0.0
    ensures NormalImage(s, 15, norm)[0] == 0.0
  {
    RecordChain(s, 0, 3, Identity(), norm, 12, -1, 4);
    var s1 := PositionStage(s, 0, Identity());
    assert s[12..18] == [1.0, 0.0, 0.0, 0.0, 1.0, 0.0] by {
      assert s[12..18] == s[12..21][..6];
    }
    assert s1[12..18] == s[12..18] by {
      forall q | 12 <= q < 18 ensures s1[q] == s[q] { }
    }
    ClobberedAsWritten(s1, norm);
    assert ReadNormal(s, 15) == Vec4(0.0, 1.0, 0.0, 0.0);
    assert Transform(norm, ReadNormal(s, 15)).x == 0.0;
    RecordVertexNormal(s, 0, 3, Identity(), norm, 12, -1, 3, 1, 0);
  }

  /**
   * The static normal written back as four doubles crosses into the next record when it ends the
   * record (snormal + 4 = pitch): with no attributes, three statics (pitch 15) and the static normal
   * at 12, record 0's normal w lands on record 1's vertex 0 x before record 1 reads it. Under the
   * normal transform of a translation by (1, 0, 0) and record 0's normal along x, double 15 ends as
   * -1 as written, where the three-double write-back keeps record 1's original x there, 0.
   */
  lemma StaticWriteBackCrossesRecord(s: seq<real>, norm: Mat4)
    requires |s| == 31 && s[12..16] == [1.0, 0.0, 0.0, 0.0]
    requires ShiftsW(norm)
    ensures !InRecord(0, 3, -1, 12, 4) && InRecord(0, 3, -1, 12, 3)
    ensures AllFit(|s|, 0, 3, 2, -1, 12, 4)
    ensures TransformUpTo(s, 0, 3, 2, Identity(), norm, -1, 12, 4)[15] == -1.0
    ensures TransformUpTo(s, 0, 3, 2, Identity(), norm, -1, 12, 3)[15] == 0.0
  {
    assert Pitch(0, 3) == 15;
    assert RecordFits(|s|, 15, 0, 0, -1, 12, 4) && RecordFits(|s|, 15, 1, 0, -1, 12, 4);
    assert AllFit(|s|, 0, 3, 2, -1, 12, 4) by {
      forall n | 0 <= n < 2 ensures RecordFits(|s|, 15, n, 0, -1, 12, 4) {
        assert n == 0 || n == 1;
      }
    }
    TransformUpToStep(s, 0, 3, 1, Identity(), norm, -1, 12, 4);
    TransformUpToStep(s, 0, 3, 0, Identity(), norm, -1, 12, 4);
    var r0 := TransformRecord(s, 0, 0, Identity(), norm, -1, 12, 4);
    StaticCrossesOut(s, norm);
    RecordPositions(r0, 15, 0, Identity(), norm, -1, 12, 4, 0, 0);
    TransformIdentity(VertexAt(r0, 15, 0));
    assert AllFit(|s|, 0, 3, 2, -1, 12, 3) by {
      forall n | 0 <= n < 2 ensures RecordFits(|s|, 15, n, 0, -1, 12, 3) {
        assert n == 0 || n == 1;
      }
    }
    StreamPositions(s, 0, 3, 2, Identity(), norm, -1, 12, 3, 1, 0, 0);
    TransformIdentity(VertexAt(s, 15, 0));
  }

  /** Record 0 of the example, as written: its static normal's w lands on double 15. */
  lemma StaticCrossesOut(s: seq<real>, norm: Mat4)
    requires |s| == 31 && s[12..16] == [1.0, 0.0, 0.0, 0.0]
    requires ShiftsW(norm)
    ensures Fits(|s|, 0, 0, -1, 12, 4)
    ensures TransformRecord(s, 0, 0, Identity(), norm, -1, 12, 4)[15] == -1.0
  {
    var p := PositionStage(s, 0, Identity());
    assert s[12] == 1.0 && s[13] == 0.0 && s[14] == 0.0;
    assert ReadNormal(p, 12) == Vec4(1.0, 0.0, 0.0, 0.0);
    assert Transform(norm, ReadNormal(p, 12)).w == -1.0;
    WriteNormalCell(p, 12, norm, 4, 15);
  }

  /** The vertex stage of the example, as written: double 15 ends as -1. */
  lemma ClobberedAsWritten(s: seq<real>, norm: Mat4)
    requires |s| == 22 && s[12..18] == [1.0, 0.0, 0.0, 0.0, 1.0, 0.0]
    requires ShiftsW(norm)
    ensures VertexStage(s, 0, 3, norm, 12, 4)[15] == -1.0
  {
    assert s[12] == 1.0 && s[13] == 0.0 && s[14] == 0.0 && s[16] == 1.0 && s[17] == 0.0;
    var u1 := WriteNormal(s, 12, norm, 4);
    WriteNormalCell(s, 12, norm, 4, 15);
    WriteNormalCell(s, 12, norm, 4, 16);
    WriteNormalCell(s, 12, norm, 4, 17);
    assert ReadNormal(s, 12) == Vec4(1.0, 0.0, 0.0, 0.0);
    assert Transform(norm, ReadNormal(s, 12)).w == -1.0;
    assert ReadNormal(u1, 15) == Vec4(-1.0, 1.0, 0.0, 0.0);
    assert Transform(norm, ReadNormal(u1, 15)).x == -1.0;
    var u2 := WriteNormal(u1, 15, norm, 4);
    WriteNormalCell(u1, 15, norm, 4, 15);
    WriteNormalCell(u2, 18, norm, 4, 15);
  }
}
