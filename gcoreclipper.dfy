/**
 * The loops of GCORE_ClipTriangles over the flat buffers, proved to write what GCoreClip.ClipChecked
 * specifies. The point buffers have nine rows, the bound GCoreClip.PointsSound proves for the edge
 * walk, and the capacity is checked on the accept path as on the general path.
 */
module GCoreClipper {
  import opened M3D
  import opened GCoreStream
  import opened GCoreClip
  import FlatIndex

  /** Rows of the point buffers (`coordinates` and `barycentric`, kept together as Points). */
  const Rows := 9

  /** A row nothing has been written to. */
  const NoPoint := Point(Vec4(0.0, 0.0, 0.0, 0.0), Bary(0.0, 0.0, 0.0))

  /** The region codes of the three vertices of the record at buffin[base ..]. */
  method MarkRegions(buffin: array<real>, base: int, ghost r: seq<real>) returns (regions: array<bv8>)
    requires |r| >= 12 && Holds(buffin, base, r)
    ensures fresh(regions) && regions.Length == 3
    ensures forall i :: 0 <= i < 3 ==> regions[i] == Region(VertexOf(r, i))
  {
    regions := new bv8[3];
    for i := 0 to 3
      invariant forall k :: 0 <= k < i ==> regions[k] == Region(VertexOf(r, k))
    {
      var x, y, z, w := buffin[base + 4 * i], buffin[base + 4 * i + 1], buffin[base + 4 * i + 2], buffin[base + 4 * i + 3];
      assert Vec4(x, y, z, w) == VertexOf(r, i);
      regions[i] := 0;
      if x < -w {
        regions[i] := regions[i] | 0x01;
      } else if x > w {
        regions[i] := regions[i] | 0x02;
      }
      if y < -w {
        regions[i] := regions[i] | 0x04;
      } else if y > w {
        regions[i] := regions[i] | 0x08;
      }
      if z < -w {
        regions[i] := regions[i] | 0x10;
      } else if z > w {
        regions[i] := regions[i] | 0x20;
      }
    }
  }

  /** Vertex i of the record at buffin[base ..]. */
  function ReadVertex(buffin: array<real>, base: int, i: int): Vec4
    reads buffin
    requires 0 <= i < 3 && 0 <= base && base + 12 <= buffin.Length
  {
    Vec4(buffin[base + 4 * i], buffin[base + 4 * i + 1], buffin[base + 4 * i + 2], buffin[base + 4 * i + 3])
  }

  /** The accepted crossings of edge i with the planes it crosses, appended to the point buffers. */
  method AddCrossings(cv: Vec4, nv: Vec4, i: int, planes: bv8, coords: array<Point>, index0: int) returns (index: int)
    requires coords.Length == Rows && 0 <= i < 3 && 0 <= index0 <= Rows
    requires index0 + |Crossings(cv, nv, i, planes, 0, 0)| <= Rows
    requires forall k :: index0 <= k < Rows ==> coords[k] == NoPoint
    modifies coords
    ensures index0 <= index <= Rows
    ensures coords[..index] == old(coords[..index0]) + Crossings(cv, nv, i, planes, 0, 0)
    ensures forall k :: index <= k < Rows ==> coords[k] == NoPoint
  {
    ghost var goal := old(coords[..index0]) + Crossings(cv, nv, i, planes, 0, 0);
    index := index0;
    var tindex := 0;
    var j := 0;
    while j < 6
      invariant 0 <= j <= 6 && 0 <= tindex < 2 && 0 <= index <= Rows
      invariant coords[..index] + Crossings(cv, nv, i, planes, j, tindex) == goal
      invariant forall k :: index <= k < Rows ==> coords[k] == NoPoint
    {
      CrossingsStep(cv, nv, i, planes, j, tindex);
      if planes & PlaneBit(j) != 0 {
        var b1 := Weight(cv, nv, j);
        var p := Mix(cv, nv, b1);
        if Clipped(p, j) {
          j := j + 1;
          continue;
        }
        var pt := Point(p, EdgeBary(i, b1));
        ghost var before := coords[..index];
        ghost var rest := if tindex == 1 then [] else Crossings(cv, nv, i, planes, j + 1, 1);
        coords[index] := pt;
        index := index + 1;
        tindex := tindex + 1;
        Appended(coords[..index], before, pt, rest, goal);
        if tindex == 2 {
          break;
        }
      } else if planes & PlanesFrom(j) == 0 {
        break;
      }
      j := j + 1;
    }
  }

  /** Regrouping after a point is appended: what was before + [pt] + rest is now (before + [pt]) + rest. */
  lemma Appended(now: seq<Point>, before: seq<Point>, pt: Point, rest: seq<Point>, goal: seq<Point>)
    requires |now| == |before| + 1 && now[..|before|] == before && now[|before|] == pt
    requires before + ([pt] + rest) == goal
    ensures now + rest == goal
  {
    assert now == before + [pt];
  }

  /** Store the corner point of vertex cv, which lies inside every plane. */
  method AddCorner(cv: Vec4, i: int, coords: array<Point>, index0: int) returns (index: int)
    requires coords.Length == Rows && 0 <= i < 3 && 0 <= index0 < Rows
    requires forall k :: index0 <= k < Rows ==> coords[k] == NoPoint
    modifies coords
    ensures index == index0 + 1
    ensures coords[..index] == old(coords[..index0]) + [Point(cv, Corner(i))]
    ensures forall k :: index <= k < Rows ==> coords[k] == NoPoint
  {
    coords[index0] := Point(cv, Corner(i));
    index := index0 + 1;
  }


  /** The points of edge i, from cv (code c) to nv (code n), appended to the point buffers. */
  method AddEdge(cv: Vec4, nv: Vec4, c: bv8, n: bv8, i: int, coords: array<Point>, index0: int) returns (index: int)
    requires coords.Length == Rows && 0 <= i < 3 && 0 <= index0 <= Rows
    requires index0 + |EdgePoints(cv, nv, c, n, i)| <= Rows
    requires forall k :: index0 <= k < Rows ==> coords[k] == NoPoint
    modifies coords
    ensures index0 <= index <= Rows
    ensures coords[..index] == old(coords[..index0]) + EdgePoints(cv, nv, c, n, i)
    ensures forall k :: index <= k < Rows ==> coords[k] == NoPoint
  {
    index := index0;
    if c == 0 {
      assert EdgePoints(cv, nv, c, n, i) == [Point(cv, Corner(i))] + Crossings(cv, nv, i, c ^ n, 0, 0);
      index := AddCornerCrossings(cv, nv, i, c ^ n, coords, index0);
    } else if !(c ^ n) & c != 0 {
      assert EdgePoints(cv, nv, c, n, i) == [];
    } else {
      assert EdgePoints(cv, nv, c, n, i) == Crossings(cv, nv, i, c ^ n, 0, 0);
      index := AddCrossings(cv, nv, i, c ^ n, coords, index);
    }
  }

  /** An edge from an inside vertex: its corner, then its crossings. */
  method AddCornerCrossings(cv: Vec4, nv: Vec4, i: int, planes: bv8, coords: array<Point>, index0: int) returns (index: int)
    requires coords.Length == Rows && 0 <= i < 3 && 0 <= index0 <= Rows
    requires index0 + 1 + |Crossings(cv, nv, i, planes, 0, 0)| <= Rows
    requires forall k :: index0 <= k < Rows ==> coords[k] == NoPoint
    modifies coords
    ensures index0 <= index <= Rows
    ensures coords[..index] == old(coords[..index0]) + ([Point(cv, Corner(i))] + Crossings(cv, nv, i, planes, 0, 0))
    ensures forall k :: index <= k < Rows ==> coords[k] == NoPoint
  {
    ghost var prior := coords[..index0];
    index := AddCorner(cv, i, coords, index0);
    index := AddCrossings(cv, nv, i, planes, coords, index);
    Assoc(prior, [Point(cv, Corner(i))], Crossings(cv, nv, i, planes, 0, 0));
  }

  /** Reading vertex i of a record laid at buffin[base ..]. */
  lemma ReadVertexOf(buffin: array<real>, base: int, r: seq<real>, i: int)
    requires |r| >= 12 && Holds(buffin, base, r) && 0 <= i < 3
    ensures ReadVertex(buffin, base, i) == VertexOf(r, i)
  {
    assert buffin[base + 4 * i] == r[4 * i];
    assert buffin[base + 4 * i + 1] == r[4 * i + 1];
    assert buffin[base + 4 * i + 2] == r[4 * i + 2];
    assert buffin[base + 4 * i + 3] == r[4 * i + 3];
  }

  /** One more edge of the walk: the vertices and codes read for edge i are those of the triangle. */
  lemma EdgesBeforeStep(r: seq<real>, r0: bv8, r1: bv8, r2: bv8, i: int, cv: Vec4, nv: Vec4, c: bv8, n: bv8)
    requires |r| >= 12 && 0 <= i < 3
    requires cv == VertexOf(r, i) && nv == VertexOf(r, Next(i))
    requires c == CodeAt(r0, r1, r2, i) && n == CodeAt(r0, r1, r2, Next(i))
    ensures EdgesBefore(Tri(r), r0, r1, r2, i + 1) == EdgesBefore(Tri(r), r0, r1, r2, i) + EdgePoints(cv, nv, c, n, i)
  {
    var t := Tri(r);
    assert t[i] == cv && t[Next(i)] == nv;
  }

  /** The walk with the codes the code computed is the walk of the triangle. */
  lemma WalkOfRecord(r: seq<real>, r0: bv8, r1: bv8, r2: bv8)
    requires |r| >= 12
    requires r0 == Region(VertexOf(r, 0)) && r1 == Region(VertexOf(r, 1)) && r2 == Region(VertexOf(r, 2))
    ensures Walk(Tri(r), r0, r1, r2) == Points(Tri(r))
  {
  }

  /** The edge walk of the general path: its points, in the order the code stores them. */
  method CollectPoints(buffin: array<real>, base: int, ghost r: seq<real>, regions: array<bv8>)
    returns (coords: array<Point>, index: int)
    requires |r| >= 12 && Holds(buffin, base, r) && regions.Length == 3
    requires forall i :: 0 <= i < 3 ==> regions[i] == Region(VertexOf(r, i))
    ensures fresh(coords) && coords.Length == Rows
    ensures index == |Points(Tri(r))|
    ensures forall k :: 0 <= k < Rows ==> coords[k] == PointAt(Points(Tri(r)), k)
  {
    coords := new Point[Rows](_ => NoPoint);
    index := 0;
    assert coords[..0] == [];
    for i := 0 to 3
      invariant Collected(coords[..], index, Tri(r), regions[0], regions[1], regions[2], i)
    {
      index := CollectEdge(buffin, base, r, regions, coords, index, i);
    }
    CollectedAll(coords[..], index, r, regions[0], regions[1], regions[2]);
  }

  /** coords[..index] holds the points of the edges before edge i, and the rows after them are untouched. */
  ghost predicate Collected(cs: seq<Point>, index: int, t: seq<Vec4>, r0: bv8, r1: bv8, r2: bv8, i: int)
    requires |t| == 3 && 0 <= i <= 3
  {
    |cs| == Rows && 0 <= index <= Rows && cs[..index] == EdgesBefore(t, r0, r1, r2, i)
    && forall k :: index <= k < Rows ==> cs[k] == NoPoint
  }

  /** All three edges collected: the rows hold the record's points, then unused rows. */
  lemma CollectedAll(cs: seq<Point>, index: int, r: seq<real>, r0: bv8, r1: bv8, r2: bv8)
    requires |r| >= 12
    requires r0 == Region(VertexOf(r, 0)) && r1 == Region(VertexOf(r, 1)) && r2 == Region(VertexOf(r, 2))
    requires Collected(cs, index, Tri(r), r0, r1, r2, 3)
    ensures index == |Points(Tri(r))|
    ensures forall k :: 0 <= k < Rows ==> cs[k] == PointAt(Points(Tri(r)), k)
  {
    WalkOfRecord(r, r0, r1, r2);
    EdgesBeforeWalk(Tri(r), r0, r1, r2);
    forall k | 0 <= k < Rows
      ensures cs[k] == PointAt(Points(Tri(r)), k)
    {
      if k < index {
        assert cs[k] == cs[..index][k];
      }
    }
  }

  /** One pass of the loop over the edges: the points of edge i are appended. */
  method CollectEdge(buffin: array<real>, base: int, ghost r: seq<real>, regions: array<bv8>, coords: array<Point>, index0: int, i: int)
    returns (index: int)
    requires |r| >= 12 && Holds(buffin, base, r) && regions.Length == 3 && 0 <= i < 3
    requires forall i :: 0 <= i < 3 ==> regions[i] == Region(VertexOf(r, i))
    requires Collected(coords[..], index0, Tri(r), regions[0], regions[1], regions[2], i)
    modifies coords
    ensures Collected(coords[..], index, Tri(r), regions[0], regions[1], regions[2], i + 1)
  {
    ghost var r0, r1, r2 := regions[0], regions[1], regions[2];
    var ni := Next(i);
    var c, n := regions[i], regions[ni];
    var cv, nv := ReadVertex(buffin, base, i), ReadVertex(buffin, base, ni);
    ReadVertexOf(buffin, base, r, i);
    ReadVertexOf(buffin, base, r, ni);
    assert c == CodeAt(r0, r1, r2, i) && n == CodeAt(r0, r1, r2, ni);
    ghost var before := coords[..];
    EdgeFits(before, index0, r, r0, r1, r2, i, cv, nv, c, n);
    index := AddEdge(cv, nv, c, n, i, coords, index0);
    CollectedStep(before, coords[..], index0, index, r, r0, r1, r2, i, cv, nv, c, n);
  }

  /** The points of the next edge fit in the rows left. */
  lemma EdgeFits(cs: seq<Point>, index0: int, r: seq<real>, r0: bv8, r1: bv8, r2: bv8, i: int, cv: Vec4, nv: Vec4, c: bv8, n: bv8)
    requires |r| >= 12 && 0 <= i < 3
    requires r0 == Region(VertexOf(r, 0)) && r1 == Region(VertexOf(r, 1)) && r2 == Region(VertexOf(r, 2))
    requires Collected(cs, index0, Tri(r), r0, r1, r2, i)
    requires cv == VertexOf(r, i) && nv == VertexOf(r, Next(i))
    requires c == CodeAt(r0, r1, r2, i) && n == CodeAt(r0, r1, r2, Next(i))
    ensures index0 + |EdgePoints(cv, nv, c, n, i)| <= Rows
  {
    ghost var t := Tri(r);
    assert |EdgesBefore(t, r0, r1, r2, i + 1)| <= Rows by {
      WalkOfRecord(r, r0, r1, r2);
      PointsSound(t);
      EdgesBeforeWalk(t, r0, r1, r2);
    }
    EdgesBeforeStep(r, r0, r1, r2, i, cv, nv, c, n);
  }

  /** Appending the points of edge i to the rows collected before it collects the edges up to i + 1. */
  lemma CollectedStep(cs: seq<Point>, cs': seq<Point>, index0: int, index: int, r: seq<real>, r0: bv8, r1: bv8, r2: bv8,
                      i: int, cv: Vec4, nv: Vec4, c: bv8, n: bv8)
    requires |r| >= 12 && 0 <= i < 3
    requires Collected(cs, index0, Tri(r), r0, r1, r2, i)
    requires cv == VertexOf(r, i) && nv == VertexOf(r, Next(i))
    requires c == CodeAt(r0, r1, r2, i) && n == CodeAt(r0, r1, r2, Next(i))
    requires |cs'| == Rows && index0 <= index <= Rows && cs'[..index] == cs[..index0] + EdgePoints(cv, nv, c, n, i)
    requires forall k :: index <= k < Rows ==> cs'[k] == NoPoint
    ensures Collected(cs', index, Tri(r), r0, r1, r2, i + 1)
  {
    EdgesBeforeStep(r, r0, r1, r2, i, cv, nv, c, n);
  }

  /** Write the four doubles of v at offset o of the record rec being written at `at`. */
  method PosInto(v: Vec4, buffout: array<real>, at: int, o: int, ghost rec: seq<real>)
    requires Partial(buffout, at, o, rec) && o + 4 <= |rec| && at + o + 4 <= buffout.Length
    requires forall k :: 0 <= k < 4 ==> rec[o + k] == Pos(v)[k]
    modifies buffout
    ensures Partial(buffout, at, o + 4, rec)
    ensures forall q :: 0 <= q < buffout.Length && (q < at + o || at + o + 4 <= q) ==> buffout[q] == old(buffout[q])
  {
    var wt := at + o;
    buffout[wt] := v.x;
    buffout[wt + 1] := v.y;
    buffout[wt + 2] := v.z;
    buffout[wt + 3] := v.w;
    assert rec[o] == v.x && rec[o + 1] == v.y && rec[o + 2] == v.z && rec[o + 3] == v.w by {
      assert Pos(v)[0] == v.x && Pos(v)[1] == v.y && Pos(v)[2] == v.z && Pos(v)[3] == v.w;
    }
    forall c | 0 <= c < o + 4
      ensures buffout[at + c] == rec[c]
    {
      if c < o {
        assert buffout[at + c] == old(buffout[at + c]);
      }
    }
  }

  /** memcpy of the len doubles `piece` from src[from ..] to offset o of the record rec being written at `at`; when src is the output buffer, the run read lies before the write. */
  method CopyInto(src: array<real>, from: int, len: int, buffout: array<real>, at: int, o: int, ghost rec: seq<real>, ghost piece: seq<real>)
    requires |piece| == len && Partial(buffout, at, o, rec) && o + len <= |rec| && at + o + len <= buffout.Length
    requires 0 <= from && from + len <= src.Length && (src == buffout ==> from + len <= at + o)
    requires forall c :: 0 <= c < len ==> src[from + c] == piece[c]
    requires forall c :: 0 <= c < len ==> rec[o + c] == piece[c]
    modifies buffout
    ensures Partial(buffout, at, o + len, rec)
    ensures forall q :: 0 <= q < buffout.Length && (q < at + o || at + o + len <= q) ==> buffout[q] == old(buffout[q])
  {
    var k := 0;
    while k < len
      invariant 0 <= k <= len
      invariant Partial(buffout, at, o + k, rec)
      invariant forall q :: 0 <= q < buffout.Length && (q < at + o || at + o + len <= q) ==> buffout[q] == old(buffout[q])
    {
      assert src[from + k] == piece[k];
      buffout[at + o + k] := src[from + k];
      k := k + 1;
    }
  }

  /** The attributes interpolated with the weights b from the record r at buffin[base ..], written at offset o of rec. */
  method InterpInto(buffin: array<real>, base: int, ghost r: seq<real>, attributes: int, b: Bary,
                    buffout: array<real>, at: int, o: int, ghost rec: seq<real>)
    requires 0 <= attributes && StatOff(attributes) <= |r| && Holds(buffin, base, r) && buffin != buffout
    requires Partial(buffout, at, o, rec) && o + attributes <= |rec| && at + o + attributes <= buffout.Length
    requires forall j :: 0 <= j < attributes ==> rec[o + j] == Interp(r, attributes, b)[j]
    modifies buffout
    ensures Partial(buffout, at, o + attributes, rec)
    ensures forall q :: 0 <= q < buffout.Length && (q < at + o || at + o + attributes <= q) ==> buffout[q] == old(buffout[q])
  {
    for j := 0 to attributes
      invariant Partial(buffout, at, o + j, rec)
      invariant forall q :: 0 <= q < buffout.Length && (q < at + o || at + o + attributes <= q) ==> buffout[q] == old(buffout[q])
    {
      InterpAt(r, attributes, b, j);
      assert rec[o + j] == Interp(r, attributes, b)[j];
      buffout[at + o + j] := buffin[base + 12 + j] * b.b0 + buffin[base + 12 + j + attributes] * b.b1
        + buffin[base + 12 + j + 2 * attributes] * b.b2;
    }
  }

  /** memcpy of the statics of the record r at buffin[base ..] to the end of the record rec, whose statics they are. */
  method PutStatics(buffin: array<real>, base: int, ghost r: seq<real>, attributes: int, statics: int,
                    buffout: array<real>, at: int, ghost rec: seq<real>)
    requires 0 <= attributes && 0 <= statics && |r| == Pitch(attributes, statics) && Holds(buffin, base, r)
    requires buffin != buffout && |rec| == |r| && rec[StatOff(attributes)..] == r[StatOff(attributes)..]
    requires Partial(buffout, at, StatOff(attributes), rec) && at + |r| <= buffout.Length
    modifies buffout
    ensures Partial(buffout, at, Pitch(attributes, statics), rec)
    ensures forall q :: 0 <= q < buffout.Length && (q < at || at + Pitch(attributes, statics) <= q) ==> buffout[q] == old(buffout[q])
  {
    var statoff := 12 + 3 * attributes;
    HoldsTail(buffin, base, r, statoff);
    CopyInto(buffin, base + statoff, statics, buffout, at, statoff, rec, r[statoff..]);
  }

  /** The positions of the three points p, q, u: the first twelve doubles of the record rec being written at `at`. */
  method PutPositions(p: Point, q: Point, u: Point, buffout: array<real>, at: int, ghost rec: seq<real>)
    requires 0 <= at && 12 <= |rec| && at + 12 <= buffout.Length
    requires forall k, m :: 0 <= k < 3 && 0 <= m < 4 ==> rec[4 * k + m] == Pos(Pick(p, q, u, k).pos)[m]
    modifies buffout
    ensures Partial(buffout, at, 12, rec)
    ensures forall q :: 0 <= q < buffout.Length && (q < at || at + 12 <= q) ==> buffout[q] == old(buffout[q])
  {
    var o := 0;
    for k := 0 to 3
      invariant o == 4 * k
      invariant Partial(buffout, at, o, rec)
      invariant forall q :: 0 <= q < buffout.Length && (q < at || at + 12 <= q) ==> buffout[q] == old(buffout[q])
    {
      forall m | 0 <= m < 4
        ensures rec[o + m] == Pos(Pick(p, q, u, k).pos)[m]
      {
        assert o + m == 4 * k + m;
      }
      PosInto(Pick(p, q, u, k).pos, buffout, at, o, rec);
      o := o + 4;
    }
  }

  /** The attributes of the three points interpolated from the record r at buffin[base ..], after the positions of rec. */
  method PutInterpolated(buffin: array<real>, base: int, ghost r: seq<real>, attributes: int, p: Point, q: Point, u: Point,
                         buffout: array<real>, at: int, ghost rec: seq<real>)
    requires 0 <= attributes && StatOff(attributes) <= |r| && Holds(buffin, base, r) && buffin != buffout
    requires Partial(buffout, at, 12, rec) && StatOff(attributes) <= |rec| && at + StatOff(attributes) <= buffout.Length
    requires forall k, j :: 0 <= k < 3 && 0 <= j < attributes ==>
      rec[AttrSlot(attributes, k, j)] == Interp(r, attributes, Pick(p, q, u, k).bary)[j]
    modifies buffout
    ensures Partial(buffout, at, StatOff(attributes), rec)
    ensures forall q :: 0 <= q < buffout.Length && (q < at || at + StatOff(attributes) <= q) ==> buffout[q] == old(buffout[q])
  {
    var o := 12;
    for i := 0 to 3
      invariant o == AttrSlot(attributes, i, 0)
      invariant Partial(buffout, at, o, rec)
      invariant forall q :: 0 <= q < buffout.Length && (q < at || at + StatOff(attributes) <= q) ==> buffout[q] == old(buffout[q])
    {
      forall j | 0 <= j < attributes
        ensures rec[o + j] == Interp(r, attributes, Pick(p, q, u, i).bary)[j]
      {
        assert o + j == AttrSlot(attributes, i, j);
      }
      InterpInto(buffin, base, r, attributes, Pick(p, q, u, i).bary, buffout, at, o, rec);
      o := o + attributes;
    }
  }

  /** The first triangle of the fan: rows 0, 1, 2 of the point buffers, their attributes, the statics. */
  method PutFirst(buffin: array<real>, base: int, ghost r: seq<real>, attributes: int, statics: int,
                  coords: array<Point>, buffout: array<real>, at: int)
    requires 0 <= attributes && 0 <= statics && |r| == Pitch(attributes, statics) && Holds(buffin, base, r)
    requires coords.Length == Rows && buffin != buffout
    requires 0 <= at && at + Pitch(attributes, statics) <= buffout.Length
    modifies buffout
    ensures Partial(buffout, at, Pitch(attributes, statics), FanRecord(r, attributes, statics, coords[0], coords[1], coords[2]))
    ensures forall q :: 0 <= q < buffout.Length && (q < at || at + Pitch(attributes, statics) <= q) ==> buffout[q] == old(buffout[q])
  {
    var p, q, u := coords[0], coords[1], coords[2];
    ghost var rec := FanRecord(r, attributes, statics, p, q, u);
    FanRecordPositions(r, attributes, statics, p, q, u);
    FanRecordInterpolated(r, attributes, statics, p, q, u);
    FanRecordLayout(r, attributes, statics, p, q, u, 0);
    PutPositions(p, q, u, buffout, at, rec);
    PutInterpolated(buffin, base, r, attributes, p, q, u, buffout, at, rec);
    PutStatics(buffin, base, r, attributes, statics, buffout, at, rec);
  }

  /**
   * The attributes of a later fan triangle p, q, u: those of p copied from the run at from0, those
   * of q from the run at from1 (both written earlier in the output), those of u interpolated.
   */
  method PutFanAttributes(buffin: array<real>, base: int, ghost r: seq<real>, attributes: int, p: Point, q: Point, u: Point,
                          buffout: array<real>, from0: int, from1: int, at: int, ghost rec: seq<real>)
    requires 0 <= attributes && StatOff(attributes) <= |r| && Holds(buffin, base, r) && buffin != buffout
    requires Partial(buffout, at, 12, rec) && StatOff(attributes) <= |rec| && at + StatOff(attributes) <= buffout.Length
    requires 0 <= from0 && from0 + attributes <= at && 0 <= from1 && from1 + attributes <= at
    requires forall c :: 0 <= c < attributes ==> buffout[from0 + c] == Interp(r, attributes, p.bary)[c]
    requires forall c :: 0 <= c < attributes ==> buffout[from1 + c] == Interp(r, attributes, q.bary)[c]
    requires forall k, j :: 0 <= k < 3 && 0 <= j < attributes ==>
      rec[AttrSlot(attributes, k, j)] == Interp(r, attributes, Pick(p, q, u, k).bary)[j]
    modifies buffout
    ensures Partial(buffout, at, StatOff(attributes), rec)
    ensures forall q :: 0 <= q < buffout.Length && (q < at || at + StatOff(attributes) <= q) ==> buffout[q] == old(buffout[q])
  {
    ghost var a0, ai := Interp(r, attributes, p.bary), Interp(r, attributes, q.bary);
    var o := 12;
    RecordBlock(rec, r, attributes, p, q, u, 0, o);
    CopyInto(buffout, from0, attributes, buffout, at, o, rec, a0);
    o := o + attributes;
    RecordBlock(rec, r, attributes, p, q, u, 1, o);
    CopyInto(buffout, from1, attributes, buffout, at, o, rec, ai);
    o := o + attributes;
    RecordBlock(rec, r, attributes, p, q, u, 2, o);
    InterpInto(buffin, base, r, attributes, u.bary, buffout, at, o, rec);
  }

  /** The attribute block of vertex k of a record, starting at offset o. */
  lemma RecordBlock(rec: seq<real>, r: seq<real>, attributes: int, p: Point, q: Point, u: Point, k: int, o: int)
    requires 0 <= attributes && StatOff(attributes) <= |r| && StatOff(attributes) <= |rec| && 0 <= k < 3 && o == 12 + k * attributes
    requires forall k, j :: 0 <= k < 3 && 0 <= j < attributes ==>
      rec[AttrSlot(attributes, k, j)] == Interp(r, attributes, Pick(p, q, u, k).bary)[j]
    ensures forall j :: 0 <= j < attributes ==> rec[o + j] == Interp(r, attributes, Pick(p, q, u, k).bary)[j]
  {
    forall j | 0 <= j < attributes
      ensures rec[o + j] == Interp(r, attributes, Pick(p, q, u, k).bary)[j]
    {
      assert o + j == AttrSlot(attributes, k, j);
    }
  }

  /**
   * A later fan triangle: rows 0, i and i + 1; the attributes of row 0 (a0) copied from the first
   * triangle at `first`, those of row i (ai) from the previous triangle at `last`, those of row
   * i + 1 interpolated.
   */
  method PutNext(buffin: array<real>, base: int, ghost r: seq<real>, attributes: int, statics: int,
                 coords: array<Point>, i: int, buffout: array<real>, first: int, ghost last: int, at: int)
    requires 0 <= attributes && 0 <= statics && |r| == Pitch(attributes, statics) && Holds(buffin, base, r)
    requires coords.Length == Rows && buffin != buffout && 2 <= i && i + 1 < Rows
    requires 0 <= first && first + 12 + attributes <= at && 0 <= last && last + Pitch(attributes, statics) == at
    requires at + Pitch(attributes, statics) <= buffout.Length
    requires forall j :: 0 <= j < attributes ==> buffout[first + 12 + j] == Interp(r, attributes, coords[0].bary)[j]
    requires forall j :: 0 <= j < attributes ==> buffout[last + 12 + 2 * attributes + j] == Interp(r, attributes, coords[i].bary)[j]
    modifies buffout
    ensures Partial(buffout, at, Pitch(attributes, statics), FanRecord(r, attributes, statics, coords[0], coords[i], coords[i + 1]))
    ensures forall q :: 0 <= q < buffout.Length && (q < at || at + Pitch(attributes, statics) <= q) ==> buffout[q] == old(buffout[q])
  {
    var p, q, u := coords[0], coords[i], coords[i + 1];
    ghost var rec := FanRecord(r, attributes, statics, p, q, u);
    var pitch := 12 + 3 * attributes + statics;
    var from0 := first + 12;
    var from1 := at + 12 + attributes - pitch + attributes;
    forall c | 0 <= c < attributes
      ensures buffout[from0 + c] == Interp(r, attributes, p.bary)[c]
      ensures buffout[from1 + c] == Interp(r, attributes, q.bary)[c]
    {
      assert from0 + c == first + 12 + c;
      assert from1 + c == last + 12 + 2 * attributes + c;
    }
    FanRecordPositions(r, attributes, statics, p, q, u);
    FanRecordInterpolated(r, attributes, statics, p, q, u);
    FanRecordLayout(r, attributes, statics, p, q, u, 0);
    PutPositions(p, q, u, buffout, at, rec);
    PutFanAttributes(buffin, base, r, attributes, p, q, u, buffout, from0, from1, at, rec);
    PutStatics(buffin, base, r, attributes, statics, buffout, at, rec);
  }

  /** The attributes of vertex k of a fan record laid as record n of the output, read back where the code reads them. */
  lemma LaidFanAttributes(a: array<real>, pitch: int, rs: seq<seq<real>>, n: int, r: seq<real>, attributes: int, statics: int,
                          p: Point, q: Point, u: Point, k: int, at: int)
    requires 0 <= attributes && 0 <= statics && |r| == Pitch(attributes, statics) && pitch == Pitch(attributes, statics)
    requires Laid(a[..], pitch, rs) && 0 <= n < |rs| && rs[n] == FanRecord(r, attributes, statics, p, q, u)
    requires 0 <= k < 3 && at == n * pitch + 12 + attributes * k
    ensures 0 <= at && at + attributes <= a.Length
    ensures forall j :: 0 <= j < attributes ==> a[at + j] == Interp(r, attributes, Pick(p, q, u, k).bary)[j]
  {
    LaidRecord(a[..], pitch, rs, n);
    FlatIndex.MulMonotone(k, 2, attributes);
    forall j | 0 <= j < attributes
      ensures a[at + j] == Interp(r, attributes, Pick(p, q, u, k).bary)[j]
    {
      LaidFanAttribute(a, pitch, rs, n, r, attributes, statics, p, q, u, k, at, j);
    }
  }

  /** Attribute j of vertex k of that record. */
  lemma LaidFanAttribute(a: array<real>, pitch: int, rs: seq<seq<real>>, n: int, r: seq<real>, attributes: int, statics: int,
                         p: Point, q: Point, u: Point, k: int, at: int, j: int)
    requires 0 <= attributes && 0 <= statics && |r| == Pitch(attributes, statics) && pitch == Pitch(attributes, statics)
    requires Laid(a[..], pitch, rs) && 0 <= n < |rs| && rs[n] == FanRecord(r, attributes, statics, p, q, u)
    requires 0 <= k < 3 && at == n * pitch + 12 + attributes * k && 0 <= j < attributes
    ensures 0 <= at + j < a.Length && a[at + j] == Interp(r, attributes, Pick(p, q, u, k).bary)[j]
  {
    var o := AttrSlot(attributes, k, 0);
    assert rs[n][o + j] == Interp(r, attributes, Pick(p, q, u, k).bary)[j] by {
      FanRecordBlock(r, attributes, statics, p, q, u, k, o);
    }
    assert o + j < pitch by {
      FlatIndex.MulMonotone(k, 2, attributes);
    }
    LaidAt(a[..], pitch, rs, n, o + j);
    assert at + j == FlatIndex.Flat(pitch, n, o + j);
  }

  /** One more record of f after the first k. */
  lemma PrefixStep(laid: seq<seq<real>>, done: seq<seq<real>>, f: seq<seq<real>>, k: int)
    requires 0 <= k < |f| && laid == done + f[..k]
    ensures laid + [f[k]] == done + f[..k + 1]
  {
    assert f[..k + 1] == f[..k] + [f[k]];
  }

  /** Room for record `written` in an output sized for `capacity` records. */
  lemma Room(written: int, capacity: int, pitch: int, length: int)
    requires 0 <= written < capacity && 0 <= pitch && capacity * pitch <= length
    ensures 0 <= written * pitch && written * pitch + pitch <= length
  {
    FlatIndex.MulMonotone(written + 1, capacity, pitch);
    assert (written + 1) * pitch == written * pitch + pitch;
  }

  /** The first fan triangle written as record |laid| of the output stream. */
  method AppendFirst(buffin: array<real>, base: int, ghost r: seq<real>, attributes: int, statics: int,
                     coords: array<Point>, buffout: array<real>, at: int, ghost laid: seq<seq<real>>)
    requires 0 <= attributes && 0 <= statics && |r| == Pitch(attributes, statics) && Holds(buffin, base, r)
    requires coords.Length == Rows && buffin != buffout
    requires Laid(buffout[..], Pitch(attributes, statics), laid) && at == |laid| * Pitch(attributes, statics)
    requires 0 <= at && at + Pitch(attributes, statics) <= buffout.Length
    modifies buffout
    ensures Laid(buffout[..], Pitch(attributes, statics), laid + [FanRecord(r, attributes, statics, coords[0], coords[1], coords[2])])
    ensures forall q :: 0 <= q < buffout.Length && at + Pitch(attributes, statics) <= q ==> buffout[q] == old(buffout[q])
  {
    ghost var before := buffout[..];
    PutFirst(buffin, base, r, attributes, statics, coords, buffout, at);
    LaidAppend(buffout, before, Pitch(attributes, statics), laid, FanRecord(r, attributes, statics, coords[0], coords[1], coords[2]));
  }

  /**
   * A later fan triangle (rows 0, i, i + 1) written as record |laid| of the output stream, when
   * record n0 is the first triangle of the fan and the last record the triangle of rows 0, i - 1, i.
   */
  method AppendNext(buffin: array<real>, base: int, ghost r: seq<real>, attributes: int, statics: int,
                    coords: array<Point>, i: int, buffout: array<real>, first: int, at: int, ghost laid: seq<seq<real>>, ghost n0: int)
    requires 0 <= attributes && 0 <= statics && |r| == Pitch(attributes, statics) && Holds(buffin, base, r)
    requires coords.Length == Rows && buffin != buffout && 2 <= i && i + 1 < Rows
    requires Laid(buffout[..], Pitch(attributes, statics), laid) && at == |laid| * Pitch(attributes, statics)
    requires 0 <= n0 < |laid| && first == n0 * Pitch(attributes, statics)
    requires laid[n0] == FanRecord(r, attributes, statics, coords[0], coords[1], coords[2])
    requires laid[|laid| - 1] == FanRecord(r, attributes, statics, coords[0], coords[i - 1], coords[i])
    requires at + Pitch(attributes, statics) <= buffout.Length
    modifies buffout
    ensures Laid(buffout[..], Pitch(attributes, statics), laid + [FanRecord(r, attributes, statics, coords[0], coords[i], coords[i + 1])])
    ensures forall q :: 0 <= q < buffout.Length && at + Pitch(attributes, statics) <= q ==> buffout[q] == old(buffout[q])
  {
    var pitch := Pitch(attributes, statics);
    FanSources(buffout, pitch, laid, n0, r, attributes, statics, coords[0], coords[1], coords[2], coords[i - 1], coords[i], first, at);
    ghost var before := buffout[..];
    PutNext(buffin, base, r, attributes, statics, coords, i, buffout, first, at - pitch, at);
    LaidAppend(buffout, before, pitch, laid, FanRecord(r, attributes, statics, coords[0], coords[i], coords[i + 1]));
  }

  /**
   * The attributes a later fan triangle copies: those of row 0 from the first triangle of the fan
   * (record n0, at `first`), those of row i from the last record written.
   */
  lemma FanSources(buffout: array<real>, pitch: int, laid: seq<seq<real>>, n0: int, r: seq<real>, attributes: int, statics: int,
                   p: Point, c1: Point, c2: Point, q: Point, u: Point, first: int, at: int)
    requires 0 <= attributes && 0 <= statics && |r| == Pitch(attributes, statics) && pitch == Pitch(attributes, statics)
    requires Laid(buffout[..], pitch, laid) && at == |laid| * pitch
    requires 0 <= n0 < |laid| && first == n0 * pitch
    requires laid[n0] == FanRecord(r, attributes, statics, p, c1, c2)
    requires laid[|laid| - 1] == FanRecord(r, attributes, statics, p, q, u)
    ensures 0 <= first && first + 12 + attributes <= at && 0 <= at - pitch
    ensures forall j :: 0 <= j < attributes ==> buffout[first + 12 + j] == Interp(r, attributes, p.bary)[j]
    ensures forall j :: 0 <= j < attributes ==> buffout[at - pitch + 12 + 2 * attributes + j] == Interp(r, attributes, u.bary)[j]
  {
    assert (|laid| - 1) * pitch == at - pitch;
    FlatIndex.MulMonotone(n0, |laid| - 1, pitch);
    LaidFanAttributes(buffout, pitch, laid, n0, r, attributes, statics, p, c1, c2, 0, first + 12);
    assert Pick(p, c1, c2, 0) == p;
    LaidFanAttributes(buffout, pitch, laid, |laid| - 1, r, attributes, statics, p, q, u, 2, at - pitch + 12 + 2 * attributes);
    assert Pick(p, q, u, 2) == u;
  }

  /** Where the records the next fan step reads and writes sit in the fan. */
  lemma FanStep(r: seq<real>, attributes: int, statics: int, pts: seq<Point>, done: seq<seq<real>>, laid: seq<seq<real>>, i: int,
                c0: Point, c1: Point, c2: Point, cp: Point, ci: Point, cn: Point)
    requires 0 <= attributes && 0 <= statics && |r| == Pitch(attributes, statics)
    requires 2 <= i && i + 1 < |pts| && laid == done + Fan(r, attributes, statics, pts)[..i - 1]
    requires c0 == PointAt(pts, 0) && c1 == PointAt(pts, 1) && c2 == PointAt(pts, 2)
    requires cp == PointAt(pts, i - 1) && ci == PointAt(pts, i) && cn == PointAt(pts, i + 1)
    ensures laid[|done|] == FanRecord(r, attributes, statics, c0, c1, c2)
    ensures laid[|laid| - 1] == FanRecord(r, attributes, statics, c0, cp, ci)
    ensures Fan(r, attributes, statics, pts)[i - 1] == FanRecord(r, attributes, statics, c0, ci, cn)
  {
    var f := Fan(r, attributes, statics, pts);
    assert laid[|done|] == f[0];
    assert laid[|laid| - 1] == f[i - 2];
  }

  /**
   * The fan over the points pts held in the point buffers, written record after record after the
   * `written0` records before it, stopping when the count reaches the capacity.
   */
  method WriteFan(buffin: array<real>, base: int, ghost r: seq<real>, attributes: int, statics: int,
                  coords: array<Point>, index: int, ghost pts: seq<Point>,
                  buffout: array<real>, written0: int, capacity: int, ghost done: seq<seq<real>>)
    returns (written: int, stop: bool)
    requires 0 <= attributes && 0 <= statics && |r| == Pitch(attributes, statics) && Holds(buffin, base, r)
    requires coords.Length == Rows && index == |pts| <= Rows && forall k :: 0 <= k < Rows ==> coords[k] == PointAt(pts, k)
    requires buffin != buffout && capacity * Pitch(attributes, statics) <= buffout.Length
    requires 0 <= written0 < capacity && |done| == written0 && Laid(buffout[..], Pitch(attributes, statics), done)
    modifies buffout
    ensures var f := Fan(r, attributes, statics, pts);
      if capacity - written0 <= |f| then
        stop && written == capacity && Laid(buffout[..], Pitch(attributes, statics), done + f[..capacity - written0])
      else
        !stop && written == written0 + |f| && Laid(buffout[..], Pitch(attributes, statics), done + f)
    ensures forall q :: 0 <= q < buffout.Length && written * Pitch(attributes, statics) <= q ==> buffout[q] == old(buffout[q])
  {
    var pitch := Pitch(attributes, statics);
    ghost var f := Fan(r, attributes, statics, pts);
    // the first triangle: points 0, 1, 2
    FanFirst(buffin, base, r, attributes, statics, coords, pts, buffout, written0, capacity, done);
    written := written0 + 1;
    assert forall q :: 0 <= q < buffout.Length && written * pitch <= q ==> buffout[q] == old(buffout[q]);
    if written == capacity {
      return written, true;
    }
    // the rest of the fan: points 0, i, i + 1
    var i := 2;
    while i < index - 1
      invariant i == 2 || 2 <= i <= index - 1
      invariant written == written0 + i - 1 && written < capacity
      invariant FanLaid(buffout[..], pitch, done, f, i - 1)
      invariant forall q :: 0 <= q < buffout.Length && written * pitch <= q ==> buffout[q] == old(buffout[q])
    {
      FanNext(buffin, base, r, attributes, statics, coords, pts, buffout, written0, written, capacity, i, done);
      written := written + 1;
      assert forall q :: 0 <= q < buffout.Length && written * pitch <= q ==> buffout[q] == old(buffout[q]);
      if written == capacity {
        assert capacity - written0 == i;
        return written, true;
      }
      i := i + 1;
    }
    assert f[..i - 1] == f;
    assert forall q :: 0 <= q < buffout.Length && written * pitch <= q ==> buffout[q] == old(buffout[q]);
    stop := false;
  }

  /** The output holds `done` followed by the first k triangles of the fan f. */
  ghost predicate FanLaid(cur: seq<real>, pitch: int, done: seq<seq<real>>, f: seq<seq<real>>, k: int)
  {
    0 <= k <= |f| && Laid(cur, pitch, done + f[..k])
  }

  /** The first fan triangle, points 0, 1 and 2, is written after `done`. */
  method FanFirst(buffin: array<real>, base: int, ghost r: seq<real>, attributes: int, statics: int,
                  coords: array<Point>, ghost pts: seq<Point>,
                  buffout: array<real>, written0: int, capacity: int, ghost done: seq<seq<real>>)
    requires 0 <= attributes && 0 <= statics && |r| == Pitch(attributes, statics) && Holds(buffin, base, r)
    requires coords.Length == Rows && |pts| <= Rows && forall k :: 0 <= k < Rows ==> coords[k] == PointAt(pts, k)
    requires buffin != buffout && capacity * Pitch(attributes, statics) <= buffout.Length
    requires 0 <= written0 < capacity && |done| == written0 && Laid(buffout[..], Pitch(attributes, statics), done)
    modifies buffout
    ensures FanLaid(buffout[..], Pitch(attributes, statics), done, Fan(r, attributes, statics, pts), 1)
    ensures forall q :: 0 <= q < buffout.Length && (written0 + 1) * Pitch(attributes, statics) <= q ==> buffout[q] == old(buffout[q])
  {
    var pitch := Pitch(attributes, statics);
    ghost var f := Fan(r, attributes, statics, pts);
    Room(written0, capacity, pitch, buffout.Length);
    assert FanRecord(r, attributes, statics, coords[0], coords[1], coords[2]) == f[0] by {
      FanAt(r, attributes, statics, pts, 0, 0);
    }
    AppendFirst(buffin, base, r, attributes, statics, coords, buffout, written0 * pitch, done);
    assert (written0 + 1) * pitch == written0 * pitch + pitch;
    PrefixStep(done, done, f, 0);
  }

  /** Fan triangle i - 1, points 0, i and i + 1, is written after the ones before it. */
  method FanNext(buffin: array<real>, base: int, ghost r: seq<real>, attributes: int, statics: int,
                 coords: array<Point>, ghost pts: seq<Point>,
                 buffout: array<real>, written0: int, written: int, capacity: int, i: int, ghost done: seq<seq<real>>)
    requires 0 <= attributes && 0 <= statics && |r| == Pitch(attributes, statics) && Holds(buffin, base, r)
    requires coords.Length == Rows && |pts| <= Rows && forall k :: 0 <= k < Rows ==> coords[k] == PointAt(pts, k)
    requires buffin != buffout && capacity * Pitch(attributes, statics) <= buffout.Length
    requires 0 <= written0 && |done| == written0 && 2 <= i && i + 1 < |pts| && written == written0 + i - 1 < capacity
    requires FanLaid(buffout[..], Pitch(attributes, statics), done, Fan(r, attributes, statics, pts), i - 1)
    modifies buffout
    ensures FanLaid(buffout[..], Pitch(attributes, statics), done, Fan(r, attributes, statics, pts), i)
    ensures forall q :: 0 <= q < buffout.Length && (written + 1) * Pitch(attributes, statics) <= q ==> buffout[q] == old(buffout[q])
  {
    var pitch := Pitch(attributes, statics);
    ghost var f := Fan(r, attributes, statics, pts);
    ghost var laid := done + f[..i - 1];
    Room(written, capacity, pitch, buffout.Length);
    FanStep(r, attributes, statics, pts, done, laid, i, coords[0], coords[1], coords[2], coords[i - 1], coords[i], coords[i + 1]);
    AppendNext(buffin, base, r, attributes, statics, coords, i, buffout, written0 * pitch, written * pitch, laid, written0);
    assert (written + 1) * pitch == written * pitch + pitch;
    PrefixStep(laid, done, f, i - 1);
  }

  /** The general path for the record r at buffin[base ..]: the edge walk, then the fan over its points. */
  method ClipCut(buffin: array<real>, base: int, ghost r: seq<real>, attributes: int, statics: int, regions: array<bv8>,
                 buffout: array<real>, written0: int, capacity: int, ghost done: seq<seq<real>>)
    returns (written: int, stop: bool)
    requires 0 <= attributes && 0 <= statics && |r| == Pitch(attributes, statics) && Holds(buffin, base, r)
    requires regions.Length == 3 && forall i :: 0 <= i < 3 ==> regions[i] == Region(VertexOf(r, i))
    requires buffin != buffout && capacity * Pitch(attributes, statics) <= buffout.Length
    requires 0 <= written0 < capacity && |done| == written0 && Laid(buffout[..], Pitch(attributes, statics), done)
    modifies buffout
    ensures var f := Fan(r, attributes, statics, Points(Tri(r)));
      if capacity - written0 <= |f| then
        stop && written == capacity && Laid(buffout[..], Pitch(attributes, statics), done + f[..capacity - written0])
      else
        !stop && written == written0 + |f| && Laid(buffout[..], Pitch(attributes, statics), done + f)
    ensures forall q :: 0 <= q < buffout.Length && written * Pitch(attributes, statics) <= q ==> buffout[q] == old(buffout[q])
  {
    PointsSound(Tri(r));
    var coords, index := CollectPoints(buffin, base, r, regions);
    written, stop := WriteFan(buffin, base, r, attributes, statics, coords, index, Points(Tri(r)),
      buffout, written0, capacity, done);
  }

  /**
   * One record of the stream, at buffin[base ..], with `written0` records written before it and
   * room left: copied when inside the cube, dropped when outside one plane, clipped otherwise.
   * The count is checked against the capacity after every record written, on the accept path too.
   */
  method ClipRecord(buffin: array<real>, base: int, ghost r: seq<real>, attributes: int, statics: int,
                    buffout: array<real>, written0: int, capacity: int, ghost done: seq<seq<real>>)
    returns (written: int, stop: bool)
    requires 0 <= attributes && 0 <= statics && |r| == Pitch(attributes, statics) && Holds(buffin, base, r)
    requires buffin != buffout && capacity * Pitch(attributes, statics) <= buffout.Length
    requires 0 <= written0 < capacity && |done| == written0 && Laid(buffout[..], Pitch(attributes, statics), done)
    modifies buffout
    ensures var o := Output(r, attributes, statics);
      if capacity - written0 <= |o| then
        stop && written == capacity && Laid(buffout[..], Pitch(attributes, statics), done + o[..capacity - written0])
      else
        !stop && written == written0 + |o| && Laid(buffout[..], Pitch(attributes, statics), done + o)
    ensures forall q :: 0 <= q < buffout.Length && written * Pitch(attributes, statics) <= q ==> buffout[q] == old(buffout[q])
  {
    var regions := MarkRegions(buffin, base, r);
    var r0, r1, r2 := regions[0], regions[1], regions[2];
    OutputOfCodes(r, attributes, statics, r0, r1, r2);
    if r0 | r1 | r2 == 0 {
      // trivial accept: the record is copied as it is
      assert KindOf(r0, r1, r2) == Inside;
      written := CopyRecord(buffin, base, r, attributes, statics, buffout, written0, capacity, done);
      assert [r][..1] == [r];
      stop := written == capacity;
    } else if !((r0 ^ r1) | (r1 ^ r2) | (r2 ^ r0)) & r0 != 0 {
      // trivial reject: nothing is written
      assert KindOf(r0, r1, r2) == Outside;
      assert done + [] == done;
      written, stop := written0, false;
    } else {
      assert KindOf(r0, r1, r2) == Cut;
      written, stop := ClipCut(buffin, base, r, attributes, statics, regions, buffout, written0, capacity, done);
    }
  }

  /** The trivial accept: the record r at buffin[base ..] is copied whole as record written0 of the output. */
  method CopyRecord(buffin: array<real>, base: int, ghost r: seq<real>, attributes: int, statics: int,
                    buffout: array<real>, written0: int, capacity: int, ghost done: seq<seq<real>>)
    returns (written: int)
    requires 0 <= attributes && 0 <= statics && |r| == Pitch(attributes, statics) && Holds(buffin, base, r)
    requires buffin != buffout && capacity * Pitch(attributes, statics) <= buffout.Length
    requires 0 <= written0 < capacity && |done| == written0 && Laid(buffout[..], Pitch(attributes, statics), done)
    modifies buffout
    ensures written == written0 + 1 && Laid(buffout[..], Pitch(attributes, statics), done + [r])
    ensures forall q :: 0 <= q < buffout.Length && written * Pitch(attributes, statics) <= q ==> buffout[q] == old(buffout[q])
  {
    var pitch := Pitch(attributes, statics);
    Room(written0, capacity, pitch, buffout.Length);
    ghost var before := buffout[..];
    CopyInto(buffin, base, pitch, buffout, written0 * pitch, 0, r, r);
    LaidAppend(buffout, before, pitch, done, r);
    assert (written0 + 1) * pitch == written0 * pitch + pitch;
    written := written0 + 1;
  }

  /** What a record yields, by the kind its three region codes give. */
  lemma OutputOfCodes(r: seq<real>, attributes: int, statics: int, r0: bv8, r1: bv8, r2: bv8)
    requires 0 <= attributes && 0 <= statics && |r| == Pitch(attributes, statics)
    requires r0 == Region(VertexOf(r, 0)) && r1 == Region(VertexOf(r, 1)) && r2 == Region(VertexOf(r, 2))
    ensures Output(r, attributes, statics) ==
      match KindOf(r0, r1, r2)
      case Inside => [r]
      case Outside => []
      case Cut => Fan(r, attributes, statics, Points(Tri(r)))
  {
    assert Tri(r)[0] == VertexOf(r, 0) && Tri(r)[1] == VertexOf(r, 1) && Tri(r)[2] == VertexOf(r, 2);
  }

  /**
   * GCORE_ClipTriangles over the `count` records rs laid in buffin: the records it writes to buffout
   * and their number, with the capacity respected on every path.
   */
  method ClipTriangles(buffin: array<real>, attributes: int, statics: int, count: int, buffout: array<real>, capacity: int,
                       ghost rs: seq<seq<real>>)
    returns (written: int)
    requires 0 <= attributes && 0 <= statics && |rs| == count && Laid(buffin[..], Pitch(attributes, statics), rs)
    requires buffin != buffout && capacity * Pitch(attributes, statics) <= buffout.Length
    modifies buffout
    ensures written == |ClipChecked(rs, attributes, statics, capacity)|
    ensures Laid(buffout[..], Pitch(attributes, statics), ClipChecked(rs, attributes, statics, capacity))
    ensures forall q :: 0 <= q < buffout.Length && written * Pitch(attributes, statics) <= q ==> buffout[q] == old(buffout[q])
  {
    ghost var goal := ClipChecked(rs, attributes, statics, capacity);
    ghost var os := Outputs(rs, attributes, statics);
    var pitch := Pitch(attributes, statics);
    if capacity <= 0 {
      ClippingNone(buffout[..], pitch, os, capacity, goal);
      return 0;
    }
    written := ClipAll(buffin, attributes, statics, count, buffout, capacity, rs, os, goal);
  }

  /** os holds the output of each record of rs. */
  ghost predicate OutputsOf(os: seq<seq<seq<real>>>, rs: seq<seq<real>>, attributes: int, statics: int)
    requires 0 <= attributes && 0 <= statics && Records(rs, Pitch(attributes, statics))
  {
    |os| == |rs| && forall n :: 0 <= n < |rs| ==> os[n] == Output(rs[n], attributes, statics)
  }

  /** The loop over the input records, for a capacity of at least one record. */
  method ClipAll(buffin: array<real>, attributes: int, statics: int, count: int, buffout: array<real>, capacity: int,
                 ghost rs: seq<seq<real>>, ghost os: seq<seq<seq<real>>>, ghost goal: seq<seq<real>>)
    returns (written: int)
    requires 0 <= attributes && 0 <= statics && |rs| == count && Laid(buffin[..], Pitch(attributes, statics), rs)
    requires OutputsOf(os, rs, attributes, statics) && goal == WithinCapacity(os, capacity, 0)
    requires buffin != buffout && 0 < capacity && capacity * Pitch(attributes, statics) <= buffout.Length
    modifies buffout
    ensures written == |goal| && Laid(buffout[..], Pitch(attributes, statics), goal)
    ensures forall q :: 0 <= q < buffout.Length && written * Pitch(attributes, statics) <= q ==> buffout[q] == old(buffout[q])
  {
    var pitch := Pitch(attributes, statics);
    written := 0;
    ghost var done: seq<seq<real>> := [];
    ghost var start := buffout[..];
    ClippingStart(buffout[..], pitch, os, capacity, goal);
    var base := 0;
    assert |os| == count;
    for n := 0 to count
      invariant base == n * pitch
      invariant Clipping(buffout[..], pitch, done, written, os, n, capacity, goal)
      invariant forall q :: 0 <= q < buffout.Length && written * pitch <= q ==> buffout[q] == start[q]
    {
      var stop;
      written, stop, done := ClipNext(buffin, attributes, statics, buffout, capacity, rs, os, goal, n, base, written, done, start);
      if stop {
        return;
      }
      assert base + pitch == (n + 1) * pitch;
      base := base + pitch;
    }
    ClippingEnd(buffout[..], pitch, done, written, os, capacity, goal);
  }

  /** Without room for one record nothing is written. */
  lemma ClippingNone(cur: seq<real>, pitch: int, os: seq<seq<seq<real>>>, capacity: int, goal: seq<seq<real>>)
    requires capacity <= 0 && goal == WithinCapacity(os, capacity, 0) && 0 <= pitch
    ensures goal == [] && Laid(cur, pitch, goal)
  {
  }

  /** Before the first record nothing is written. */
  lemma ClippingStart(cur: seq<real>, pitch: int, os: seq<seq<seq<real>>>, capacity: int, goal: seq<seq<real>>)
    requires 0 < capacity && goal == WithinCapacity(os, capacity, 0) && 0 <= pitch
    ensures Clipping(cur, pitch, [], 0, os, 0, capacity, goal)
  {
    assert os[0..] == os;
  }

  /** After the last record everything that fits is written. */
  lemma ClippingEnd(cur: seq<real>, pitch: int, done: seq<seq<real>>, written: int, os: seq<seq<seq<real>>>, capacity: int,
                    goal: seq<seq<real>>)
    requires Clipping(cur, pitch, done, written, os, |os|, capacity, goal)
    ensures written == |goal| && Laid(cur, pitch, goal)
  {
    assert os[|os|..] == [];
  }

  /**
   * The stream written so far: `written` records `done`, laid in the output from offset 0,
   * which followed by what the outputs from record n on still fit makes up `goal`.
   */
  ghost predicate Clipping(cur: seq<real>, pitch: int, done: seq<seq<real>>, written: int, os: seq<seq<seq<real>>>, n: int, capacity: int,
                           goal: seq<seq<real>>)
  {
    && 0 <= n <= |os| && 0 <= written == |done| < capacity && Laid(cur, pitch, done)
    && done + WithinCapacity(os[n..], capacity, written) == goal
  }

  /** One pass of the loop of GCORE_ClipTriangles: record n is clipped, and either the output is full or the loop goes on. */
  method ClipNext(buffin: array<real>, attributes: int, statics: int, buffout: array<real>, capacity: int,
                  ghost rs: seq<seq<real>>, ghost os: seq<seq<seq<real>>>, ghost goal: seq<seq<real>>,
                  n: int, base: int, written0: int, ghost done0: seq<seq<real>>, ghost start: seq<real>)
    returns (written: int, stop: bool, ghost done: seq<seq<real>>)
    requires 0 <= attributes && 0 <= statics && Laid(buffin[..], Pitch(attributes, statics), rs)
    requires OutputsOf(os, rs, attributes, statics) && 0 <= n < |rs| && base == n * Pitch(attributes, statics)
    requires buffin != buffout && capacity * Pitch(attributes, statics) <= buffout.Length
    requires Clipping(buffout[..], Pitch(attributes, statics), done0, written0, os, n, capacity, goal)
    requires |start| == buffout.Length
    requires forall q :: 0 <= q < buffout.Length && written0 * Pitch(attributes, statics) <= q ==> buffout[q] == start[q]
    modifies buffout
    ensures stop ==> written == |goal| && Laid(buffout[..], Pitch(attributes, statics), goal)
    ensures !stop ==> Clipping(buffout[..], Pitch(attributes, statics), done, written, os, n + 1, capacity, goal)
    ensures forall q :: 0 <= q < buffout.Length && written * Pitch(attributes, statics) <= q ==> buffout[q] == start[q]
  {
    var pitch := Pitch(attributes, statics);
    LaidHolds(buffin, pitch, rs, n);
    ghost var o := os[n];
    assert o == Output(rs[n], attributes, statics);
    written, stop := ClipRecord(buffin, base, rs[n], attributes, statics, buffout, written0, capacity, done0);
    FlatIndex.MulMonotone(written0, written, pitch);
    if stop {
      WithinCapacityStep(os, n, capacity, written0, written0 + |o|);
      done := goal;
      return;
    }
    WithinCapacityStep(os, n, capacity, written0, written);
    Assoc(done0, o, WithinCapacity(os[n + 1..], capacity, written));
    done := done0 + o;
  }
}
