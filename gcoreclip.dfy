/**
 * GCORE_ClipTriangles: clipping a stream of homogeneous triangles to the cube -w <= x, y, z <= w.
 * Each vertex gets a six-bit region code; a triangle with all codes zero is copied, one whose codes
 * share a set bit is dropped, and any other is cut against the planes its edges cross. The points
 * found are fan-triangulated and every vertex's attributes are interpolated with barycentric weights.
 * Doubles are reals.
 */
module GCoreClip {
  import opened M3D
  import opened GCoreStream

  /** Barycentric weights of a point on the corners 0, 1, 2 of its source triangle. */
  datatype Bary = Bary(b0: real, b1: real, b2: real)
  {
    function At(k: int): real
      requires 0 <= k < 3
    {
      if k == 0 then b0 else if k == 1 then b1 else b2
    }

    function Sum(): real
    {
      b0 + b1 + b2
    }
  }

  /** A row of the clipper's point buffers: the position and its barycentric weights. */
  datatype Point = Point(pos: Vec4, bary: Bary)

  /** The corner after corner i, going round the triangle. */
  function Next(i: int): int
  {
    if i == 2 then 0 else i + 1
  }

  // ----- Region codes -----

  /** The two bits of one axis: `low` when a < -w, otherwise `high` when a > w. */
  function Code(a: real, w: real, low: bv8, high: bv8): bv8
  {
    if a < -w then low else if a > w then high else 0
  }

  /** The region code of a vertex: which of the six clipping planes it lies outside. */
  function Region(v: Vec4): bv8
  {
    Code(v.x, v.w, 0x01, 0x02) | Code(v.y, v.w, 0x04, 0x08) | Code(v.z, v.w, 0x10, 0x20)
  }

  /** Bit 0x01 is set iff x < -w and 0x02 iff x > w but not x < -w; likewise for y and z. The two bits of an axis are never both set. */
  lemma RegionBits(v: Vec4)
    ensures (Region(v) & 0x01 != 0) <==> v.x < -v.w
    ensures (Region(v) & 0x02 != 0) <==> !(v.x < -v.w) && v.x > v.w
    ensures (Region(v) & 0x04 != 0) <==> v.y < -v.w
    ensures (Region(v) & 0x08 != 0) <==> !(v.y < -v.w) && v.y > v.w
    ensures (Region(v) & 0x10 != 0) <==> v.z < -v.w
    ensures (Region(v) & 0x20 != 0) <==> !(v.z < -v.w) && v.z > v.w
    ensures Region(v) & 0x03 != 0x03 && Region(v) & 0x0C != 0x0C && Region(v) & 0x30 != 0x30 && Region(v) & 0xC0 == 0
  {
  }

  /** The code's trivial-reject test is the plain intersection of the three codes. */
  lemma TrivialRejectIsCommonBit(r0: bv8, r1: bv8, r2: bv8)
    ensures !((r0 ^ r1) | (r1 ^ r2) | (r2 ^ r0)) & r0 == r0 & r1 & r2
  {
  }

  /** The edge-reject test `~(c ^ n) & c` is the intersection of the two codes. */
  lemma EdgeRejectIsCommonBit(c: bv8, n: bv8)
    ensures !(c ^ n) & c == c & n
  {
  }

  /** How the clipper treats a triangle. */
  datatype Kind = Inside | Outside | Cut

  function KindOf(r0: bv8, r1: bv8, r2: bv8): Kind
  {
    if r0 | r1 | r2 == 0 then Inside
    else if !((r0 ^ r1) | (r1 ^ r2) | (r2 ^ r0)) & r0 != 0 then Outside
    else Cut
  }

  // ----- Edge crossings -----

  /** The bit of plane j, `1 << j`, and the bits of planes j and above. */
  function PlaneBit(j: int): bv8
  {
    if j == 0 then 0x01 else if j == 1 then 0x02 else if j == 2 then 0x04
    else if j == 3 then 0x08 else if j == 4 then 0x10 else 0x20
  }

  function PlanesFrom(j: int): bv8
  {
    if j == 0 then 0xFF else if j == 1 then 0xFE else if j == 2 then 0xFC
    else if j == 3 then 0xF8 else if j == 4 then 0xF0 else 0xE0
  }

  /** Bit j of the set of planes an edge crosses. */
  predicate Crosses(planes: bv8, j: int)
  {
    planes & PlaneBit(j) != 0
  }

  /** The masks are the code's shifts: `(planes >> j) & 1` tests bit j (BitIsShift), and `planes >> j` is zero when no bit from j up is set (RestIsShift). */
  lemma BitIsShift(planes: bv8)
    ensures Crosses(planes, 0) <==> (planes >> 0) & 1 == 1
    ensures Crosses(planes, 1) <==> (planes >> 1) & 1 == 1
    ensures Crosses(planes, 2) <==> (planes >> 2) & 1 == 1
    ensures Crosses(planes, 3) <==> (planes >> 3) & 1 == 1
    ensures Crosses(planes, 4) <==> (planes >> 4) & 1 == 1
    ensures Crosses(planes, 5) <==> (planes >> 5) & 1 == 1
  {
  }

  lemma RestIsShift(planes: bv8)
    ensures (planes & PlanesFrom(0) == 0) <==> planes >> 0 == 0
    ensures (planes & PlanesFrom(1) == 0) <==> planes >> 1 == 0
    ensures (planes & PlanesFrom(2) == 0) <==> planes >> 2 == 0
    ensures (planes & PlanesFrom(3) == 0) <==> planes >> 3 == 0
    ensures (planes & PlanesFrom(4) == 0) <==> planes >> 4 == 0
    ensures (planes & PlanesFrom(5) == 0) <==> planes >> 5 == 0
  {
  }

  /** Denominator of the crossing weight against plane j (w - comp = 0 for odd j, w + comp = 0 for even j). */
  function Denom(cv: Vec4, nv: Vec4, j: int): real
    requires 0 <= j < 6
  {
    var comp := j / 2;
    if j % 2 == 1 then nv.At(comp) - cv.At(comp) - nv.w + cv.w
    else nv.At(comp) - cv.At(comp) + nv.w - cv.w
  }

  function Numer(cv: Vec4, j: int): real
    requires 0 <= j < 6
  {
    var comp := j / 2;
    if j % 2 == 1 then cv.w - cv.At(comp) else -cv.w - cv.At(comp)
  }

  /** No plane the edge crosses gives a zero denominator, so every weight the code divides out exists. */
  predicate Divisible(cv: Vec4, nv: Vec4, planes: bv8)
  {
    forall j :: 0 <= j < 6 && Crosses(planes, j) ==> Denom(cv, nv, j) != 0.0
  }

  /**
   * The weight b1 of the next vertex where the edge meets plane j. A zero denominator gives an
   * infinity or NaN in the code; the model takes 0 there (PositiveWClippable: it cannot happen when every w is positive).
   */
  function Weight(cv: Vec4, nv: Vec4, j: int): real
    requires 0 <= j < 6
  {
    if Denom(cv, nv, j) == 0.0 then 0.0 else Numer(cv, j) / Denom(cv, nv, j)
  }

  /** The point cv * (1 - b1) + nv * b1. */
  function Mix(cv: Vec4, nv: Vec4, b1: real): Vec4
  {
    var b2 := 1.0 - b1;
    Vec4(cv.x * b2 + nv.x * b1, cv.y * b2 + nv.y * b1, cv.z * b2 + nv.z * b1, cv.w * b2 + nv.w * b1)
  }

  /** A crossing with plane j that lies outside one of the other five planes is discarded. */
  predicate Clipped(p: Vec4, j: int)
  {
    (p.x < -p.w && j != 0) || (p.x > p.w && j != 1) ||
    (p.y < -p.w && j != 2) || (p.y > p.w && j != 3) ||
    (p.z < -p.w && j != 4) || (p.z > p.w && j != 5)
  }

  /** Weight 1 - b1 on corner i, b1 on the next corner and 0 on the third. */
  function EdgeBary(i: int, b1: real): Bary
    requires 0 <= i < 3
  {
    if i == 0 then Bary(1.0 - b1, b1, 0.0)
    else if i == 1 then Bary(0.0, 1.0 - b1, b1)
    else Bary(b1, 0.0, 1.0 - b1)
  }

  /** Weight 1 on corner i. */
  function Corner(i: int): Bary
    requires 0 <= i < 3
  {
    if i == 0 then Bary(1.0, 0.0, 0.0) else if i == 1 then Bary(0.0, 1.0, 0.0) else Bary(0.0, 0.0, 1.0)
  }

  /**
   * The crossings of edge i (from cv to nv) with the planes j.. of `planes`, when `found` of them
   * have been accepted already: the scan stops after two, or when no higher plane bit is left.
   */
  function Crossings(cv: Vec4, nv: Vec4, i: int, planes: bv8, j: int, found: int): seq<Point>
    requires 0 <= i < 3 && 0 <= j <= 6 && 0 <= found < 2
    decreases 6 - j
  {
    if j == 6 then []
    else if Crosses(planes, j) then
      var b1 := Weight(cv, nv, j);
      var p := Point(Mix(cv, nv, b1), EdgeBary(i, b1));
      if Clipped(p.pos, j) then Crossings(cv, nv, i, planes, j + 1, found)
      else if found == 1 then [p]
      else [p] + Crossings(cv, nv, i, planes, j + 1, 1)
    else if planes & PlanesFrom(j) == 0 then []
    else Crossings(cv, nv, i, planes, j + 1, found)
  }

  /** One step of the plane scan, case by case. */
  lemma CrossingsStep(cv: Vec4, nv: Vec4, i: int, planes: bv8, j: int, found: int)
    requires 0 <= i < 3 && 0 <= j < 6 && 0 <= found < 2
    ensures var b1 := Weight(cv, nv, j);
      var p := Point(Mix(cv, nv, b1), EdgeBary(i, b1));
      Crossings(cv, nv, i, planes, j, found) ==
        if !Crosses(planes, j) then
          (if planes & PlanesFrom(j) == 0 then [] else Crossings(cv, nv, i, planes, j + 1, found))
        else if Clipped(p.pos, j) then Crossings(cv, nv, i, planes, j + 1, found)
        else if found == 1 then [p]
        else [p] + Crossings(cv, nv, i, planes, j + 1, 1)
  {
  }

  /** Every edge of the triangle can be cut without dividing by zero. */
  predicate Clippable(a: Vec4, b: Vec4, c: Vec4)
  {
    Divisible(a, b, Region(a) ^ Region(b)) && Divisible(b, c, Region(b) ^ Region(c)) && Divisible(c, a, Region(c) ^ Region(a))
  }

  /**
   * The points edge i, from cv (code c) to nv (code n), contributes: its start vertex when c is
   * zero, then its accepted crossings.
   */
  function EdgePoints(cv: Vec4, nv: Vec4, c: bv8, n: bv8, i: int): seq<Point>
    requires 0 <= i < 3
  {
    if c == 0 then [Point(cv, Corner(i))] + Crossings(cv, nv, i, c ^ n, 0, 0)
    else if !(c ^ n) & c != 0 then []
    else Crossings(cv, nv, i, c ^ n, 0, 0)
  }

  function Walk(t: seq<Vec4>, r0: bv8, r1: bv8, r2: bv8): seq<Point>
    requires |t| == 3
  {
    EdgePoints(t[0], t[1], r0, r1, 0) + EdgePoints(t[1], t[2], r1, r2, 1) + EdgePoints(t[2], t[0], r2, r0, 2)
  }

  /** The points the three edges put into the buffers, in order. */
  function Points(t: seq<Vec4>): seq<Point>
    requires |t| == 3
  {
    Walk(t, Region(t[0]), Region(t[1]), Region(t[2]))
  }

  /** Code k (0, 1, 2) of the three. */
  function CodeAt(r0: bv8, r1: bv8, r2: bv8, k: int): bv8
  {
    if k == 0 then r0 else if k == 1 then r1 else r2
  }

  /** The points of the edges before edge i, in order. */
  function EdgesBefore(t: seq<Vec4>, r0: bv8, r1: bv8, r2: bv8, i: int): seq<Point>
    requires |t| == 3 && 0 <= i <= 3
  {
    if i == 0 then []
    else
      var k := i - 1;
      EdgesBefore(t, r0, r1, r2, k) + EdgePoints(t[k], t[Next(k)], CodeAt(r0, r1, r2, k), CodeAt(r0, r1, r2, Next(k)), k)
  }

  /** The edges before edge 3 are the whole walk, and the walk is at least as long as any of its first edges. */
  lemma EdgesBeforeWalk(t: seq<Vec4>, r0: bv8, r1: bv8, r2: bv8)
    requires |t| == 3
    ensures EdgesBefore(t, r0, r1, r2, 3) == Walk(t, r0, r1, r2)
    ensures forall i :: 0 <= i <= 3 ==> |EdgesBefore(t, r0, r1, r2, i)| <= |Walk(t, r0, r1, r2)|
  {
    var e0 := EdgePoints(t[0], t[1], r0, r1, 0);
    assert EdgesBefore(t, r0, r1, r2, 1) == [] + e0;
    assert [] + e0 == e0;
  }

  // ----- Properties of the edge walk -----

  /** The weighted combination of the corners. */
  function Blend(t: seq<Vec4>, b: Bary): Vec4
    requires |t| == 3
  {
    Vec4(b.b0 * t[0].x + b.b1 * t[1].x + b.b2 * t[2].x,
         b.b0 * t[0].y + b.b1 * t[1].y + b.b2 * t[2].y,
         b.b0 * t[0].z + b.b1 * t[1].z + b.b2 * t[2].z,
         b.b0 * t[0].w + b.b1 * t[1].w + b.b2 * t[2].w)
  }

  /** A point is faithful when its weights sum to one and its position is the combination they name. */
  predicate Faithful(t: seq<Vec4>, p: Point)
    requires |t| == 3
  {
    p.bary.Sum() == 1.0 && p.pos == Blend(t, p.bary)
  }

  lemma EdgeBaryFaithful(t: seq<Vec4>, i: int, b1: real)
    requires |t| == 3 && 0 <= i < 3
    ensures Faithful(t, Point(Mix(t[i], t[Next(i)], b1), EdgeBary(i, b1)))
    ensures EdgeBary(i, b1).At(Next(Next(i))) == 0.0
  {
    var b := EdgeBary(i, b1);
    var m := Mix(t[i], t[Next(i)], b1);
    var c := Blend(t, b);
    if i == 0 {
      assert m.x == c.x && m.y == c.y && m.z == c.z && m.w == c.w;
    } else if i == 1 {
      assert m.x == c.x && m.y == c.y && m.z == c.z && m.w == c.w;
    } else {
      assert m.x == c.x && m.y == c.y && m.z == c.z && m.w == c.w;
    }
  }

  /** Edge i yields at most two crossings (one when one was found already); each is a faithful point with no weight on the third corner. */
  lemma {:induction false} CrossingsSound(t: seq<Vec4>, i: int, planes: bv8, j: int, found: int)
    requires |t| == 3 && 0 <= i < 3 && 0 <= j <= 6 && 0 <= found < 2
    ensures |Crossings(t[i], t[Next(i)], i, planes, j, found)| <= 2 - found
    ensures forall p :: p in Crossings(t[i], t[Next(i)], i, planes, j, found) ==>
              Faithful(t, p) && p.bary.At(Next(Next(i))) == 0.0
    decreases 6 - j
  {
    if j < 6 {
      if Crosses(planes, j) {
        var b1 := Weight(t[i], t[Next(i)], j);
        EdgeBaryFaithful(t, i, b1);
        CrossingsSound(t, i, planes, j + 1, found);
        if found == 0 {
          CrossingsSound(t, i, planes, j + 1, 1);
        }
      } else {
        CrossingsSound(t, i, planes, j + 1, found);
      }
    }
  }

  lemma CornerFaithful(t: seq<Vec4>, i: int)
    requires |t| == 3 && 0 <= i < 3
    ensures Faithful(t, Point(t[i], Corner(i)))
  {
    var b := Blend(t, Corner(i));
    if i == 0 {
      assert b.x == t[i].x && b.y == t[i].y && b.z == t[i].z && b.w == t[i].w;
    } else if i == 1 {
      assert b.x == t[i].x && b.y == t[i].y && b.z == t[i].z && b.w == t[i].w;
    } else {
      assert b.x == t[i].x && b.y == t[i].y && b.z == t[i].z && b.w == t[i].w;
    }
  }

  /**
   * A zero start code puts the start vertex first, with weight 1 on its own corner; an edge whose
   * codes share a bit, when the start code is not zero, contributes nothing; an edge contributes
   * at most three points, each faithful.
   */
  lemma EdgePointsSound(t: seq<Vec4>, c: bv8, n: bv8, i: int)
    requires |t| == 3 && 0 <= i < 3
    ensures c == 0 ==> EdgePoints(t[i], t[Next(i)], c, n, i)[0] == Point(t[i], Corner(i))
    ensures c != 0 && c & n != 0 ==> EdgePoints(t[i], t[Next(i)], c, n, i) == []
    ensures |EdgePoints(t[i], t[Next(i)], c, n, i)| <= 3
    ensures forall p :: p in EdgePoints(t[i], t[Next(i)], c, n, i) ==> Faithful(t, p)
  {
    var cross := Crossings(t[i], t[Next(i)], i, c ^ n, 0, 0);
    CrossingsSound(t, i, c ^ n, 0, 0);
    EdgeRejectIsCommonBit(c, n);
    if c == 0 {
      assert EdgePoints(t[i], t[Next(i)], c, n, i) == [Point(t[i], Corner(i))] + cross;
      CornerFaithful(t, i);
    }
  }

  /** The three edges put at most nine points into the buffers, every one faithful. */
  lemma PointsSound(t: seq<Vec4>)
    requires |t| == 3
    ensures |Points(t)| <= 9
    ensures forall p :: p in Points(t) ==> Faithful(t, p)
  {
    var r0, r1, r2 := Region(t[0]), Region(t[1]), Region(t[2]);
    EdgePointsSound(t, r0, r1, 0);
    EdgePointsSound(t, r1, r2, 1);
    EdgePointsSound(t, r2, r0, 2);
  }

  /** With both w positive, no plane this edge crosses gives a zero denominator. */
  lemma PositiveWDivisible(cv: Vec4, nv: Vec4)
    requires cv.w > 0.0 && nv.w > 0.0
    ensures Divisible(cv, nv, Region(cv) ^ Region(nv))
  {
    forall j | 0 <= j < 6 && Crosses(Region(cv) ^ Region(nv), j)
      ensures Denom(cv, nv, j) != 0.0
    {
      var comp := j / 2;
      var bit := PlaneBit(j);
      RegionBits(cv);
      RegionBits(nv);
      assert (Region(cv) & bit != 0) != (Region(nv) & bit != 0) by {
        assert (Region(cv) ^ Region(nv)) & bit != 0;
      }
      if j % 2 == 1 {
        // with w > 0, comp > w excludes comp < -w
        assert (cv.At(comp) > cv.w) != (nv.At(comp) > nv.w);
      } else {
        assert (cv.At(comp) < -cv.w) != (nv.At(comp) < -nv.w);
      }
    }
  }

  /** With every w positive, no crossing the code computes divides by zero. */
  lemma PositiveWClippable(a: Vec4, b: Vec4, c: Vec4)
    requires a.w > 0.0 && b.w > 0.0 && c.w > 0.0
    ensures Clippable(a, b, c)
  {
    PositiveWDivisible(a, b);
    PositiveWDivisible(b, c);
    PositiveWDivisible(c, a);
  }

  // ----- Fan triangulation -----

  /** Row k of the point buffers; rows the walk did not fill are read as zeros (they are uninitialised in the code). */
  function PointAt(pts: seq<Point>, k: int): Point
  {
    if 0 <= k < |pts| then pts[k] else Point(Vec4(0.0, 0.0, 0.0, 0.0), Bary(0.0, 0.0, 0.0))
  }

  /** The attributes of a point: attribute j is the weighted sum of attribute j of the three source vertices. */
  function Interp(r: seq<real>, attributes: int, b: Bary): (s: seq<real>)
    requires 0 <= attributes && StatOff(attributes) <= |r|
    ensures |s| == attributes
  {
    seq(attributes, j requires 0 <= j < attributes =>
      r[AttrSlot(attributes, 0, j)] * b.b0 + r[AttrSlot(attributes, 1, j)] * b.b1 + r[AttrSlot(attributes, 2, j)] * b.b2)
  }

  /** An output record for the points p, q, u of source record r: positions, interpolated attributes, the source's statics. */
  function FanRecord(r: seq<real>, attributes: int, statics: int, p: Point, q: Point, u: Point): (out: seq<real>)
    requires 0 <= attributes && 0 <= statics && |r| == Pitch(attributes, statics)
    ensures |out| == Pitch(attributes, statics)
  {
    var parts := [Pos(p.pos), Pos(q.pos), Pos(u.pos),
      Interp(r, attributes, p.bary), Interp(r, attributes, q.bary), Interp(r, attributes, u.bary), r[StatOff(attributes)..]];
    FlattenSeven(parts);
    Flatten(parts)
  }

  /** Seven runs laid one after another. */
  lemma FlattenSeven<T>(parts: seq<seq<T>>)
    requires |parts| == 7
    ensures Flatten(parts) == parts[0] + parts[1] + parts[2] + parts[3] + parts[4] + parts[5] + parts[6]
  {
    var t := parts;
    assert Flatten(t[6..]) == t[6] by {
      assert t[6..][1..] == [];
    }
    assert Flatten(t[5..]) == t[5] + t[6] by {
      assert t[5..][1..] == t[6..];
    }
    assert Flatten(t[4..]) == t[4] + (t[5] + t[6]) by {
      assert t[4..][1..] == t[5..];
    }
    assert Flatten(t[3..]) == t[3] + (t[4] + (t[5] + t[6])) by {
      assert t[3..][1..] == t[4..];
    }
    assert Flatten(t[2..]) == t[2] + (t[3] + (t[4] + (t[5] + t[6]))) by {
      assert t[2..][1..] == t[3..];
    }
    assert Flatten(t[1..]) == t[1] + (t[2] + (t[3] + (t[4] + (t[5] + t[6])))) by {
      assert t[1..][1..] == t[2..];
    }
    assert Flatten(t) == t[0] + (t[1] + (t[2] + (t[3] + (t[4] + (t[5] + t[6])))));
    Assoc(t[0], t[1], t[2] + (t[3] + (t[4] + (t[5] + t[6]))));
    Assoc(t[0] + t[1], t[2], t[3] + (t[4] + (t[5] + t[6])));
    Assoc(t[0] + t[1] + t[2], t[3], t[4] + (t[5] + t[6]));
    Assoc(t[0] + t[1] + t[2] + t[3], t[4], t[5] + t[6]);
    Assoc(t[0] + t[1] + t[2] + t[3] + t[4], t[5], t[6]);
  }

  /** Concatenation regroups. */
  lemma Assoc<T>(a: seq<T>, b: seq<T>, c: seq<T>)
    ensures a + (b + c) == a + b + c
  {
  }

  /** The number of triangles the general path writes for n points: (0, 1, 2), then (0, i, i + 1) for i = 2 .. n - 2. */
  function FanSize(n: int): int
  {
    if n <= 3 then 1 else n - 2
  }

  /** The fan over the points: triangle m has points 0, m + 1 and m + 2. */
  function Fan(r: seq<real>, attributes: int, statics: int, pts: seq<Point>): (f: seq<seq<real>>)
    requires 0 <= attributes && 0 <= statics && |r| == Pitch(attributes, statics)
    ensures |f| == FanSize(|pts|)
  {
    seq(FanSize(|pts|), m requires 0 <= m < FanSize(|pts|) =>
      FanRecord(r, attributes, statics, PointAt(pts, 0), PointAt(pts, m + 1), PointAt(pts, m + 2)))
  }

  function Pick(p: Point, q: Point, u: Point, k: int): Point
  {
    if k == 0 then p else if k == 1 then q else u
  }

  /** Attribute j of the point's interpolation, written out. */
  lemma InterpAt(r: seq<real>, attributes: int, b: Bary, j: int)
    requires 0 <= attributes && StatOff(attributes) <= |r| && 0 <= j < attributes
    ensures Interp(r, attributes, b)[j]
      == r[AttrSlot(attributes, 0, j)] * b.b0 + r[AttrSlot(attributes, 1, j)] * b.b1 + r[AttrSlot(attributes, 2, j)] * b.b2
  {
  }

  /** A fan record is its seven runs: three positions, three interpolated attribute blocks, the statics. */
  lemma FanRecordUnfold(r: seq<real>, attributes: int, statics: int, p: Point, q: Point, u: Point)
    requires 0 <= attributes && 0 <= statics && |r| == Pitch(attributes, statics)
    ensures FanRecord(r, attributes, statics, p, q, u) == Pos(p.pos) + Pos(q.pos) + Pos(u.pos)
      + Interp(r, attributes, p.bary) + Interp(r, attributes, q.bary) + Interp(r, attributes, u.bary)
      + r[StatOff(attributes)..]
  {
    FlattenSeven([Pos(p.pos), Pos(q.pos), Pos(u.pos),
      Interp(r, attributes, p.bary), Interp(r, attributes, q.bary), Interp(r, attributes, u.bary), r[StatOff(attributes)..]]);
  }

  /** A fan record carries the source's statics verbatim, and the position of its vertex k is that of the k-th point. */
  lemma FanRecordLayout(r: seq<real>, attributes: int, statics: int, p: Point, q: Point, u: Point, k: int)
    requires 0 <= attributes && 0 <= statics && |r| == Pitch(attributes, statics) && 0 <= k < 3
    ensures FanRecord(r, attributes, statics, p, q, u)[StatOff(attributes)..] == r[StatOff(attributes)..]
    ensures FanRecord(r, attributes, statics, p, q, u)[4 * k..4 * k + 4] == Pos(Pick(p, q, u, k).pos)
  {
    var f := FanRecord(r, attributes, statics, p, q, u);
    FanRecordUnfold(r, attributes, statics, p, q, u);
    var pos := Pos(p.pos) + Pos(q.pos) + Pos(u.pos);
    var att := Interp(r, attributes, p.bary) + Interp(r, attributes, q.bary) + Interp(r, attributes, u.bary);
    assert f == pos + att + r[StatOff(attributes)..];
    assert f[..12] == pos;
  }

  /** Each attribute of vertex k of a fan record is the sum of the source vertices' attributes weighted by the k-th point's weights. */
  lemma FanRecordAttributes(r: seq<real>, attributes: int, statics: int, p: Point, q: Point, u: Point, k: int, j: int)
    requires 0 <= attributes && 0 <= statics && |r| == Pitch(attributes, statics) && 0 <= k < 3 && 0 <= j < attributes
    ensures var b := Pick(p, q, u, k).bary;
      FanRecord(r, attributes, statics, p, q, u)[AttrSlot(attributes, k, j)]
        == r[AttrSlot(attributes, 0, j)] * b.b0 + r[AttrSlot(attributes, 1, j)] * b.b1 + r[AttrSlot(attributes, 2, j)] * b.b2
  {
    FanRecordInterp(r, attributes, statics, p, q, u, k, j);
    InterpAt(r, attributes, Pick(p, q, u, k).bary, j);
  }

  /** Attribute j of vertex k of a fan record is attribute j of the k-th point's interpolation. */
  lemma FanRecordInterp(r: seq<real>, attributes: int, statics: int, p: Point, q: Point, u: Point, k: int, j: int)
    requires 0 <= attributes && 0 <= statics && |r| == Pitch(attributes, statics) && 0 <= k < 3 && 0 <= j < attributes
    ensures FanRecord(r, attributes, statics, p, q, u)[AttrSlot(attributes, k, j)] == Interp(r, attributes, Pick(p, q, u, k).bary)[j]
  {
    var f := FanRecord(r, attributes, statics, p, q, u);
    var pos := Pos(p.pos) + Pos(q.pos) + Pos(u.pos);
    var ip, iq, iu := Interp(r, attributes, p.bary), Interp(r, attributes, q.bary), Interp(r, attributes, u.bary);
    var blk := if k == 0 then ip else if k == 1 then iq else iu;
    assert f == pos + (ip + iq + iu) + r[StatOff(attributes)..] by {
      FanRecordUnfold(r, attributes, statics, p, q, u);
    }
    ThreeBlocks(ip, iq, iu, attributes, k, j);
    AfterPositions(pos, ip + iq + iu, r[StatOff(attributes)..], attributes * k + j);
  }

  /** Element j of block k of three blocks of length A each. */
  lemma ThreeBlocks(x: seq<real>, y: seq<real>, z: seq<real>, A: int, k: int, j: int)
    requires |x| == A && |y| == A && |z| == A && 0 <= k < 3 && 0 <= j < A
    ensures 0 <= A * k + j < |x + y + z|
    ensures (x + y + z)[A * k + j] == (if k == 0 then x else if k == 1 then y else z)[j]
  {
    if k == 1 {
      assert A * k == A;
    } else if k == 2 {
      assert A * k == A + A;
    }
  }

  /** Element o of the middle run of a record that starts with twelve positions. */
  lemma AfterPositions(pos: seq<real>, mid: seq<real>, rest: seq<real>, o: int)
    requires |pos| == 12 && 0 <= o < |mid|
    ensures (pos + mid + rest)[12 + o] == mid[o]
  {
  }

  /** The positions of a fan record: vertex k's four doubles at 4 k. */
  lemma FanRecordPositions(r: seq<real>, attributes: int, statics: int, p: Point, q: Point, u: Point)
    requires 0 <= attributes && 0 <= statics && |r| == Pitch(attributes, statics)
    ensures forall k, m :: 0 <= k < 3 && 0 <= m < 4 ==>
      FanRecord(r, attributes, statics, p, q, u)[4 * k + m] == Pos(Pick(p, q, u, k).pos)[m]
  {
    forall k, m | 0 <= k < 3 && 0 <= m < 4
      ensures FanRecord(r, attributes, statics, p, q, u)[4 * k + m] == Pos(Pick(p, q, u, k).pos)[m]
    {
      FanRecordLayout(r, attributes, statics, p, q, u, k);
    }
  }

  /** The attributes of a fan record: attribute j of vertex k, interpolated with the k-th point's weights. */
  lemma FanRecordInterpolated(r: seq<real>, attributes: int, statics: int, p: Point, q: Point, u: Point)
    requires 0 <= attributes && 0 <= statics && |r| == Pitch(attributes, statics)
    ensures forall k, j :: 0 <= k < 3 && 0 <= j < attributes ==>
      FanRecord(r, attributes, statics, p, q, u)[AttrSlot(attributes, k, j)] == Interp(r, attributes, Pick(p, q, u, k).bary)[j]
  {
    forall k, j | 0 <= k < 3 && 0 <= j < attributes
      ensures FanRecord(r, attributes, statics, p, q, u)[AttrSlot(attributes, k, j)] == Interp(r, attributes, Pick(p, q, u, k).bary)[j]
    {
      FanRecordAttributes(r, attributes, statics, p, q, u, k, j);
      InterpAt(r, attributes, Pick(p, q, u, k).bary, j);
    }
  }

  /** The attributes of vertex k of a fan record lie at offset o = 12 + A k, interpolated with the k-th point's weights. */
  lemma FanRecordBlock(r: seq<real>, attributes: int, statics: int, p: Point, q: Point, u: Point, k: int, o: int)
    requires 0 <= attributes && 0 <= statics && |r| == Pitch(attributes, statics) && 0 <= k < 3
    requires o == AttrSlot(attributes, k, 0)
    ensures forall j :: 0 <= j < attributes ==>
      FanRecord(r, attributes, statics, p, q, u)[o + j] == Interp(r, attributes, Pick(p, q, u, k).bary)[j]
  {
    forall j | 0 <= j < attributes
      ensures FanRecord(r, attributes, statics, p, q, u)[o + j] == Interp(r, attributes, Pick(p, q, u, k).bary)[j]
    {
      FanRecordInterp(r, attributes, statics, p, q, u, k, j);
    }
  }

  /** Fan triangle m is the record of points 0, m + 1 and m + 2. */
  lemma FanAt(r: seq<real>, attributes: int, statics: int, pts: seq<Point>, m: int, k: int)
    requires 0 <= attributes && 0 <= statics && |r| == Pitch(attributes, statics)
    requires 0 <= m < FanSize(|pts|) && 0 <= k < 3
    ensures Fan(r, attributes, statics, pts)[m]
      == FanRecord(r, attributes, statics, PointAt(pts, 0), PointAt(pts, m + 1), PointAt(pts, m + 2))
    ensures Pick(PointAt(pts, 0), PointAt(pts, m + 1), PointAt(pts, m + 2), k) == PointAt(pts, FanCorner(m, k))
  {
  }

  /** Vertex k (0, 1, 2) of fan triangle m is point FanCorner(m, k). */
  function FanCorner(m: int, k: int): int
  {
    if k == 0 then 0 else m + k
  }

  /** With three or more points every fan vertex is a walk point, so its attributes use the weights that also give its position. */
  lemma FanFaithful(r: seq<real>, attributes: int, statics: int, m: int, k: int)
    requires 0 <= attributes && 0 <= statics && |r| == Pitch(attributes, statics)
    requires |Points(Tri(r))| >= 3 && 0 <= m < FanSize(|Points(Tri(r))|) && 0 <= k < 3
    ensures Faithful(Tri(r), PointAt(Points(Tri(r)), FanCorner(m, k)))
  {
    var pts := Points(Tri(r));
    PointsSound(Tri(r));
    assert pts[FanCorner(m, k)] in pts;
  }

  // ----- The whole stream -----

  /** What the clipper produces for one record, before any capacity check. */
  function Output(r: seq<real>, attributes: int, statics: int): (out: seq<seq<real>>)
    requires 0 <= attributes && 0 <= statics && |r| == Pitch(attributes, statics)
  {
    var t := Tri(r);
    match KindOf(Region(t[0]), Region(t[1]), Region(t[2]))
    case Inside => [r]
    case Outside => []
    case Cut => Fan(r, attributes, statics, Points(t))
  }

  /** Whether the record goes down the general path, where the capacity is checked. */
  predicate IsCut(r: seq<real>)
    requires |r| >= 12
  {
    var t := Tri(r);
    KindOf(Region(t[0]), Region(t[1]), Region(t[2])) == Cut
  }

  predicate Records(rs: seq<seq<real>>, pitch: int)
  {
    forall n :: 0 <= n < |rs| ==> |rs[n]| == pitch
  }

  function Outputs(rs: seq<seq<real>>, attributes: int, statics: int): (os: seq<seq<seq<real>>>)
    requires 0 <= attributes && 0 <= statics && Records(rs, Pitch(attributes, statics))
    ensures |os| == |rs|
  {
    seq(|rs|, n requires 0 <= n < |rs| => Output(rs[n], attributes, statics))
  }

  function CutFlags(rs: seq<seq<real>>): (cs: seq<bool>)
    requires forall n :: 0 <= n < |rs| ==> |rs[n]| >= 12
    ensures |cs| == |rs|
  {
    seq(|rs|, n requires 0 <= n < |rs| => IsCut(rs[n]))
  }

  function Flatten<T>(os: seq<seq<T>>): seq<T>
  {
    if os == [] then [] else os[0] + Flatten(os[1..])
  }

  /**
   * Writing the outputs os one record after another, when `written` already holds w: where cuts[n]
   * holds, the count is checked after every record and the routine returns when it equals the capacity.
   */
  function ClipOver(os: seq<seq<seq<real>>>, cuts: seq<bool>, capacity: int, w: int): seq<seq<real>>
    requires |os| == |cuts|
  {
    if os == [] then []
    else if cuts[0] && w < capacity <= w + |os[0]| then os[0][..capacity - w]
    else os[0] + ClipOver(os[1..], cuts[1..], capacity, w + |os[0]|)
  }

  /**
   * What GCORE_ClipTriangles writes for the records rs: accepted records are copied with no capacity
   * check, so the output is the unbounded output cut only at the first general-path record that
   * brings `written` to the capacity.
   */
  function Clip(rs: seq<seq<real>>, attributes: int, statics: int, capacity: int): (c: seq<seq<real>>)
    requires 0 <= attributes && 0 <= statics && Records(rs, Pitch(attributes, statics))
    ensures var u := Unbounded(rs, attributes, statics);
      |c| <= |u| && c == u[..|c|] && (|c| < |u| ==> |c| == capacity)
  {
    ClipOverPrefix(Outputs(rs, attributes, statics), CutFlags(rs), capacity, 0);
    ClipOver(Outputs(rs, attributes, statics), CutFlags(rs), capacity, 0)
  }

  /** Every record's output, one after the other, with no capacity. */
  function Unbounded(rs: seq<seq<real>>, attributes: int, statics: int): seq<seq<real>>
    requires 0 <= attributes && 0 <= statics && Records(rs, Pitch(attributes, statics))
  {
    Flatten(Outputs(rs, attributes, statics))
  }

  /**
   * The output is a prefix of the unbounded output, and it is shorter only when the general path
   * stopped with `written` equal to the capacity.
   */
  lemma {:induction false} ClipOverPrefix(os: seq<seq<seq<real>>>, cuts: seq<bool>, capacity: int, w: int)
    requires |os| == |cuts|
    ensures var c, u := ClipOver(os, cuts, capacity, w), Flatten(os);
      |c| <= |u| && c == u[..|c|] && (|c| < |u| ==> w + |c| == capacity)
    decreases |os|
  {
    if os != [] {
      var u := Flatten(os);
      assert u == os[0] + Flatten(os[1..]);
      if cuts[0] && w < capacity <= w + |os[0]| {
        assert u[..capacity - w] == os[0][..capacity - w];
      } else {
        ClipOverPrefix(os[1..], cuts[1..], capacity, w + |os[0]|);
        var c1 := ClipOver(os[1..], cuts[1..], capacity, w + |os[0]|);
        assert u[..|os[0]| + |c1|] == os[0] + Flatten(os[1..])[..|c1|];
      }
    }
  }

  /** A record with all three codes zero is copied whole; one whose codes share a bit produces nothing. */
  lemma OutputTrivial(r: seq<real>, attributes: int, statics: int)
    requires 0 <= attributes && 0 <= statics && |r| == Pitch(attributes, statics)
    ensures var t := Tri(r);
      (Region(t[0]) | Region(t[1]) | Region(t[2]) == 0 ==> Output(r, attributes, statics) == [r])
    ensures var t := Tri(r);
      (Region(t[0]) | Region(t[1]) | Region(t[2]) != 0 && Region(t[0]) & Region(t[1]) & Region(t[2]) != 0 ==> Output(r, attributes, statics) == [])
  {
    var t := Tri(r);
    TrivialRejectIsCommonBit(Region(t[0]), Region(t[1]), Region(t[2]));
  }

  /** The general path writes max(1, points - 2) records. */
  lemma OutputCutSize(r: seq<real>, attributes: int, statics: int)
    requires 0 <= attributes && 0 <= statics && |r| == Pitch(attributes, statics) && IsCut(r)
    ensures |Output(r, attributes, statics)| == if |Points(Tri(r))| <= 3 then 1 else |Points(Tri(r))| - 2
  {
  }

  // ----- The capacity check (finding) -----

  /** A record with no attributes or statics whose three vertices are the origin with w = 1. */
  function InsideRecord(): (r: seq<real>)
    ensures |r| == Pitch(0, 0)
  {
    [0.0, 0.0, 0.0, 1.0, 0.0, 0.0, 0.0, 1.0, 0.0, 0.0, 0.0, 1.0]
  }

  /** The accept path never checks the capacity: with room for one triangle, two accepted records are both written. */
  lemma AcceptIgnoresCapacity()
    ensures |Clip([InsideRecord(), InsideRecord()], 0, 0, 1)| == 2
  {
    var r := InsideRecord();
    var t := Tri(r);
    assert Region(t[0]) == 0 && Region(t[1]) == 0 && Region(t[2]) == 0;
    assert Output(r, 0, 0) == [r];
    assert !IsCut(r);
    var os, cuts := Outputs([r, r], 0, 0), CutFlags([r, r]);
    assert os[1..] == [[r]] && cuts[1..] == [false];
    assert ClipOver(os[1..], cuts[1..], 1, 1) == [r];
  }

  /** Writing the outputs os with `w` records written already and room for `capacity`: a record is written only while there is room. */
  function WithinCapacity(os: seq<seq<seq<real>>>, capacity: int, w: int): seq<seq<real>>
  {
    if os == [] || capacity <= w then []
    else if capacity - w <= |os[0]| then os[0][..capacity - w]
    else os[0] + WithinCapacity(os[1..], capacity, w + |os[0]|)
  }

  /** One record further into the outputs, with room left for at least one more record; w' counts the records after this one. */
  lemma WithinCapacityStep(os: seq<seq<seq<real>>>, n: int, capacity: int, w: int, w': int)
    requires 0 <= n < |os| && w < capacity && w' == w + |os[n]|
    ensures WithinCapacity(os[n..], capacity, w) ==
      if capacity - w <= |os[n]| then os[n][..capacity - w] else os[n] + WithinCapacity(os[n + 1..], capacity, w')
  {
    assert os[n..][0] == os[n] && os[n..][1..] == os[n + 1..];
  }

  /** The clipper with the capacity checked on the accept path as well: the routine GCoreClipper.ClipTriangles computes this. */
  function ClipChecked(rs: seq<seq<real>>, attributes: int, statics: int, capacity: int): seq<seq<real>>
    requires 0 <= attributes && 0 <= statics && Records(rs, Pitch(attributes, statics))
  {
    WithinCapacity(Outputs(rs, attributes, statics), capacity, 0)
  }

  function Min(a: int, b: int): int
  {
    if a <= b then a else b
  }

  /** Writing within the capacity is the unbounded output cut to the room that is left. */
  lemma {:induction false} WithinCapacityIsTruncation(os: seq<seq<seq<real>>>, capacity: int, w: int)
    requires w <= capacity
    ensures WithinCapacity(os, capacity, w) == Flatten(os)[..Min(capacity - w, |Flatten(os)|)]
    decreases |os|
  {
    if os != [] && w < capacity {
      var u := Flatten(os);
      assert u == os[0] + Flatten(os[1..]);
      if capacity - w <= |os[0]| {
        assert u[..capacity - w] == os[0][..capacity - w];
      } else {
        WithinCapacityIsTruncation(os[1..], capacity, w + |os[0]|);
        var k := Min(capacity - w - |os[0]|, |Flatten(os[1..])|);
        assert u[..|os[0]| + k] == os[0] + Flatten(os[1..])[..k];
      }
    }
  }

  /** With the check on every path, the clipper writes the first `capacity` records of the unbounded output, never more. */
  lemma ClipCheckedIsTruncation(rs: seq<seq<real>>, attributes: int, statics: int, capacity: int)
    requires 0 <= attributes && 0 <= statics && Records(rs, Pitch(attributes, statics)) && 0 <= capacity
    ensures ClipChecked(rs, attributes, statics, capacity)
      == Unbounded(rs, attributes, statics)[..Min(capacity, |Unbounded(rs, attributes, statics)|)]
    ensures |ClipChecked(rs, attributes, statics, capacity)| <= capacity
  {
    WithinCapacityIsTruncation(Outputs(rs, attributes, statics), capacity, 0);
  }

  /** When the unbounded output fits, the corrected clipper and the code as written agree. */
  lemma {:induction false} WithinCapacityAgrees(os: seq<seq<seq<real>>>, cuts: seq<bool>, capacity: int, w: int)
    requires |os| == |cuts| && w + |Flatten(os)| < capacity
    ensures WithinCapacity(os, capacity, w) == ClipOver(os, cuts, capacity, w) == Flatten(os)
    decreases |os|
  {
    if os != [] {
      assert Flatten(os) == os[0] + Flatten(os[1..]);
      WithinCapacityAgrees(os[1..], cuts[1..], capacity, w + |os[0]|);
    }
  }

  lemma ClipAgrees(rs: seq<seq<real>>, attributes: int, statics: int, capacity: int)
    requires 0 <= attributes && 0 <= statics && Records(rs, Pitch(attributes, statics))
    requires |Unbounded(rs, attributes, statics)| < capacity
    ensures ClipChecked(rs, attributes, statics, capacity) == Clip(rs, attributes, statics, capacity) == Unbounded(rs, attributes, statics)
  {
    WithinCapacityAgrees(Outputs(rs, attributes, statics), CutFlags(rs), capacity, 0);
  }

  // ----- The six-row point buffers (finding) -----

  /** The number of rows of `coordinates` and `barycentric` in the code. */
  const SourceRows := 6

  /** The triangle of the finding: one vertex inside, one beyond x = w and y = w, one beyond x = -w and y = -w. */
  function SevenPointTriangle(): (t: seq<Vec4>)
    ensures |t| == 3
  {
    [Vec4(0.5, 0.0, 0.0, 1.0), Vec4(1.5, 2.0, 0.0, 1.0), Vec4(-2.5, -2.0, 0.0, 1.0)]
  }

  lemma SevenRegions()
    ensures Region(SevenPointTriangle()[0]) == 0
    ensures Region(SevenPointTriangle()[1]) == 10
    ensures Region(SevenPointTriangle()[2]) == 5
  {
    var t := SevenPointTriangle();
    assert Region(t[0]) == 0;
    assert Region(t[1]) == 10;
    assert Region(t[2]) == 5;
  }

  lemma SevenEdge0()
    ensures |Crossings(SevenPointTriangle()[0], SevenPointTriangle()[1], 0, 10, 0, 0)| == 2
  {
    var t := SevenPointTriangle();
    SevenRegions();
    assert Weight(t[0], t[1], 3) == 0.5;
    assert Crossings(t[0], t[1], 0, 10, 2, 1) == Crossings(t[0], t[1], 0, 10, 3, 1);
    assert |Crossings(t[0], t[1], 0, 10, 3, 1)| == 1;
    assert Weight(t[0], t[1], 1) == 0.5;
    assert |Crossings(t[0], t[1], 0, 10, 1, 0)| == 2;
  }

  lemma SevenEdge1()
    ensures |Crossings(SevenPointTriangle()[1], SevenPointTriangle()[2], 1, 15, 0, 0)| == 2
  {
    var t := SevenPointTriangle();
    SevenRegions();
    assert Weight(t[1], t[2], 3) == 0.25;
    assert |Crossings(t[1], t[2], 1, 15, 3, 1)| == 1;
    assert Weight(t[1], t[2], 2) == 0.75;
    assert Crossings(t[1], t[2], 1, 15, 2, 1) == Crossings(t[1], t[2], 1, 15, 3, 1);
    assert Weight(t[1], t[2], 1) == 0.125;
    assert Crossings(t[1], t[2], 1, 15, 1, 1) == Crossings(t[1], t[2], 1, 15, 2, 1);
    assert Weight(t[1], t[2], 0) == 0.625;
    assert |Crossings(t[1], t[2], 1, 15, 0, 0)| == 2;
  }

  lemma SevenEdge2()
    ensures |Crossings(SevenPointTriangle()[2], SevenPointTriangle()[0], 2, 5, 0, 0)| == 2
  {
    var t := SevenPointTriangle();
    SevenRegions();
    assert Weight(t[2], t[0], 2) == 0.5;
    assert |Crossings(t[2], t[0], 2, 5, 2, 1)| == 1;
    assert Crossings(t[2], t[0], 2, 5, 1, 1) == Crossings(t[2], t[0], 2, 5, 2, 1);
    assert Weight(t[2], t[0], 0) == 0.5;
    assert |Crossings(t[2], t[0], 2, 5, 0, 0)| == 2;
  }

  /** The edge walk as written collects seven points for this triangle, one more than the buffers hold. */
  lemma SevenPointsOverflow()
    ensures Clippable(SevenPointTriangle()[0], SevenPointTriangle()[1], SevenPointTriangle()[2])
    ensures |Points(SevenPointTriangle())| == 7 > SourceRows
  {
    var t := SevenPointTriangle();
    PositiveWClippable(t[0], t[1], t[2]);
    SevenRegions();
    SevenEdge0();
    SevenEdge1();
    SevenEdge2();
    assert |EdgePoints(t[0], t[1], 0, 10, 0)| == 3;
    assert |EdgePoints(t[1], t[2], 10, 5, 1)| == 2;
    assert |EdgePoints(t[2], t[0], 5, 0, 2)| == 2;
  }
}
