/**
 * Marching simplices over one cube cell: the cube with corners numbered by their
 * coordinate bits (x = bit 0, y = bit 1, z = bit 2) is cut into six tetrahedra
 * 0 -> t1 -> t2 -> 7 along cube edges, and every tetrahedron whose corner
 * densities change sign emits the edges the isosurface crosses, as index pairs
 * with an interpolation weight.
 */
module KMSA {

  /** One emitted crossing: the two cube corners of the crossed edge, weight on `first`. */
  datatype Pair = Pair(first: int, second: int)

  predicate OneBit(x: int)
  {
    x == 1 || x == 2 || x == 4
  }

  /** Corner `b` is corner `a` with exactly one more coordinate bit set. */
  predicate Edge(a: int, b: int)
  {
    && 0 <= a
    && ((b - a == 1 && a % 2 == 0) || (b - a == 2 && a % 4 < 2) || (b - a == 4 && a % 8 < 4))
  }

  /**
   * t[2] inferred from t[1] and the orientation n: t[1] plus 7 & ((t[1]<<1) + (t[1]>>2)) when n is
   * non-zero, else plus 7 & ((t[1]<<2) + (t[1]>>1)). The operand is non-negative, so 7 & x is x % 8.
   */
  function Second(t1: int, n: int): int
    requires OneBit(t1) && (n == 0 || n == 1)
  {
    t1 + (if n != 0 then t1 * 2 + t1 / 4 else t1 * 4 + t1 / 2) % 8
  }

  /** t[2] is one cube edge past t[1] and one cube edge short of corner 7. */
  lemma SecondEdges(t1: int, n: int)
    requires OneBit(t1) && (n == 0 || n == 1)
    ensures Edge(t1, Second(t1, n)) && Edge(Second(t1, n), 7)
  {
    if t1 == 1 {
      assert Second(t1, n) == if n != 0 then 3 else 5;
    } else if t1 == 2 {
      assert Second(t1, n) == if n != 0 then 6 else 3;
    } else {
      assert Second(t1, n) == if n != 0 then 5 else 6;
    }
  }

  /** The four corners t[0..3] of the simplex with t[1] = t1 and orientation n. */
  function Simplex(t1: int, n: int): (t: seq<int>)
    requires OneBit(t1) && (n == 0 || n == 1)
    ensures ValidSimplex(t)
  {
    SecondEdges(t1, n);
    [0, t1, Second(t1, n), 7]
  }

  predicate ValidSimplex(t: seq<int>)
  {
    |t| == 4 && forall i :: 0 <= i < 4 ==> 0 <= t[i] < 8
  }

  /** Every simplex walks the cube from corner 0 to corner 7 along three edges. */
  lemma SimplexWalksEdges(t1: int, n: int)
    requires OneBit(t1) && (n == 0 || n == 1)
    ensures Simplex(t1, n)[0] == 0 && Simplex(t1, n)[3] == 7
    ensures Edge(0, t1) && Edge(t1, Simplex(t1, n)[2]) && Edge(Simplex(t1, n)[2], 7)
  {
    SecondEdges(t1, n);
  }

  /** The two orientations of one t1 are the two different ways on, and together the six simplices are every edge walk from 0 to 7. */
  lemma SixSimplices(a: int, b: int)
    requires Edge(0, a) && Edge(a, b) && Edge(b, 7)
    ensures OneBit(a) && Second(a, 0) != Second(a, 1) && (b == Second(a, 0) || b == Second(a, 1))
  {
  }

  /** The density of local vertex i of simplex t is positive. */
  predicate Inside(cs: seq<real>, t: seq<int>, i: int)
    requires |cs| == 8 && ValidSimplex(t) && 0 <= i < 4
  {
    cs[t[i]] > 0.0
  }

  /** The local indices below i whose density is positive (want) or not (!want), in ascending order. */
  function Select(cs: seq<real>, t: seq<int>, i: nat, want: bool): (l: seq<int>)
    requires |cs| == 8 && ValidSimplex(t) && i <= 4
    ensures |l| <= i
  {
    if i == 0 then []
    else Select(cs, t, i - 1, want) + (if Inside(cs, t, i - 1) == want then [i - 1] else [])
  }

  /** Every selected index is below i and has the wanted sign, and the list ascends. */
  lemma {:induction false} SelectSound(cs: seq<real>, t: seq<int>, i: nat, want: bool)
    requires |cs| == 8 && ValidSimplex(t) && i <= 4
    ensures forall j :: 0 <= j < |Select(cs, t, i, want)| ==>
      0 <= Select(cs, t, i, want)[j] < i && Inside(cs, t, Select(cs, t, i, want)[j]) == want
    ensures forall j, j' :: 0 <= j < j' < |Select(cs, t, i, want)| ==> Select(cs, t, i, want)[j] < Select(cs, t, i, want)[j']
  {
    if i > 0 {
      SelectSound(cs, t, i - 1, want);
    }
  }

  /** The two lists partition the local indices: each index is in the list its density selects. */
  lemma {:induction false} SelectPartition(cs: seq<real>, t: seq<int>, i: nat)
    requires |cs| == 8 && ValidSimplex(t) && i <= 4
    ensures |Select(cs, t, i, true)| + |Select(cs, t, i, false)| == i
    ensures forall j :: 0 <= j < i && Inside(cs, t, j) ==> j in Select(cs, t, i, true)
    ensures forall j :: 0 <= j < i && !Inside(cs, t, j) ==> j in Select(cs, t, i, false)
  {
    if i > 0 {
      SelectPartition(cs, t, i - 1);
      forall want: bool, j | 0 <= j < i && Inside(cs, t, j) == want
        ensures j in Select(cs, t, i, want)
      {
        var before := Select(cs, t, i - 1, want);
        if j < i - 1 {
          assert j in before;
        } else {
          assert Select(cs, t, i, want) == before + [j];
          assert Select(cs, t, i, want)[|before|] == j;
        }
      }
    }
  }

  function Abs(x: real): real
  {
    if x < 0.0 then -x else x
  }

  /** The density interpolated linearly along an edge, with weight w on the end of density x. */
  function Lerp(w: real, x: real, y: real): real
  {
    w * x + (1.0 - w) * y
  }

  /** Exactly one of the two densities is positive. */
  predicate Opposite(x: real, y: real)
  {
    (x > 0.0) != (y > 0.0)
  }

  /** The weight of the two-triangle case, 1 - x / (x - y), defined on edges whose ends differ in sign. */
  function EdgeWeight(x: real, y: real): real
    requires Opposite(x, y)
  {
    1.0 - x / (x - y)
  }

  /** The weight lies in [0, 1] and puts the zero of the interpolated density on the edge. */
  lemma WeightCrossing(x: real, y: real)
    requires Opposite(x, y)
    ensures 0.0 <= EdgeWeight(x, y) <= 1.0 && Lerp(EdgeWeight(x, y), x, y) == 0.0
  {
    if x > 0.0 {
      Fraction(x, x - y);
    } else {
      Fraction(-x, y - x);
      assert x / (x - y) == (-x) / (y - x);
    }
  }

  /** Weight of the single-triangle case: 1 - |x| / (|x| + |y|). */
  function SingleWeight(x: real, y: real): real
    requires Abs(x) + Abs(y) > 0.0
  {
    1.0 - Abs(x) / (Abs(x) + Abs(y))
  }

  /** On an edge whose ends differ in sign the single-triangle formula is the same weight as the two-triangle one. */
  lemma SingleWeightAgrees(x: real, y: real)
    requires Opposite(x, y)
    ensures Abs(x) + Abs(y) > 0.0 && SingleWeight(x, y) == EdgeWeight(x, y)
  {
    if x <= 0.0 {
      assert Abs(x) + Abs(y) == y - x;
      assert (-x) / (y - x) == x / (x - y);
    }
  }

  /** a / d is a fraction in [0, 1] when 0 <= a <= d. */
  lemma Fraction(a: real, d: real)
    requires 0.0 <= a <= d && d > 0.0
    ensures 0.0 <= a / d <= 1.0 && (a / d) * d == a
  {
  }

  /** Every entry is a local vertex index of a simplex. */
  predicate Locals(l: seq<int>)
  {
    forall j :: 0 <= j < |l| ==> 0 <= l[j] < 4
  }

  /** Pair i of the single triangle: the lone vertex p[0] joined to z[i], or to z[2 - i] when r is non-zero. */
  function TrianglePair(t: seq<int>, p: seq<int>, z: seq<int>, r: int, i: int): Pair
    requires ValidSimplex(t) && |p| == 1 && |z| == 3 && Locals(p) && Locals(z) && 0 <= i < 3
  {
    Pair(t[p[0]], t[z[if r != 0 then 2 - i else i]])
  }

  /** The single triangle around the lone vertex p[0]. */
  function Triangle(t: seq<int>, p: seq<int>, z: seq<int>, r: int): (ps: seq<Pair>)
    requires ValidSimplex(t) && |p| == 1 && |z| == 3 && Locals(p) && Locals(z)
    ensures |ps| == 3
  {
    seq(3, i requires 0 <= i < 3 => TrianglePair(t, p, z, r, i))
  }

  /** u and v select, for each of the six pairs of the quad, which positive and which non-positive vertex it joins. */
  const U: seq<int> := [0, 0, 1, 1, 1, 0]
  const V: seq<int> := [0, 1, 1, 1, 0, 0]

  /** Pair i of the quad: positive vertex p[u[i]] joined to z[v[i]], or to z[1 - v[i]] when r is non-zero. */
  function QuadPair(t: seq<int>, p: seq<int>, z: seq<int>, r: int, i: int): Pair
    requires ValidSimplex(t) && |p| == 2 && |z| == 2 && Locals(p) && Locals(z) && 0 <= i < 6
  {
    Pair(t[p[U[i]]], t[z[if r != 0 then 1 - V[i] else V[i]]])
  }

  /** The two triangles of the quad crossing a simplex with two positive vertices p and two other z. */
  function Quad(t: seq<int>, p: seq<int>, z: seq<int>, r: int): (ps: seq<Pair>)
    requires ValidSimplex(t) && |p| == 2 && |z| == 2 && Locals(p) && Locals(z)
    ensures |ps| == 6
  {
    seq(6, i requires 0 <= i < 6 => QuadPair(t, p, z, r, i))
  }

  /** p and z hold the positive and the other local vertices of simplex t, between them all four. */
  predicate Split(cs: seq<real>, t: seq<int>, p: seq<int>, z: seq<int>)
    requires |cs| == 8 && ValidSimplex(t)
  {
    && |p| + |z| == 4 && Locals(p) && Locals(z)
    && (forall j :: 0 <= j < |p| ==> Inside(cs, t, p[j]))
    && (forall j :: 0 <= j < |z| ==> !Inside(cs, t, z[j]))
  }

  /** The two selections split the four local vertices of t by sign. */
  lemma SelectSplit(cs: seq<real>, t: seq<int>)
    requires |cs| == 8 && ValidSimplex(t)
    ensures Split(cs, t, Select(cs, t, 4, true), Select(cs, t, 4, false))
  {
    SelectPartition(cs, t, 4);
    SelectSound(cs, t, 4, true);
    SelectSound(cs, t, 4, false);
  }

  /**
   * The switch on c = |p|: with three positive vertices the roles of p and z are exchanged and the
   * reverse flag starts at 0 instead of 1, so both single-triangle cases share one triangle shape.
   */
  function Emission(t: seq<int>, p: seq<int>, z: seq<int>, n: int): seq<Pair>
    requires ValidSimplex(t) && |p| + |z| == 4 && Locals(p) && Locals(z)
  {
    if |p| == 1 then Triangle(t, p, z, (p[0] + n + 1) % 2)
    else if |p| == 3 then Triangle(t, z, p, (z[0] + n + 0) % 2)
    else if |p| == 2 then Quad(t, p, z, (n + p[0] + p[1]) % 2)
    else []
  }

  /** What the simplex (t1, n) emits for the corner densities cs. */
  function Emit(cs: seq<real>, t1: int, n: int): seq<Pair>
    requires |cs| == 8 && OneBit(t1) && (n == 0 || n == 1)
  {
    var t := Simplex(t1, n);
    SelectSplit(cs, t);
    Emission(t, Select(cs, t, 4, true), Select(cs, t, 4, false), n)
  }

  /** Orientation n of the j-th simplex the loops visit: the inner loop alternates 0, 1. */
  function SimplexN(j: nat): int
  {
    if j == 1 || j == 3 || j == 5 then 1 else 0
  }

  /** t[1] of the j-th simplex the loops visit: j / 2 doublings of 1. */
  function SimplexT1(j: nat): int
    requires j < 6
    ensures OneBit(SimplexT1(j))
  {
    if j < 2 then 1 else if j < 4 then 2 else 4
  }

  /** What the first j simplices emit, in loop order. */
  function Prefix(cs: seq<real>, j: nat): seq<Pair>
    requires |cs| == 8 && j <= 6
  {
    if j == 0 then [] else Prefix(cs, j - 1) + Emit(cs, SimplexT1(j - 1), SimplexN(j - 1))
  }

  lemma PrefixStep(cs: seq<real>, j: nat, t1: int, n: int, done: seq<Pair>)
    requires |cs| == 8 && j < 6 && SimplexT1(j) == t1 && SimplexN(j) == n && done == Prefix(cs, j)
    ensures Prefix(cs, j + 1) == done + Emit(cs, t1, n)
  {
  }

  /** What the whole cube emits. */
  function Chunk(cs: seq<real>): seq<Pair>
    requires |cs| == 8
  {
    Prefix(cs, 6)
  }

  /** Number of corners of the simplex (t1, n) with positive density. */
  function Positives(cs: seq<real>, t1: int, n: int): nat
    requires |cs| == 8 && OneBit(t1) && (n == 0 || n == 1)
  {
    |Select(cs, Simplex(t1, n), 4, true)|
  }

  /** 0 or 4 positive corners emit nothing, 1 or 3 emit one triangle (3 pairs), 2 emit two triangles (6 pairs). */
  lemma EmitCount(cs: seq<real>, t1: int, n: int)
    requires |cs| == 8 && OneBit(t1) && (n == 0 || n == 1)
    ensures Positives(cs, t1, n) <= 4
    ensures var c := Positives(cs, t1, n);
      |Emit(cs, t1, n)| == (if c == 1 || c == 3 then 3 else if c == 2 then 6 else 0)
  {
  }

  /** An emitted pair joins two cube corners whose densities differ in sign. */
  predicate Crossing(cs: seq<real>, e: Pair)
    requires |cs| == 8
  {
    0 <= e.first < 8 && 0 <= e.second < 8 && Opposite(cs[e.first], cs[e.second])
  }

  lemma TriangleCrossings(cs: seq<real>, t: seq<int>, p: seq<int>, z: seq<int>, r: int)
    requires |cs| == 8 && ValidSimplex(t) && |p| == 1 && |z| == 3 && Locals(p) && Locals(z)
    requires forall j :: 0 <= j < 3 ==> Inside(cs, t, p[0]) != Inside(cs, t, z[j])
    ensures forall m :: 0 <= m < 3 ==> Crossing(cs, Triangle(t, p, z, r)[m])
  {
    forall m | 0 <= m < 3
      ensures Crossing(cs, Triangle(t, p, z, r)[m])
    {
      assert Inside(cs, t, p[0]) != Inside(cs, t, z[if r != 0 then 2 - m else m]);
    }
  }

  lemma QuadCrossings(cs: seq<real>, t: seq<int>, p: seq<int>, z: seq<int>, r: int)
    requires |cs| == 8 && ValidSimplex(t) && |p| == 2 && |z| == 2 && Locals(p) && Locals(z)
    requires forall j :: 0 <= j < 2 ==> Inside(cs, t, p[j]) && !Inside(cs, t, z[j])
    ensures forall m :: 0 <= m < 6 ==> Crossing(cs, Quad(t, p, z, r)[m])
  {
    forall m | 0 <= m < 6
      ensures Crossing(cs, Quad(t, p, z, r)[m])
    {
      assert Inside(cs, t, p[U[m]]) && !Inside(cs, t, z[if r != 0 then 1 - V[m] else V[m]]);
    }
  }

  lemma EmissionCrossings(cs: seq<real>, t: seq<int>, p: seq<int>, z: seq<int>, n: int)
    requires |cs| == 8 && ValidSimplex(t) && Split(cs, t, p, z)
    ensures forall m :: 0 <= m < |Emission(t, p, z, n)| ==> Crossing(cs, Emission(t, p, z, n)[m])
  {
    if |p| == 1 {
      TriangleCrossings(cs, t, p, z, (p[0] + n + 1) % 2);
    } else if |p| == 3 {
      TriangleCrossings(cs, t, z, p, (z[0] + n + 0) % 2);
    } else if |p| == 2 {
      QuadCrossings(cs, t, p, z, (n + p[0] + p[1]) % 2);
    }
  }

  /** Every pair a simplex emits is a crossing of its surface. */
  lemma EmitCrossings(cs: seq<real>, t1: int, n: int)
    requires |cs| == 8 && OneBit(t1) && (n == 0 || n == 1)
    ensures forall m :: 0 <= m < |Emit(cs, t1, n)| ==> Crossing(cs, Emit(cs, t1, n)[m])
  {
    var t := Simplex(t1, n);
    SelectSplit(cs, t);
    EmissionCrossings(cs, t, Select(cs, t, 4, true), Select(cs, t, 4, false), n);
  }

  /** In the two-triangle case pair 0 equals pair 5 and pair 2 equals pair 3: both triangles share the quad's diagonal. */
  lemma QuadSharesDiagonal(cs: seq<real>, t1: int, n: int)
    requires |cs| == 8 && OneBit(t1) && (n == 0 || n == 1)
    requires Positives(cs, t1, n) == 2
    ensures |Emit(cs, t1, n)| == 6
    ensures Emit(cs, t1, n)[0] == Emit(cs, t1, n)[5] && Emit(cs, t1, n)[2] == Emit(cs, t1, n)[3]
  {
  }

  /** Triangles a simplex with c positive corners emits. */
  function TriangleCount(c: nat): nat
  {
    if c == 1 || c == 3 then 1 else if c == 2 then 2 else 0
  }

  /** Triangles emitted by the first j simplices. */
  function Triangles(cs: seq<real>, j: nat): nat
    requires |cs| == 8 && j <= 6
  {
    if j == 0 then 0 else Triangles(cs, j - 1) + TriangleCount(Positives(cs, SimplexT1(j - 1), SimplexN(j - 1)))
  }

  /** Everything the first j simplices emit is whole triangles, at most two per simplex. */
  lemma {:induction false} PrefixSize(cs: seq<real>, j: nat)
    requires |cs| == 8 && j <= 6
    ensures |Prefix(cs, j)| == 3 * Triangles(cs, j) && Triangles(cs, j) <= 2 * j
  {
    if j > 0 {
      PrefixSize(cs, j - 1);
      EmitCount(cs, SimplexT1(j - 1), SimplexN(j - 1));
    }
  }

  /** The returned k = 2 * |Chunk| is a multiple of 6 and at most 72. */
  lemma ChunkSize(cs: seq<real>)
    requires |cs| == 8
    ensures 2 * |Chunk(cs)| == 6 * Triangles(cs, 6) && 2 * |Chunk(cs)| <= 72
  {
    PrefixSize(cs, 6);
  }

  lemma {:induction false} PrefixCrossings(cs: seq<real>, j: nat)
    requires |cs| == 8 && j <= 6
    ensures forall m :: 0 <= m < |Prefix(cs, j)| ==> Crossing(cs, Prefix(cs, j)[m])
  {
    if j > 0 {
      PrefixCrossings(cs, j - 1);
      EmitCrossings(cs, SimplexT1(j - 1), SimplexN(j - 1));
    }
  }

  /** Every pair the cube emits is an edge with exactly one positive corner. */
  lemma ChunkCrossings(cs: seq<real>)
    requires |cs| == 8
    ensures forall m :: 0 <= m < |Chunk(cs)| ==> Crossing(cs, Chunk(cs)[m])
  {
    PrefixCrossings(cs, 6);
  }

  /** The counting loop: a1[..c] receives the positive local indices and a2[..4 - c] the others, both ascending. */
  method Classify(corners: array<real>, t: seq<int>, a1: array<int>, a2: array<int>) returns (c: int)
    requires corners.Length >= 8 && ValidSimplex(t) && a1.Length == 4 && a2.Length == 4 && a1 != a2
    modifies a1, a2
    ensures c == |Select(corners[..8], t, 4, true)| && 4 - c == |Select(corners[..8], t, 4, false)|
    ensures a1[..c] == Select(corners[..8], t, 4, true) && a2[..4 - c] == Select(corners[..8], t, 4, false)
  {
    ghost var cs := corners[..8];
    c := 0;
    var i := 0;
    while i < 4
      invariant 0 <= c <= i <= 4
      invariant c == |Select(cs, t, i, true)| && i - c == |Select(cs, t, i, false)|
      invariant a1[..c] == Select(cs, t, i, true) && a2[..i - c] == Select(cs, t, i, false)
    {
      if corners[t[i]] > 0.0 {
        a1[c] := i;
        c := c + 1;
      } else {
        a2[i - c] := i;
      }
      i := i + 1;
    }
  }

  /** Pair e is a crossing written at position m: indices 2m and 2m + 1 are its corners, tvals[m] its weight. */
  ghost predicate WrittenAt(indices: array<int>, tvals: array<real>, cs: seq<real>, m: int, e: Pair)
    reads indices, tvals
  {
    && |cs| == 8 && 0 <= m && 2 * m + 1 < indices.Length && m < tvals.Length
    && Crossing(cs, e)
    && indices[2 * m] == e.first && indices[2 * m + 1] == e.second
    && tvals[m] == EdgeWeight(cs[e.first], cs[e.second])
  }

  /** The first k indices and k / 2 weights written so far are those of the crossings ps. */
  ghost predicate Written(indices: array<int>, tvals: array<real>, cs: seq<real>, k: int, ps: seq<Pair>)
    reads indices, tvals
  {
    && k == 2 * |ps| && k <= indices.Length && |ps| <= tvals.Length
    && forall m :: 0 <= m < |ps| ==> WrittenAt(indices, tvals, cs, m, ps[m])
  }

  /** The first i pairs of es are written right after the first h pairs. */
  ghost predicate Appended(indices: array<int>, tvals: array<real>, cs: seq<real>, h: int, es: seq<Pair>, i: int)
    reads indices, tvals
  {
    && 0 <= h && 0 <= i <= |es| && 2 * (h + i) <= indices.Length && h + i <= tvals.Length
    && forall m :: 0 <= m < i ==> WrittenAt(indices, tvals, cs, h + m, es[m])
  }

  lemma WrittenAppend(indices: array<int>, tvals: array<real>, cs: seq<real>, k0: int, done: seq<Pair>, es: seq<Pair>)
    requires Written(indices, tvals, cs, k0, done) && Appended(indices, tvals, cs, |done|, es, |es|)
    ensures Written(indices, tvals, cs, k0 + 2 * |es|, done + es)
  {
    forall m | |done| <= m < |done + es|
      ensures WrittenAt(indices, tvals, cs, m, (done + es)[m])
    {
      var d := m - |done|;
      assert m == |done| + d;
    }
  }

  /**
   * One step of either emission loop: the weight goes to tvals[k >> 1] and the two corner indices
   * to indices[k] and indices[k + 1], right after the pairs written so far.
   */
  method PutPair(indices: array<int>, tvals: array<real>, k: int, a: int, b: int, w: real,
                 ghost cs: seq<real>, ghost k0: int, ghost done: seq<Pair>, ghost es: seq<Pair>)
    returns (k': int)
    requires Written(indices, tvals, cs, k0, done) && Appended(indices, tvals, cs, |done|, es, |es|)
    requires k == k0 + 2 * |es| && k + 2 <= indices.Length && |done| + |es| < tvals.Length
    requires |cs| == 8 && Crossing(cs, Pair(a, b)) && w == EdgeWeight(cs[a], cs[b])
    modifies indices, tvals
    ensures k' == k + 2
    ensures Written(indices, tvals, cs, k0, done) && Appended(indices, tvals, cs, |done|, es + [Pair(a, b)], |es| + 1)
    ensures forall q :: k' <= q < indices.Length ==> indices[q] == old(indices[q])
    ensures forall q :: |done| + |es| + 1 <= q < tvals.Length ==> tvals[q] == old(tvals[q])
  {
    assert k / 2 == |done| + |es|;
    tvals[k / 2] := w;
    k' := k;
    indices[k'] := a;
    k' := k' + 1;
    indices[k'] := b;
    k' := k' + 1;
  }

  /** Cases 1 and 3 of the switch: the three pairs joining the lone vertex p[0] to z[0..2], reversed when r is non-zero. */
  method EmitTriangle(corners: array<real>, t: seq<int>, p: array<int>, z: array<int>, r: int,
                      indices: array<int>, tvals: array<real>, k0: int,
                      ghost cs: seq<real>, ghost done: seq<Pair>, ghost ps: seq<int>, ghost zs: seq<int>)
    returns (k: int)
    requires corners.Length >= 8 && cs == corners[..8] && ValidSimplex(t) && corners != tvals
    requires p != indices && z != indices && p.Length >= 1 && z.Length >= 3 && p[..1] == ps && z[..3] == zs
    requires |ps| == 1 && |zs| == 3 && Locals(ps) && Locals(zs)
    requires forall j :: 0 <= j < 3 ==> Inside(cs, t, ps[0]) != Inside(cs, t, zs[j])
    requires Written(indices, tvals, cs, k0, done) && k0 + 6 <= indices.Length && |done| + 3 <= tvals.Length
    modifies indices, tvals
    ensures k == k0 + 6 && Written(indices, tvals, cs, k, done + Triangle(t, ps, zs, r))
    ensures forall q :: k <= q < indices.Length ==> indices[q] == old(indices[q])
    ensures forall q :: |done| + 3 <= q < tvals.Length ==> tvals[q] == old(tvals[q])
  {
    ghost var es: seq<Pair> := [];
    k := k0;
    var i := 0;
    while i < 3
      invariant 0 <= i <= 3 && k == k0 + 2 * i && |es| == i
      invariant forall m :: 0 <= m < i ==> es[m] == TrianglePair(t, ps, zs, r, m)
      invariant Written(indices, tvals, cs, k0, done) && Appended(indices, tvals, cs, |done|, es, i)
      invariant forall q :: k <= q < indices.Length ==> indices[q] == old(indices[q])
      invariant forall q :: |done| + i <= q < tvals.Length ==> tvals[q] == old(tvals[q])
    {
      var pi := p[0];
      var zi := z[if r != 0 then 2 - i else i];
      assert pi == ps[0] && zi == zs[if r != 0 then 2 - i else i];
      assert Inside(cs, t, pi) != Inside(cs, t, zi);
      SingleWeightAgrees(corners[t[pi]], corners[t[zi]]);
      var w := 1.0 - (Abs(corners[t[pi]]) / (Abs(corners[t[pi]]) + Abs(corners[t[zi]])));
      k := PutPair(indices, tvals, k, t[pi], t[zi], w, cs, k0, done, es);
      es := es + [Pair(t[pi], t[zi])];
      i := i + 1;
    }
    assert es == Triangle(t, ps, zs, r);
    WrittenAppend(indices, tvals, cs, k0, done, es);
  }

  /** Case 2 of the switch: the six pairs of the quad's two triangles, chosen through u and v. */
  method EmitQuad(corners: array<real>, t: seq<int>, p: array<int>, z: array<int>, r: int,
                  indices: array<int>, tvals: array<real>, k0: int,
                  ghost cs: seq<real>, ghost done: seq<Pair>, ghost ps: seq<int>, ghost zs: seq<int>)
    returns (k: int)
    requires corners.Length >= 8 && cs == corners[..8] && ValidSimplex(t) && corners != tvals
    requires p != indices && z != indices && p.Length >= 2 && z.Length >= 2 && p[..2] == ps && z[..2] == zs
    requires |ps| == 2 && |zs| == 2 && Locals(ps) && Locals(zs)
    requires forall j :: 0 <= j < 2 ==> Inside(cs, t, ps[j]) && !Inside(cs, t, zs[j])
    requires Written(indices, tvals, cs, k0, done) && k0 + 12 <= indices.Length && |done| + 6 <= tvals.Length
    modifies indices, tvals
    ensures k == k0 + 12 && Written(indices, tvals, cs, k, done + Quad(t, ps, zs, r))
    ensures forall q :: k <= q < indices.Length ==> indices[q] == old(indices[q])
    ensures forall q :: |done| + 6 <= q < tvals.Length ==> tvals[q] == old(tvals[q])
  {
    ghost var es: seq<Pair> := [];
    k := k0;
    var i := 0;
    while i < 6
      invariant 0 <= i <= 6 && k == k0 + 2 * i && |es| == i
      invariant forall m :: 0 <= m < i ==> es[m] == QuadPair(t, ps, zs, r, m)
      invariant Written(indices, tvals, cs, k0, done) && Appended(indices, tvals, cs, |done|, es, i)
      invariant forall q :: k <= q < indices.Length ==> indices[q] == old(indices[q])
      invariant forall q :: |done| + i <= q < tvals.Length ==> tvals[q] == old(tvals[q])
    {
      var pi := p[U[i]];
      var zi := z[if r != 0 then 1 - V[i] else V[i]];
      assert pi == ps[U[i]] && zi == zs[if r != 0 then 1 - V[i] else V[i]];
      assert Inside(cs, t, pi) && !Inside(cs, t, zi);
      var w := 1.0 - (corners[t[pi]] / (corners[t[pi]] - corners[t[zi]]));
      k := PutPair(indices, tvals, k, t[pi], t[zi], w, cs, k0, done, es);
      es := es + [Pair(t[pi], t[zi])];
      i := i + 1;
    }
    assert es == Quad(t, ps, zs, r);
    WrittenAppend(indices, tvals, cs, k0, done, es);
  }

  /**
   * One simplex of KMSA_Isochunk: t[2] from t[1] and n, the counting loop, then the switch; what it
   * writes after the pairs of the simplices before it is what Emit says.
   */
  method EmitSimplex(corners: array<real>, t1: int, n: int, indices: array<int>, tvals: array<real>, k0: int,
                     ghost cs: seq<real>, ghost j: nat)
    returns (k: int)
    requires corners.Length >= 8 && cs == corners[..8] && j < 6 && SimplexT1(j) == t1 && SimplexN(j) == n
    requires indices.Length >= 72 && tvals.Length >= 36 && corners != tvals
    requires Written(indices, tvals, cs, k0, Prefix(cs, j))
    modifies indices, tvals
    ensures Written(indices, tvals, cs, k, Prefix(cs, j + 1))
    ensures forall q :: k <= q < indices.Length ==> indices[q] == old(indices[q])
    ensures forall q :: k / 2 <= q < tvals.Length ==> tvals[q] == old(tvals[q])
  {
    ghost var done := Prefix(cs, j);
    PrefixSize(cs, j);
    EmitCount(cs, t1, n);
    PrefixStep(cs, j, t1, n, done);
    var t := [0, t1, Second(t1, n), 7];
    assert t == Simplex(t1, n);
    ghost var P, Z := Select(cs, t, 4, true), Select(cs, t, 4, false);
    SelectSplit(cs, t);
    var a1 := new int[4];
    var a2 := new int[4];
    var c := Classify(corners, t, a1, a2);
    assert unchanged(indices, tvals, corners);
    k := EmitCase(corners, t, n, a1, a2, c, indices, tvals, k0, cs, done, P, Z);
  }

  /** The switch on c once the vertices are classified: p = a1, z = a2 hold the positive and the other vertices. */
  method EmitCase(corners: array<real>, t: seq<int>, n: int, a1: array<int>, a2: array<int>, c: int,
                  indices: array<int>, tvals: array<real>, k0: int,
                  ghost cs: seq<real>, ghost done: seq<Pair>, ghost P: seq<int>, ghost Z: seq<int>)
    returns (k: int)
    requires corners.Length >= 8 && cs == corners[..8] && ValidSimplex(t) && corners != tvals
    requires a1 != indices && a2 != indices && a1.Length == 4 && a2.Length == 4
    requires Split(cs, t, P, Z) && c == |P| && a1[..c] == P && a2[..4 - c] == Z
    requires Written(indices, tvals, cs, k0, done) && k0 + 12 <= indices.Length && |done| + 6 <= tvals.Length
    modifies indices, tvals
    ensures Written(indices, tvals, cs, k, done + Emission(t, P, Z, n))
    ensures forall q :: k <= q < indices.Length ==> indices[q] == old(indices[q])
    ensures forall q :: k / 2 <= q < tvals.Length ==> tvals[q] == old(tvals[q])
  {
    if c == 1 || c == 3 {
      k := EmitSingle(corners, t, n, a1, a2, c, indices, tvals, k0, cs, done, P, Z);
    } else if c == 2 {
      assert a1[..2] == P && a2[..2] == Z;
      assert a1[0] == P[0] && a1[1] == P[1];
      var r := (n + a1[0] + a1[1]) % 2;
      assert r == (n + P[0] + P[1]) % 2;
      assert Emission(t, P, Z, n) == Quad(t, P, Z, r);
      k := EmitQuad(corners, t, a1, a2, r, indices, tvals, k0, cs, done, P, Z);
    } else {
      k := k0;
      assert done + Emission(t, P, Z, n) == done;
    }
  }

  /**
   * Cases 3 and 1 of the switch: with three positive vertices p and z change places and r starts at 0,
   * then the code falls through to the single-triangle case.
   */
  method EmitSingle(corners: array<real>, t: seq<int>, n: int, a1: array<int>, a2: array<int>, c: int,
                    indices: array<int>, tvals: array<real>, k0: int,
                    ghost cs: seq<real>, ghost done: seq<Pair>, ghost P: seq<int>, ghost Z: seq<int>)
    returns (k: int)
    requires corners.Length >= 8 && cs == corners[..8] && ValidSimplex(t) && corners != tvals
    requires a1 != indices && a2 != indices && a1.Length == 4 && a2.Length == 4
    requires Split(cs, t, P, Z) && (c == 1 || c == 3) && c == |P| && a1[..c] == P && a2[..4 - c] == Z
    requires Written(indices, tvals, cs, k0, done) && k0 + 6 <= indices.Length && |done| + 3 <= tvals.Length
    modifies indices, tvals
    ensures Written(indices, tvals, cs, k, done + Emission(t, P, Z, n))
    ensures forall q :: k <= q < indices.Length ==> indices[q] == old(indices[q])
    ensures forall q :: k / 2 <= q < tvals.Length ==> tvals[q] == old(tvals[q])
  {
    var p, z := a1, a2;
    ghost var ps, zs := P, Z;
    var r := 1;
    if c == 3 {
      p, z, r := a2, a1, 0;
      ps, zs := Z, P;
    }
    r := (p[0] + n + r) % 2;
    assert p[..1] == ps && z[..3] == zs;
    assert p[0] == ps[0];
    if c == 1 {
      assert ps == P && zs == Z && r == (P[0] + n + 1) % 2;
    } else {
      assert ps == Z && zs == P && r == (Z[0] + n + 0) % 2;
    }
    assert Emission(t, P, Z, n) == Triangle(t, ps, zs, r);
    k := EmitTriangle(corners, t, p, z, r, indices, tvals, k0, cs, done, ps, zs);
  }

  /**
   * KMSA_Isochunk: walk the six simplices (t[1] = 1, 2, 4, each in both orientations) and write the
   * crossed edges into `indices` and their weights into `tvals`; the result is the number of indices.
   */
  method Isochunk(corners: array<real>, indices: array<int>, tvals: array<real>) returns (k: int)
    requires corners.Length >= 8 && indices.Length >= 72 && tvals.Length >= 36 && corners != tvals
    modifies indices, tvals
    ensures Written(indices, tvals, corners[..8], k, Chunk(corners[..8])) && k <= 72
    ensures forall q :: k <= q < indices.Length ==> indices[q] == old(indices[q])
    ensures forall q :: k / 2 <= q < tvals.Length ==> tvals[q] == old(tvals[q])
  {
    ghost var cs := corners[..8];
    ghost var j := 0;
    k := 0;
    var t1 := 1;
    while t1 < 8
      invariant (j == 0 && t1 == 1) || (j == 2 && t1 == 2) || (j == 4 && t1 == 4) || (j == 6 && t1 == 8)
      invariant corners[..8] == cs
      invariant Written(indices, tvals, cs, k, Prefix(cs, j))
      invariant forall q :: k <= q < indices.Length ==> indices[q] == old(indices[q])
      invariant forall q :: k / 2 <= q < tvals.Length ==> tvals[q] == old(tvals[q])
    {
      var n := 0;
      while n < 2
        invariant 0 <= n <= 2 && corners[..8] == cs
        invariant (t1 == 1 && j == n) || (t1 == 2 && j == 2 + n) || (t1 == 4 && j == 4 + n)
        invariant Written(indices, tvals, cs, k, Prefix(cs, j))
        invariant forall q :: k <= q < indices.Length ==> indices[q] == old(indices[q])
        invariant forall q :: k / 2 <= q < tvals.Length ==> tvals[q] == old(tvals[q])
      {
        k := EmitSimplex(corners, t1, n, indices, tvals, k, cs, j);
        j := j + 1;
        n := n + 1;
      }
      t1 := t1 * 2;
    }
    ChunkSize(cs);
  }
}
