/**
 * The flat triangle stream shared by the three gcore.c routines. A triangle record holds
 * twelve position doubles (x, y, z, w of vertices 0, 1, 2), then the A attributes of each
 * vertex, vertex after vertex, then S statics that belong to the triangle as a whole.
 */
module GCoreStream {
  import opened M3D
  import FlatIndex

  /** Offset of the statics inside a record. */
  function StatOff(attributes: int): int
  {
    12 + 3 * attributes
  }

  /** Number of doubles in a record. */
  function Pitch(attributes: int, statics: int): int
  {
    StatOff(attributes) + statics
  }

  /** Offset of attribute j of vertex i inside a record (vertex-major, as the code reads them). */
  function AttrSlot(attributes: int, i: int, j: int): int
  {
    12 + attributes * i + j
  }

  /** Attribute slots lie between the positions and the statics, and distinct (vertex, attribute) pairs get distinct slots. */
  lemma AttrSlotsVertexMajor(attributes: int, i: int, j: int, i': int, j': int)
    requires 0 <= i < 3 && 0 <= j < attributes && 0 <= i' < 3 && 0 <= j' < attributes
    ensures 12 <= AttrSlot(attributes, i, j) < StatOff(attributes)
    ensures AttrSlot(attributes, i, j) == AttrSlot(attributes, i', j') ==> i == i' && j == j'
  {
    if i < i' {
      assert attributes * i' - attributes * i == attributes * (i' - i);
      FlatIndex.MulAtLeast(i' - i, attributes);
    } else if i' < i {
      assert attributes * i - attributes * i' == attributes * (i - i');
      FlatIndex.MulAtLeast(i - i', attributes);
    }
    assert attributes * i <= attributes * 2 by {
      assert attributes * 2 - attributes * i == attributes * (2 - i);
    }
  }

  /** Vertex i of a record. */
  function VertexOf(r: seq<real>, i: int): Vec4
    requires 0 <= i < 3 && |r| >= 12
  {
    Vec4(r[4 * i], r[4 * i + 1], r[4 * i + 2], r[4 * i + 3])
  }

  /** The three vertices of a record. */
  function Tri(r: seq<real>): (t: seq<Vec4>)
    requires |r| >= 12
    ensures |t| == 3
  {
    [VertexOf(r, 0), VertexOf(r, 1), VertexOf(r, 2)]
  }

  /** The doubles of a vertex as they lie in memory. */
  function Pos(v: Vec4): (s: seq<real>)
    ensures |s| == 4
  {
    [v.x, v.y, v.z, v.w]
  }

  /** s with v written over s[at .. at + |v|], one double after another. */
  function Put(s: seq<real>, at: int, v: seq<real>): (r: seq<real>)
    requires 0 <= at && at + |v| <= |s|
    ensures |r| == |s|
    ensures forall q {:trigger r[q]} :: 0 <= q < |s| ==> r[q] == if at <= q < at + |v| then v[q - at] else s[q]
    decreases |v|
  {
    if v == [] then s else Put(s[at := v[0]], at + 1, v[1..])
  }

  /** Two adjacent writes are one write of both pieces. */
  lemma PutPut(s: seq<real>, at: int, u: seq<real>, v: seq<real>)
    requires 0 <= at && at + |u| + |v| <= |s|
    ensures Put(Put(s, at, u), at + |u|, v) == Put(s, at, u + v)
  {
    var l := Put(Put(s, at, u), at + |u|, v);
    var r := Put(s, at, u + v);
    forall q | 0 <= q < |s|
      ensures l[q] == r[q]
    {
      if at <= q < at + |u| {
        assert (u + v)[q - at] == u[q - at];
      } else if at + |u| <= q < at + |u| + |v| {
        assert (u + v)[q - at] == v[q - at - |u|];
      }
    }
  }

  /** Writing one more double after a written run. */
  lemma PutSnoc(s: seq<real>, at: int, v: seq<real>, x: real)
    requires 0 <= at && at + |v| + 1 <= |s|
    ensures Put(s, at, v + [x]) == Put(s, at, v)[at + |v| := x]
  {
    var l := Put(s, at, v + [x]);
    var r := Put(s, at, v)[at + |v| := x];
    forall q | 0 <= q < |s|
      ensures l[q] == r[q]
    {
      if at <= q < at + |v| {
        assert (v + [x])[q - at] == v[q - at];
      }
    }
  }

  /** a[base ..] holds r. */
  ghost predicate Holds(a: array<real>, base: int, r: seq<real>)
    reads a
  {
    0 <= base && base + |r| <= a.Length && forall c :: 0 <= c < |r| ==> a[base + c] == r[c]
  }

  /** A record held at base holds its tail from base + from. */
  lemma HoldsTail(a: array<real>, base: int, r: seq<real>, from: int)
    requires Holds(a, base, r) && 0 <= from <= |r|
    ensures Holds(a, base + from, r[from..])
  {
    forall c | 0 <= c < |r| - from
      ensures a[base + from + c] == r[from..][c]
    {
      assert a[base + (from + c)] == r[from + c];
    }
  }

  /** The doubles s hold the records rs back to back, `pitch` doubles each, from offset 0. */
  ghost predicate Laid(s: seq<real>, pitch: int, rs: seq<seq<real>>)
  {
    0 <= pitch && |rs| * pitch <= |s| && (forall n :: 0 <= n < |rs| ==> |rs[n]| == pitch) &&
    forall n, c :: 0 <= n < |rs| && 0 <= c < pitch ==> 0 <= FlatIndex.Flat(pitch, n, c) < |s| && s[FlatIndex.Flat(pitch, n, c)] == rs[n][c]
  }

  /** Double c of record n of a laid stream. */
  lemma LaidAt(s: seq<real>, pitch: int, rs: seq<seq<real>>, n: int, c: int)
    requires Laid(s, pitch, rs) && 0 <= n < |rs| && 0 <= c < pitch
    ensures 0 <= FlatIndex.Flat(pitch, n, c) < |s| && s[FlatIndex.Flat(pitch, n, c)] == rs[n][c]
  {
  }

  /** Record n of a laid stream lies inside it. */
  lemma LaidRecord(s: seq<real>, pitch: int, rs: seq<seq<real>>, n: int)
    requires Laid(s, pitch, rs) && 0 <= n < |rs|
    ensures 0 <= n * pitch && n * pitch + pitch <= |s|
    ensures forall c :: 0 <= c < pitch ==> s[n * pitch + c] == rs[n][c]
  {
    FlatIndex.RowEnd(pitch, |rs|, n);
  }

  /** Laying one more record right after the stream extends it. */
  lemma LaidExtend(s: seq<real>, pitch: int, rs: seq<seq<real>>, r: seq<real>)
    requires Laid(s, pitch, rs) && |r| == pitch && |rs| * pitch + pitch <= |s|
    requires forall c :: 0 <= c < pitch ==> s[|rs| * pitch + c] == r[c]
    ensures Laid(s, pitch, rs + [r])
  {
    var rs' := rs + [r];
    assert (|rs| + 1) * pitch == |rs| * pitch + pitch;
    forall n, c | 0 <= n < |rs'| && 0 <= c < pitch
      ensures 0 <= FlatIndex.Flat(pitch, n, c) < |s| && s[FlatIndex.Flat(pitch, n, c)] == rs'[n][c]
    {
      if n < |rs| {
        FlatIndex.FlatBound(pitch, |rs|, n, c);
        assert rs'[n] == rs[n];
      } else {
        assert rs'[n] == r;
      }
    }
  }

  /** A stream stays laid when nothing below its end changes. */
  lemma LaidKept(s: seq<real>, s': seq<real>, pitch: int, rs: seq<seq<real>>)
    requires Laid(s, pitch, rs) && |rs| * pitch <= |s'|
    requires forall q :: 0 <= q < |rs| * pitch ==> s'[q] == s[q]
    ensures Laid(s', pitch, rs)
  {
    forall n, c | 0 <= n < |rs| && 0 <= c < pitch
      ensures 0 <= FlatIndex.Flat(pitch, n, c) < |s'| && s'[FlatIndex.Flat(pitch, n, c)] == rs[n][c]
    {
      Kept(s, s', pitch, rs, n, c);
    }
  }

  /** One double of a kept stream. */
  lemma Kept(s: seq<real>, s': seq<real>, pitch: int, rs: seq<seq<real>>, n: int, c: int)
    requires Laid(s, pitch, rs) && |rs| * pitch <= |s'|
    requires forall q :: 0 <= q < |rs| * pitch ==> s'[q] == s[q]
    requires 0 <= n < |rs| && 0 <= c < pitch
    ensures 0 <= n * pitch + c < |s'| && s'[n * pitch + c] == rs[n][c]
  {
    var q := n * pitch + c;
    FlatIndex.FlatBound(pitch, |rs|, n, c);
    assert 0 <= q < |rs| * pitch;
    assert s'[q] == s[q];
  }

  /** a[at ..] holds the first o doubles of rec: a record written up to offset o. */
  ghost predicate Partial(a: array<real>, at: int, o: int, rec: seq<real>)
    reads a
  {
    0 <= at && 0 <= o <= |rec| && at + o <= a.Length && forall c :: 0 <= c < o ==> a[at + c] == rec[c]
  }

  /** Record n of a stream laid in an array is held at n * pitch. */
  lemma LaidHolds(a: array<real>, pitch: int, rs: seq<seq<real>>, n: int)
    requires Laid(a[..], pitch, rs) && 0 <= n < |rs|
    ensures |rs[n]| == pitch && Holds(a, n * pitch, rs[n])
  {
    LaidRecord(a[..], pitch, rs, n);
  }

  /** A record written right after a laid stream, with nothing below it changed, extends the stream. */
  lemma LaidAppend(a: array<real>, before: seq<real>, pitch: int, rs: seq<seq<real>>, rec: seq<real>)
    requires Laid(before, pitch, rs) && |before| == a.Length && |rec| == pitch
    requires forall q :: 0 <= q < |rs| * pitch ==> a[q] == before[q]
    requires Partial(a, |rs| * pitch, pitch, rec)
    ensures Laid(a[..], pitch, rs + [rec])
  {
    var s := a[..];
    LaidKept(before, s, pitch, rs);
    forall c | 0 <= c < pitch
      ensures s[|rs| * pitch + c] == rec[c]
    {
      assert a[|rs| * pitch + c] == rec[c];
    }
    LaidExtend(s, pitch, rs, rec);
  }
}
