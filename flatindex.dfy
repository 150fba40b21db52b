/** Row-major addressing `r * width + c` of a flat buffer, and the facts about it the buffer loops need. */
module FlatIndex {

  /** Offset of column `c` of row `r` in a row-major buffer of rows `width` long. */
  function Flat(width: int, r: int, c: int): int
  {
    r * width + c
  }

  /** a * c >= c for a >= 1 and c >= 0. */
  lemma MulAtLeast(a: int, c: int)
    requires a >= 1 && c >= 0
    ensures a * c >= c
  {
    assert a * c == c + (a - 1) * c;
  }

  /** Rows come one after another: every cell of an earlier row precedes every cell of a later one. */
  lemma RowsOrdered(width: int, r1: int, c1: int, r2: int, c2: int)
    requires 0 <= c1 < width && 0 <= c2 && r1 < r2
    ensures Flat(width, r1, c1) < Flat(width, r2, c2)
  {
    MulAtLeast(r2 - r1, width);
    assert r2 * width - r1 * width == (r2 - r1) * width;
  }

  /** Row `r` of a buffer of `rows` rows lies inside it. */
  lemma RowEnd(width: int, rows: int, r: int)
    requires 0 <= r < rows && 0 <= width
    ensures 0 <= Flat(width, r, 0) && Flat(width, r, width) <= width * rows
  {
    MulAtLeast(rows - r, width);
    assert rows * width - r * width == (rows - r) * width;
    assert 0 <= r * width;
  }

  lemma FlatBound(width: int, rows: int, r: int, c: int)
    requires 0 <= r < rows && 0 <= c < width
    ensures 0 <= Flat(width, r, c) < width * rows
  {
    RowEnd(width, rows, r);
  }

  lemma AllFlatInBounds(width: int, rows: int)
    ensures forall r, c :: 0 <= r < rows && 0 <= c < width ==> 0 <= Flat(width, r, c) < width * rows
  {
    forall r, c | 0 <= r < rows && 0 <= c < width
      ensures 0 <= Flat(width, r, c) < width * rows
    {
      FlatBound(width, rows, r, c);
    }
  }

  /** Fewer rows take no more room. */
  lemma MulMonotone(a: int, b: int, width: int)
    requires a <= b && 0 <= width
    ensures a * width <= b * width
  {
    assert b * width - a * width == (b - a) * width;
  }
}
