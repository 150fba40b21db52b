/**
 * Generic row-major matrices of matrix.c: MATRIX_Multiply (triple loop) and MATRIX_Inverse
 * (Gauss-Jordan elimination on a working copy). Doubles are reals.
 */
module Matrix {
  import opened Wrappers
  import opened FlatIndex

  // ---------------------------------------------------------------------------------------------
  // MATRIX_Multiply

  /** Cell `q` of a flat buffer; the specification functions read 0 outside the buffer. */
  function Cell(s: seq<real>, q: int): real
  {
    if 0 <= q < |s| then s[q] else 0.0
  }

  /** The partial sum over t < k of left[m*i + t] * right[p*t + j], accumulated in ascending t. */
  function SumProd(left: seq<real>, right: seq<real>, m: int, p: int, i: int, j: int, k: nat): real
  {
    if k == 0 then 0.0
    else SumProd(left, right, m, p, i, j, k - 1) + Cell(left, Flat(m, i, k - 1)) * Cell(right, Flat(p, k - 1, j))
  }

  /** `res` holds the n x p product of the n x m matrix `left` and the m x p matrix `right`. */
  predicate IsProduct(res: seq<real>, left: seq<real>, right: seq<real>, n: int, m: nat, p: int)
  {
    forall i, j :: 0 <= i < n && 0 <= j < p ==> Cell(res, Flat(p, i, j)) == SumProd(left, right, m, p, i, j, m)
  }

  /**
   * MATRIX_Multiply: every cell of the n x p result is the sum over k of left[m*i+k] * right[p*k+j];
   * no cell past the n x p block is written. The result must not alias an operand.
   */
  method Multiply(n: nat, m: nat, p: nat, left: array<real>, right: array<real>, result: array<real>)
    requires left.Length >= n * m && right.Length >= m * p && result.Length >= n * p
    requires result != left && result != right
    modifies result
    ensures IsProduct(result[..], left[..], right[..], n, m, p)
    ensures forall q :: n * p <= q < result.Length ==> result[q] == old(result[q])
  {
    RowEnd(p, n + 1, n);
    var i := 0;
    while i < n
      invariant 0 <= i <= n
      invariant IsProduct(result[..], left[..], right[..], i, m, p)
      invariant forall q :: Flat(p, i, 0) <= q < result.Length ==> result[q] == old(result[q])
    {
      MultiplyNext(n, m, p, left, right, result, i);
      i := i + 1;
    }
  }

  /** One pass of the loop over i: row i of the product is added to the rows before it. */
  method MultiplyNext(n: nat, m: nat, p: nat, left: array<real>, right: array<real>, result: array<real>, i: nat)
    requires left.Length >= n * m && right.Length >= m * p && result.Length >= n * p && i < n
    requires result != left && result != right
    requires IsProduct(result[..], left[..], right[..], i, m, p)
    modifies result
    ensures IsProduct(result[..], left[..], right[..], i + 1, m, p)
    ensures forall q :: Flat(p, i + 1, 0) <= q < result.Length ==> result[q] == old(result[q])
  {
    ghost var before := result[..];
    MultiplyRow(n, m, p, left, right, result, i);
    forall i', j | 0 <= i' < i && 0 <= j < p
      ensures Cell(result[..], Flat(p, i', j)) == SumProd(left[..], right[..], m, p, i', j, m)
    {
      RowsOrdered(p, i', j, i, 0);
      assert Cell(before, Flat(p, i', j)) == SumProd(left[..], right[..], m, p, i', j, m);
    }
    assert Flat(p, i, p) == Flat(p, i + 1, 0);
  }

  /** The loop over j of matrix.c:16-21: row i of the product, and no other cell. */
  method MultiplyRow(n: nat, m: nat, p: nat, left: array<real>, right: array<real>, result: array<real>, i: nat)
    requires left.Length >= n * m && right.Length >= m * p && result.Length >= n * p && i < n
    requires result != left && result != right
    modifies result
    ensures forall j :: 0 <= j < p ==> Cell(result[..], Flat(p, i, j)) == SumProd(left[..], right[..], m, p, i, j, m)
    ensures forall q :: 0 <= q < result.Length && !(Flat(p, i, 0) <= q < Flat(p, i, p)) ==> result[q] == old(result[q])
  {
    RowEnd(p, n, i);
    var j := 0;
    while j < p
      invariant 0 <= j <= p
      invariant forall j' :: 0 <= j' < j ==> Cell(result[..], Flat(p, i, j')) == SumProd(left[..], right[..], m, p, i, j', m)
      invariant forall q :: 0 <= q < result.Length && !(Flat(p, i, 0) <= q < Flat(p, i, j)) ==> result[q] == old(result[q])
    {
      var sum := RowColumnSum(n, m, p, left, right, i, j);
      FlatBound(p, n, i, j);
      result[Flat(p, i, j)] := sum;
      j := j + 1;
    }
  }

  /** The innermost loop of matrix.c:18-19: the dot product of row i of `left` with column j of `right`. */
  method RowColumnSum(n: nat, m: nat, p: nat, left: array<real>, right: array<real>, i: nat, j: nat) returns (sum: real)
    requires left.Length >= n * m && right.Length >= m * p && i < n && j < p
    ensures sum == SumProd(left[..], right[..], m, p, i, j, m)
  {
    sum := 0.0;
    var k := 0;
    while k < m
      invariant 0 <= k <= m
      invariant sum == SumProd(left[..], right[..], m, p, i, j, k)
    {
      FlatBound(m, n, i, k);
      FlatBound(p, m, k, j);
      sum := sum + left[Flat(m, i, k)] * right[Flat(p, k, j)];
      k := k + 1;
    }
  }

  /** `s` holds the m x m identity. */
  predicate IsIdentity(s: seq<real>, m: int)
  {
    forall r, c :: 0 <= r < m && 0 <= c < m ==> Cell(s, Flat(m, r, c)) == if r == c then 1.0 else 0.0
  }

  lemma {:induction false} SumProdIdentity(left: seq<real>, right: seq<real>, m: int, i: int, j: int, k: nat)
    requires IsIdentity(right, m) && 0 <= j < m && k <= m
    ensures SumProd(left, right, m, m, i, j, k) == if j < k then Cell(left, Flat(m, i, j)) else 0.0
  {
    if k > 0 {
      SumProdIdentity(left, right, m, i, j, k - 1);
    }
  }

  /** Multiplying by the m x m identity on the right gives back the left operand. */
  lemma MultiplyIdentityRight(res: seq<real>, left: seq<real>, right: seq<real>, n: int, m: nat)
    requires IsProduct(res, left, right, n, m, m) && IsIdentity(right, m)
    ensures forall i, j :: 0 <= i < n && 0 <= j < m ==> Cell(res, Flat(m, i, j)) == Cell(left, Flat(m, i, j))
  {
    forall i, j | 0 <= i < n && 0 <= j < m
      ensures Cell(res, Flat(m, i, j)) == Cell(left, Flat(m, i, j))
    {
      SumProdIdentity(left, right, m, i, j, m);
    }
  }

  // ---------------------------------------------------------------------------------------------
  // MATRIX_Inverse, specified row by row

  /** A square matrix as a sequence of rows. */
  type Rows = seq<seq<real>>

  predicate IsSquare(a: Rows, n: int)
  {
    |a| == n && forall r :: 0 <= r < n ==> |a[r]| == n
  }

  /** The n x n matrix stored row major at the front of `s`. */
  function RowsOf(s: seq<real>, n: nat): (a: Rows)
    ensures IsSquare(a, n)
  {
    seq(n, r => seq(n, c => Cell(s, Flat(n, r, c))))
  }

  function IdentityRows(n: nat): (a: Rows)
    ensures IsSquare(a, n)
  {
    seq(n, r => seq(n, c => if r == c then 1.0 else 0.0))
  }

  /** The two matrices MATRIX_Inverse works on: `work` and `result`. */
  datatype Elim = Elim(w: Rows, r: Rows)

  predicate ValidElim(s: Elim, n: int)
  {
    IsSquare(s.w, n) && IsSquare(s.r, n)
  }

  /** Rows i and k exchanged in the columns from `from` on (the loop of matrix.c:43-51 runs from column i). */
  function SwapFrom(a: Rows, n: nat, i: nat, k: nat, from: nat): (b: Rows)
    requires IsSquare(a, n) && i < n && k < n
    ensures IsSquare(b, n)
  {
    var ri := seq(n, c requires 0 <= c < n => if c >= from then a[k][c] else a[i][c]);
    var rk := seq(n, c requires 0 <= c < n => if c >= from then a[i][c] else a[k][c]);
    a[i := ri][k := rk]
  }

  /** The first row k' >= k whose entry in column i is not zero, as the pivot search intends. */
  function Pivot(w: Rows, n: nat, i: nat, k: nat): (p: Option<nat>)
    requires IsSquare(w, n) && i < n
    decreases n - k
    ensures p.Some? ==> k <= p.value < n && w[p.value][i] != 0.0
    ensures p.Some? ==> forall t :: k <= t < p.value ==> w[t][i] == 0.0
    ensures p.None? ==> forall t :: k <= t < n ==> w[t][i] == 0.0
  {
    if k >= n then None else if w[k][i] != 0.0 then Some(k) else Pivot(w, n, i, k + 1)
  }

  /** The pivot exchange: the source swaps both matrices from column i on; `full` swaps whole rows of `result`. */
  function Swapped(s: Elim, n: nat, i: nat, k: nat, full: bool): (t: Elim)
    requires ValidElim(s, n) && i < n && k < n
    ensures ValidElim(t, n) && t.w[i][i] == s.w[k][i]
  {
    if k == i then s else Elim(SwapFrom(s.w, n, i, k, i), SwapFrom(s.r, n, i, k, if full then 0 else i))
  }

  /** The row with the cells from column `from` on multiplied by t. */
  function ScaleFrom(row: seq<real>, t: real, from: nat): (row': seq<real>)
    ensures |row'| == |row|
  {
    seq(|row|, c requires 0 <= c < |row| => if c >= from then row[c] * t else row[c])
  }

  /** The row with t times `pivot` subtracted from the cells from column `from` on. */
  function SubtractFrom(row: seq<real>, t: real, pivot: seq<real>, from: nat): (row': seq<real>)
    requires |pivot| == |row|
    ensures |row'| == |row|
  {
    seq(|row|, c requires 0 <= c < |row| => if c >= from then row[c] - t * pivot[c] else row[c])
  }

  /**
   * Scaling of row i by f = 1 / work[i][i] (matrix.c:53-62): work[i][i] becomes 1, the cells of
   * `work` right of it and the whole row of `result` are multiplied by f.
   */
  function Scaled(s: Elim, n: nat, i: nat): (t: Elim)
    requires ValidElim(s, n) && i < n && s.w[i][i] != 0.0
    ensures ValidElim(t, n)
  {
    var f := 1.0 / s.w[i][i];
    Elim(s.w[i := ScaleFrom(s.w[i][i := 1.0], f, i + 1)], s.r[i := ScaleFrom(s.r[i], f, 0)])
  }

  /**
   * Elimination of column i from row k by row i (matrix.c:65-74): with f = work[k][i], work[k][i]
   * becomes 0, the cells of `work` right of it lose f * work[i][..], all of `result` loses f * result[i][..].
   */
  function EliminateStep(s: Elim, n: nat, i: nat, k: nat): (t: Elim)
    requires ValidElim(s, n) && i < n && k < n
    ensures ValidElim(t, n)
  {
    var f := s.w[k][i];
    Elim(s.w[k := SubtractFrom(s.w[k][i := 0.0], f, s.w[i], i + 1)], s.r[k := SubtractFrom(s.r[k], f, s.r[i], 0)])
  }

  /** Elimination of column i from rows k .. n-1 (matrix.c:63-75). */
  function EliminateBelow(s: Elim, n: nat, i: nat, k: nat): (t: Elim)
    requires ValidElim(s, n) && i < k
    decreases n - k
    ensures ValidElim(t, n)
  {
    if k >= n then s else EliminateBelow(EliminateStep(s, n, i, k), n, i, k + 1)
  }

  /** The forward phase for columns i .. n-1; None where a column has no non-zero pivot candidate. */
  function Forward(s: Elim, n: nat, i: nat, full: bool): (t: Option<Elim>)
    requires ValidElim(s, n)
    decreases n - i
    ensures t.Some? ==> ValidElim(t.value, n)
  {
    if i >= n then Some(s)
    else match Pivot(s.w, n, i, i)
      case None => None
      case Some(k) => Forward(EliminateBelow(Scaled(Swapped(s, n, i, k, full), n, i), n, i, i + 1), n, i + 1, full)
  }

  /** Back substitution of column i into row k: only `result` changes, work[k][i] is set to 0 (matrix.c:81-86). */
  function ClearStep(s: Elim, n: nat, i: nat, k: nat): (t: Elim)
    requires ValidElim(s, n) && i < n && k < n
    ensures ValidElim(t, n)
  {
    var f := s.w[k][i];
    Elim(s.w[k := s.w[k][i := 0.0]], s.r[k := SubtractFrom(s.r[k], f, s.r[i], 0)])
  }

  /** Back substitution of column i into rows k .. i-1 (matrix.c:79-87). */
  function ClearAbove(s: Elim, n: nat, i: nat, k: nat): (t: Elim)
    requires ValidElim(s, n) && i < n
    decreases i - k
    ensures ValidElim(t, n)
  {
    if k >= i then s else ClearAbove(ClearStep(s, n, i, k), n, i, k + 1)
  }

  /** Back substitution of columns i-1 down to 0 (matrix.c:77-88). */
  function Backward(s: Elim, n: nat, i: nat): (t: Elim)
    requires ValidElim(s, n) && i <= n
    decreases i
    ensures ValidElim(t, n)
  {
    if i == 0 then s else Backward(ClearAbove(s, n, i - 1, 0), n, i - 1)
  }

  /**
   * Gauss-Jordan elimination as MATRIX_Inverse performs it, starting from `result` = identity.
   * `full` = false is the code as written; `full` = true exchanges whole rows of `result`.
   */
  function GaussJordan(a: Rows, n: nat, full: bool): Option<Rows>
    requires IsSquare(a, n)
  {
    match Forward(Elim(a, IdentityRows(n)), n, 0, full)
    case None => None
    case Some(s) => Some(Backward(s, n, n).r)
  }

  // ---------------------------------------------------------------------------------------------
  // Properties of the elimination

  /** The diagonal matrix with diagonal d. */
  function DiagRows(d: seq<real>): (a: Rows)
    ensures IsSquare(a, |d|)
  {
    seq(|d|, r => seq(|d|, c requires 0 <= c < |d| => if r == c then d[r] else 0.0))
  }

  /** The reciprocals of d. */
  function Reciprocals(d: seq<real>): (e: seq<real>)
    requires forall r :: 0 <= r < |d| ==> d[r] != 0.0
    ensures |e| == |d| && forall r :: 0 <= r < |d| ==> e[r] * d[r] == 1.0
  {
    seq(|d|, r requires 0 <= r < |d| => 1.0 / d[r])
  }

  /** The state after the forward phase has handled columns 0 .. i-1 of diag(d). */
  function DiagStage(d: seq<real>, i: nat): (s: Elim)
    requires forall r :: 0 <= r < |d| ==> d[r] != 0.0
    ensures ValidElim(s, |d|)
  {
    Elim(DiagRows(seq(|d|, r requires 0 <= r < |d| => if r < i then 1.0 else d[r])),
         DiagRows(seq(|d|, r requires 0 <= r < |d| => if r < i then 1.0 / d[r] else 1.0)))
  }

  /** An elimination step whose multiplier work[k][i] is already 0 changes nothing. */
  lemma EliminateStepZero(s: Elim, n: nat, i: nat, k: nat)
    requires ValidElim(s, n) && i < n && k < n && s.w[k][i] == 0.0
    ensures EliminateStep(s, n, i, k) == s
  {
    assert s.w[k][i := 0.0] == s.w[k];
    assert SubtractFrom(s.w[k], 0.0, s.w[i], i + 1) == s.w[k];
    assert SubtractFrom(s.r[k], 0.0, s.r[i], 0) == s.r[k];
  }

  /** A back-substitution step whose multiplier work[k][i] is already 0 changes nothing. */
  lemma ClearStepZero(s: Elim, n: nat, i: nat, k: nat)
    requires ValidElim(s, n) && i < n && k < n && s.w[k][i] == 0.0
    ensures ClearStep(s, n, i, k) == s
  {
    assert s.w[k][i := 0.0] == s.w[k];
    assert SubtractFrom(s.r[k], 0.0, s.r[i], 0) == s.r[k];
  }

  lemma {:induction false} EliminateBelowZero(s: Elim, n: nat, i: nat, k: nat)
    requires ValidElim(s, n) && i < k && i < n
    requires forall r :: k <= r < n ==> s.w[r][i] == 0.0
    decreases n - k
    ensures EliminateBelow(s, n, i, k) == s
  {
    if k < n {
      EliminateStepZero(s, n, i, k);
      EliminateBelowZero(s, n, i, k + 1);
    }
  }

  lemma {:induction false} ClearAboveZero(s: Elim, n: nat, i: nat, k: nat)
    requires ValidElim(s, n) && i < n
    requires forall r :: k <= r < i ==> s.w[r][i] == 0.0
    decreases i - k
    ensures ClearAbove(s, n, i, k) == s
  {
    if k < i {
      ClearStepZero(s, n, i, k);
      ClearAboveZero(s, n, i, k + 1);
    }
  }

  /** Back substitution leaves a state whose `work` is diagonal unchanged. */
  lemma {:induction false} BackwardDiagonal(s: Elim, n: nat, i: nat)
    requires ValidElim(s, n) && i <= n
    requires forall r, c :: 0 <= r < n && 0 <= c < n && r != c ==> s.w[r][c] == 0.0
    decreases i
    ensures Backward(s, n, i) == s
  {
    if i > 0 {
      ClearAboveZero(s, n, i - 1, 0);
      BackwardDiagonal(s, n, i - 1);
    }
  }

  /** One column of the forward phase on diag(d): pivot i, scaled to 1, nothing to eliminate. */
  lemma DiagColumn(d: seq<real>, i: nat, full: bool)
    requires forall r :: 0 <= r < |d| ==> d[r] != 0.0
    requires i < |d|
    ensures Pivot(DiagStage(d, i).w, |d|, i, i) == Some(i)
    ensures EliminateBelow(Scaled(Swapped(DiagStage(d, i), |d|, i, i, full), |d|, i), |d|, i, i + 1) == DiagStage(d, i + 1)
  {
    var n := |d|;
    var s := DiagStage(d, i);
    var t := Scaled(s, n, i);
    var u := DiagStage(d, i + 1);
    assert t.w[i] == u.w[i];
    assert t.r[i] == u.r[i];
    assert t.w == u.w;
    assert t.r == u.r;
    EliminateBelowZero(t, n, i, i + 1);
  }

  lemma {:induction false} ForwardDiagonal(d: seq<real>, i: nat, full: bool)
    requires forall r :: 0 <= r < |d| ==> d[r] != 0.0
    requires i <= |d|
    decreases |d| - i
    ensures Forward(DiagStage(d, i), |d|, i, full) == Some(DiagStage(d, |d|))
  {
    if i < |d| {
      DiagColumn(d, i, full);
      ForwardDiagonal(d, i + 1, full);
    }
  }

  /**
   * Inverting a diagonal matrix with a non-zero diagonal gives the diagonal of reciprocals,
   * with or without the full exchange of `result` rows.
   */
  lemma DiagonalInverse(d: seq<real>, full: bool)
    requires forall r :: 0 <= r < |d| ==> d[r] != 0.0
    ensures GaussJordan(DiagRows(d), |d|, full) == Some(DiagRows(Reciprocals(d)))
  {
    var n := |d|;
    assert DiagStage(d, 0).w == DiagRows(d);
    forall r | 0 <= r < n
      ensures DiagStage(d, 0).r[r] == IdentityRows(n)[r]
    {
    }
    assert DiagStage(d, 0).r == IdentityRows(n);
    ForwardDiagonal(d, 0, full);
    BackwardDiagonal(DiagStage(d, n), n, n);
    assert DiagStage(d, n).r == DiagRows(Reciprocals(d));
  }

  /** Inverting the identity gives the identity. */
  lemma IdentityInverse(n: nat, full: bool)
    ensures GaussJordan(IdentityRows(n), n, full) == Some(IdentityRows(n))
  {
    var d := seq(n, r => 1.0);
    forall r | 0 <= r < n
      ensures DiagRows(d)[r] == IdentityRows(n)[r] && DiagRows(Reciprocals(d))[r] == IdentityRows(n)[r]
    {
    }
    assert DiagRows(d) == IdentityRows(n) && DiagRows(Reciprocals(d)) == IdentityRows(n);
    DiagonalInverse(d, full);
  }

  // ---------------------------------------------------------------------------------------------
  // Left inverse: with whole rows of `result` exchanged, result * operand = identity

  /** The sum over t < k of row[t] * a[t][j]. */
  function RowCol(row: seq<real>, a: Rows, n: nat, j: nat, k: nat): real
    requires |row| == n && IsSquare(a, n) && j < n && k <= n
  {
    if k == 0 then 0.0 else RowCol(row, a, n, j, k - 1) + row[k - 1] * a[k - 1][j]
  }

  /** The row vector `row` times the matrix a. */
  function RowTimes(row: seq<real>, a: Rows, n: nat): (p: seq<real>)
    requires |row| == n && IsSquare(a, n)
    ensures |p| == n
  {
    seq(n, j requires 0 <= j < n => RowCol(row, a, n, j, n))
  }

  /** The matrix product x * a. */
  function Product(x: Rows, a: Rows, n: nat): (p: Rows)
    requires IsSquare(x, n) && IsSquare(a, n)
    ensures IsSquare(p, n)
  {
    seq(n, r requires 0 <= r < n => RowTimes(x[r], a, n))
  }

  lemma {:induction false} RowColScale(row: seq<real>, a: Rows, n: nat, j: nat, k: nat, f: real)
    requires |row| == n && IsSquare(a, n) && j < n && k <= n
    ensures RowCol(ScaleFrom(row, f, 0), a, n, j, k) == f * RowCol(row, a, n, j, k)
  {
    if k > 0 {
      RowColScale(row, a, n, j, k - 1, f);
      assert (row[k - 1] * f) * a[k - 1][j] == f * (row[k - 1] * a[k - 1][j]);
    }
  }

  lemma {:induction false} RowColSubtract(row: seq<real>, p: seq<real>, a: Rows, n: nat, j: nat, k: nat, f: real)
    requires |row| == n && |p| == n && IsSquare(a, n) && j < n && k <= n
    ensures RowCol(SubtractFrom(row, f, p, 0), a, n, j, k) == RowCol(row, a, n, j, k) - f * RowCol(p, a, n, j, k)
  {
    if k > 0 {
      RowColSubtract(row, p, a, n, j, k - 1, f);
      assert (row[k - 1] - f * p[k - 1]) * a[k - 1][j] == row[k - 1] * a[k - 1][j] - f * (p[k - 1] * a[k - 1][j]);
    }
  }

  /** Row r of the identity picks row r of a. */
  lemma {:induction false} RowColUnit(a: Rows, n: nat, r: nat, j: nat, k: nat)
    requires IsSquare(a, n) && r < n && j < n && k <= n
    ensures RowCol(IdentityRows(n)[r], a, n, j, k) == if r < k then a[r][j] else 0.0
  {
    if k > 0 {
      RowColUnit(a, n, r, j, k - 1);
    }
  }

  lemma IdentityProduct(a: Rows, n: nat)
    requires IsSquare(a, n)
    ensures Product(IdentityRows(n), a, n) == a
  {
    forall r, j | 0 <= r < n && 0 <= j < n
      ensures Product(IdentityRows(n), a, n)[r][j] == a[r][j]
    {
      RowColUnit(a, n, r, j, n);
    }
    forall r | 0 <= r < n
      ensures Product(IdentityRows(n), a, n)[r] == a[r]
    {
    }
  }

  /** Replacing one row of x replaces that row of x * a. */
  lemma ProductRowUpdate(x: Rows, a: Rows, n: nat, r: nat, row: seq<real>)
    requires IsSquare(x, n) && IsSquare(a, n) && r < n && |row| == n
    ensures Product(x[r := row], a, n) == Product(x, a, n)[r := RowTimes(row, a, n)]
  {
  }

  /** Scaling a row of x scales that row of x * a. */
  lemma ProductScaled(x: Rows, a: Rows, n: nat, i: nat, f: real)
    requires IsSquare(x, n) && IsSquare(a, n) && i < n
    ensures Product(x[i := ScaleFrom(x[i], f, 0)], a, n) == Product(x, a, n)[i := ScaleFrom(Product(x, a, n)[i], f, 0)]
  {
    forall j | 0 <= j < n
      ensures RowTimes(ScaleFrom(x[i], f, 0), a, n)[j] == ScaleFrom(Product(x, a, n)[i], f, 0)[j]
    {
      RowColScale(x[i], a, n, j, n, f);
    }
    assert RowTimes(ScaleFrom(x[i], f, 0), a, n) == ScaleFrom(Product(x, a, n)[i], f, 0);
    ProductRowUpdate(x, a, n, i, ScaleFrom(x[i], f, 0));
  }

  /** Subtracting f times row i from row k of x does the same to x * a. */
  lemma ProductSubtracted(x: Rows, a: Rows, n: nat, k: nat, i: nat, f: real)
    requires IsSquare(x, n) && IsSquare(a, n) && i < n && k < n
    ensures Product(x[k := SubtractFrom(x[k], f, x[i], 0)], a, n)
         == Product(x, a, n)[k := SubtractFrom(Product(x, a, n)[k], f, Product(x, a, n)[i], 0)]
  {
    forall j | 0 <= j < n
      ensures RowTimes(SubtractFrom(x[k], f, x[i], 0), a, n)[j] == SubtractFrom(Product(x, a, n)[k], f, Product(x, a, n)[i], 0)[j]
    {
      RowColSubtract(x[k], x[i], a, n, j, n, f);
    }
    assert RowTimes(SubtractFrom(x[k], f, x[i], 0), a, n) == SubtractFrom(Product(x, a, n)[k], f, Product(x, a, n)[i], 0);
    ProductRowUpdate(x, a, n, k, SubtractFrom(x[k], f, x[i], 0));
  }

  /** Exchanging whole rows i and k of x exchanges them in x * a. */
  lemma ProductSwapped(x: Rows, a: Rows, n: nat, i: nat, k: nat)
    requires IsSquare(x, n) && IsSquare(a, n) && i < n && k < n
    ensures Product(SwapFrom(x, n, i, k, 0), a, n) == SwapFrom(Product(x, a, n), n, i, k, 0)
  {
    SwapWhole(x, n, i, k);
    SwapWhole(Product(x, a, n), n, i, k);
    ProductRowUpdate(x, a, n, i, x[k]);
    ProductRowUpdate(x[i := x[k]], a, n, k, x[i]);
  }

  /** Exchanging rows from column 0 on exchanges the whole rows. */
  lemma SwapWhole(x: Rows, n: nat, i: nat, k: nat)
    requires IsSquare(x, n) && i < n && k < n
    ensures SwapFrom(x, n, i, k, 0) == x[i := x[k]][k := x[i]]
  {
    var y := SwapFrom(x, n, i, k, 0);
    assert y[k] == x[i];
    assert i != k ==> y[i] == x[k];
  }

  /** Columns 0 .. i-1 of w hold a 1 on the diagonal and 0 below it. */
  predicate LowerCleared(w: Rows, n: nat, i: nat)
    requires IsSquare(w, n) && i <= n
  {
    (forall c :: 0 <= c < i ==> w[c][c] == 1.0) && (forall r, c :: 0 <= c < i && c < r < n ==> w[r][c] == 0.0)
  }

  /** The forward phase before column i, with whole rows of `result` exchanged. */
  predicate ForwardInvariant(s: Elim, a: Rows, n: nat, i: nat)
  {
    ValidElim(s, n) && IsSquare(a, n) && i <= n && Product(s.r, a, n) == s.w && LowerCleared(s.w, n, i)
  }

  lemma FullSwapKeeps(s: Elim, a: Rows, n: nat, i: nat, k: nat)
    requires ForwardInvariant(s, a, n, i) && i <= k < n
    ensures ForwardInvariant(Swapped(s, n, i, k, true), a, n, i)
  {
    if k != i {
      assert SwapFrom(s.w, n, i, k, i) == SwapFrom(s.w, n, i, k, 0) by {
        forall r | 0 <= r < n
          ensures SwapFrom(s.w, n, i, k, i)[r] == SwapFrom(s.w, n, i, k, 0)[r]
        {
        }
      }
      ProductSwapped(s.r, a, n, i, k);
    }
  }

  lemma ScaleKeeps(s: Elim, a: Rows, n: nat, i: nat)
    requires ForwardInvariant(s, a, n, i) && i < n && s.w[i][i] != 0.0
    ensures ForwardInvariant(Scaled(s, n, i), a, n, i)
    ensures Scaled(s, n, i).w[i][i] == 1.0
  {
    var f := 1.0 / s.w[i][i];
    assert s.w[i][i] * f == 1.0;
    forall c | 0 <= c < n
      ensures ScaleFrom(s.w[i][i := 1.0], f, i + 1)[c] == ScaleFrom(s.w[i], f, 0)[c]
    {
      if c < i {
        assert s.w[i][c] == 0.0;
      }
    }
    assert ScaleFrom(s.w[i][i := 1.0], f, i + 1) == ScaleFrom(s.w[i], f, 0);
    ProductScaled(s.r, a, n, i, f);
  }

  /** Elimination of column i from rows k .. n-1, with row i already scaled. */
  lemma {:induction false} EliminateKeeps(s: Elim, a: Rows, n: nat, i: nat, k: nat)
    requires ForwardInvariant(s, a, n, i) && i < k <= n && s.w[i][i] == 1.0
    requires forall r :: i < r < k ==> s.w[r][i] == 0.0
    decreases n - k
    ensures ForwardInvariant(EliminateBelow(s, n, i, k), a, n, i + 1)
  {
    if k < n {
      var f := s.w[k][i];
      var t := EliminateStep(s, n, i, k);
      assert SubtractFrom(s.w[k][i := 0.0], f, s.w[i], i + 1) == SubtractFrom(s.w[k], f, s.w[i], 0);
      ProductSubtracted(s.r, a, n, k, i, f);
      assert ForwardInvariant(t, a, n, i);
      EliminateKeeps(t, a, n, i, k + 1);
    }
  }

  lemma {:induction false} ForwardKeeps(s: Elim, a: Rows, n: nat, i: nat)
    requires ForwardInvariant(s, a, n, i)
    requires Forward(s, n, i, true).Some?
    decreases n - i
    ensures ForwardInvariant(Forward(s, n, i, true).value, a, n, n)
  {
    if i < n {
      var k := Pivot(s.w, n, i, i).value;
      FullSwapKeeps(s, a, n, i, k);
      var t := Swapped(s, n, i, k, true);
      ScaleKeeps(t, a, n, i);
      EliminateKeeps(Scaled(t, n, i), a, n, i, i + 1);
      ForwardKeeps(EliminateBelow(Scaled(t, n, i), n, i, i + 1), a, n, i + 1);
    }
  }

  /** The back substitution before column m-1: upper unit triangular `work`, columns m .. n-1 cleared. */
  predicate BackwardInvariant(s: Elim, a: Rows, n: nat, m: nat)
  {
    ForwardInvariant(s, a, n, n) && m <= n && forall r, c :: m <= c < n && 0 <= r < n && r != c ==> s.w[r][c] == 0.0
  }

  /** Back substitution of column i into rows k .. i-1. */
  lemma {:induction false} ClearKeeps(s: Elim, a: Rows, n: nat, i: nat, k: nat)
    requires BackwardInvariant(s, a, n, i + 1) && i < n && k <= i
    requires forall r :: 0 <= r < k ==> s.w[r][i] == 0.0
    decreases i - k
    ensures BackwardInvariant(ClearAbove(s, n, i, k), a, n, i)
  {
    if k < i {
      var f := s.w[k][i];
      var t := ClearStep(s, n, i, k);
      assert s.w[k][i := 0.0] == SubtractFrom(s.w[k], f, s.w[i], 0);
      ProductSubtracted(s.r, a, n, k, i, f);
      assert BackwardInvariant(t, a, n, i + 1);
      ClearKeeps(t, a, n, i, k + 1);
    }
  }

  lemma {:induction false} BackwardKeeps(s: Elim, a: Rows, n: nat, m: nat)
    requires BackwardInvariant(s, a, n, m)
    decreases m
    ensures BackwardInvariant(Backward(s, n, m), a, n, 0)
  {
    if m > 0 {
      ClearKeeps(s, a, n, m - 1, 0);
      BackwardKeeps(ClearAbove(s, n, m - 1, 0), a, n, m - 1);
    }
  }

  /** `work` evolves the same way whichever part of `result` is exchanged. */
  lemma {:induction false} EliminateBelowWork(s: Elim, s': Elim, n: nat, i: nat, k: nat)
    requires ValidElim(s, n) && ValidElim(s', n) && s.w == s'.w && i < k
    decreases n - k
    ensures EliminateBelow(s, n, i, k).w == EliminateBelow(s', n, i, k).w
  {
    if k < n {
      EliminateBelowWork(EliminateStep(s, n, i, k), EliminateStep(s', n, i, k), n, i, k + 1);
    }
  }

  /** The pivot search fails for the same operands with or without the full exchange of `result` rows. */
  lemma {:induction false} ForwardWork(s: Elim, s': Elim, n: nat, i: nat)
    requires ValidElim(s, n) && ValidElim(s', n) && s.w == s'.w
    decreases n - i
    ensures Forward(s, n, i, false).Some? <==> Forward(s', n, i, true).Some?
  {
    if i < n && Pivot(s.w, n, i, i).Some? {
      var k := Pivot(s.w, n, i, i).value;
      var t := Scaled(Swapped(s, n, i, k, false), n, i);
      var t' := Scaled(Swapped(s', n, i, k, true), n, i);
      EliminateBelowWork(t, t', n, i, i + 1);
      ForwardWork(EliminateBelow(t, n, i, i + 1), EliminateBelow(t', n, i, i + 1), n, i + 1);
    }
  }

  /**
   * With whole rows of `result` exchanged, whenever the elimination finds a pivot in every
   * column its result is a left inverse of the operand.
   */
  lemma CorrectedLeftInverse(a: Rows, n: nat)
    requires IsSquare(a, n) && GaussJordan(a, n, true).Some?
    ensures Product(GaussJordan(a, n, true).value, a, n) == IdentityRows(n)
  {
    var s := Elim(a, IdentityRows(n));
    IdentityProduct(a, n);
    ForwardKeeps(s, a, n, 0);
    var t := Forward(s, n, 0, true).value;
    BackwardKeeps(t, a, n, n);
    var u := Backward(t, n, n);
    forall r | 0 <= r < n
      ensures u.w[r] == IdentityRows(n)[r]
    {
    }
    assert u.w == IdentityRows(n);
  }

  // ---------------------------------------------------------------------------------------------
  // The exchange of `result` rows from column i on, as written

  /** Scaling by 1 / work[i][i] when that pivot is already 1 changes nothing. */
  lemma ScaledOne(s: Elim, n: nat, i: nat)
    requires ValidElim(s, n) && i < n && s.w[i][i] == 1.0
    ensures Scaled(s, n, i) == s
  {
    assert ScaleFrom(s.w[i][i := 1.0], 1.0, i + 1) == s.w[i];
    assert ScaleFrom(s.r[i], 1.0, 0) == s.r[i];
  }

  /**
   * For the operand [[1,0,0],[1,0,1],[0,1,0]] the elimination as written returns
   * [[1,0,0],[-1,0,1],[0,1,0]], which is not a left inverse: the second row of its product
   * with the operand is [-1,1,0]. The exchange at column 1 left column 0 of `result` behind.
   */
  lemma PartialSwapCounterexample()
    ensures GaussJordan([[1.0, 0.0, 0.0], [1.0, 0.0, 1.0], [0.0, 1.0, 0.0]], 3, false)
         == Some([[1.0, 0.0, 0.0], [-1.0, 0.0, 1.0], [0.0, 1.0, 0.0]])
    ensures Product([[1.0, 0.0, 0.0], [-1.0, 0.0, 1.0], [0.0, 1.0, 0.0]], [[1.0, 0.0, 0.0], [1.0, 0.0, 1.0], [0.0, 1.0, 0.0]], 3)[1][0] == -1.0
    ensures Product([[1.0, 0.0, 0.0], [-1.0, 0.0, 1.0], [0.0, 1.0, 0.0]], [[1.0, 0.0, 0.0], [1.0, 0.0, 1.0], [0.0, 1.0, 0.0]], 3) != IdentityRows(3)
  {
    var a := [[1.0, 0.0, 0.0], [1.0, 0.0, 1.0], [0.0, 1.0, 0.0]];
    var x := [[1.0, 0.0, 0.0], [-1.0, 0.0, 1.0], [0.0, 1.0, 0.0]];
    CounterexampleIdentity();
    CounterexampleColumn0();
    CounterexampleColumn1();
    CounterexampleColumn2();
    assert RowCol(x[1], a, 3, 0, 3) == -1.0;
  }

  lemma CounterexampleIdentity()
    ensures IdentityRows(3) == [[1.0, 0.0, 0.0], [0.0, 1.0, 0.0], [0.0, 0.0, 1.0]]
  {
    var id := [[1.0, 0.0, 0.0], [0.0, 1.0, 0.0], [0.0, 0.0, 1.0]];
    assert IdentityRows(3)[0] == id[0] && IdentityRows(3)[1] == id[1] && IdentityRows(3)[2] == id[2];
  }

  /** Column 0 of the counterexample: pivot 0, already 1; row 1 loses row 0, row 2 has nothing to eliminate. */
  lemma CounterexampleColumn0()
    ensures Forward(Elim([[1.0, 0.0, 0.0], [1.0, 0.0, 1.0], [0.0, 1.0, 0.0]], [[1.0, 0.0, 0.0], [0.0, 1.0, 0.0], [0.0, 0.0, 1.0]]), 3, 0, false)
         == Forward(Elim([[1.0, 0.0, 0.0], [0.0, 0.0, 1.0], [0.0, 1.0, 0.0]], [[1.0, 0.0, 0.0], [-1.0, 1.0, 0.0], [0.0, 0.0, 1.0]]), 3, 1, false)
  {
    var a := [[1.0, 0.0, 0.0], [1.0, 0.0, 1.0], [0.0, 1.0, 0.0]];
    var id := [[1.0, 0.0, 0.0], [0.0, 1.0, 0.0], [0.0, 0.0, 1.0]];
    var s0 := Elim(a, id);
    assert Pivot(a, 3, 0, 0) == Some(0);
    ScaledOne(s0, 3, 0);
    var s1 := Elim([[1.0, 0.0, 0.0], [0.0, 0.0, 1.0], [0.0, 1.0, 0.0]], [[1.0, 0.0, 0.0], [-1.0, 1.0, 0.0], [0.0, 0.0, 1.0]]);
    assert EliminateStep(s0, 3, 0, 1) == s1 by {
      assert SubtractFrom(a[1][0 := 0.0], 1.0, a[0], 1) == s1.w[1];
      assert SubtractFrom(id[1], 1.0, id[0], 0) == s1.r[1];
    }
    EliminateBelowZero(s1, 3, 0, 2);
  }

  /** Column 1: pivot row 2; the exchange of `result` covers its columns 1 and 2 only. */
  lemma CounterexampleColumn1()
    ensures Forward(Elim([[1.0, 0.0, 0.0], [0.0, 0.0, 1.0], [0.0, 1.0, 0.0]], [[1.0, 0.0, 0.0], [-1.0, 1.0, 0.0], [0.0, 0.0, 1.0]]), 3, 1, false)
         == Forward(Elim([[1.0, 0.0, 0.0], [0.0, 1.0, 0.0], [0.0, 0.0, 1.0]], [[1.0, 0.0, 0.0], [-1.0, 0.0, 1.0], [0.0, 1.0, 0.0]]), 3, 2, false)
  {
    var id := [[1.0, 0.0, 0.0], [0.0, 1.0, 0.0], [0.0, 0.0, 1.0]];
    var x := [[1.0, 0.0, 0.0], [-1.0, 0.0, 1.0], [0.0, 1.0, 0.0]];
    var s1 := Elim([[1.0, 0.0, 0.0], [0.0, 0.0, 1.0], [0.0, 1.0, 0.0]], [[1.0, 0.0, 0.0], [-1.0, 1.0, 0.0], [0.0, 0.0, 1.0]]);
    assert Pivot(s1.w, 3, 1, 1) == Some(2) by {
      assert Pivot(s1.w, 3, 1, 2) == Some(2);
    }
    var s2 := Elim(id, x);
    assert Swapped(s1, 3, 1, 2, false) == s2 by {
      var sw := SwapFrom(s1.w, 3, 1, 2, 1);
      var sr := SwapFrom(s1.r, 3, 1, 2, 1);
      assert sw[0] == id[0] && sw[1] == id[1] && sw[2] == id[2];
      assert sr[0] == x[0] && sr[1] == x[1] && sr[2] == x[2];
    }
    ScaledOne(s2, 3, 1);
    EliminateBelowZero(s2, 3, 1, 2);
  }

  /** Column 2: pivot 2, already 1, nothing below; back substitution has nothing to clear. */
  lemma CounterexampleColumn2()
    ensures Forward(Elim([[1.0, 0.0, 0.0], [0.0, 1.0, 0.0], [0.0, 0.0, 1.0]], [[1.0, 0.0, 0.0], [-1.0, 0.0, 1.0], [0.0, 1.0, 0.0]]), 3, 2, false)
         == Some(Elim([[1.0, 0.0, 0.0], [0.0, 1.0, 0.0], [0.0, 0.0, 1.0]], [[1.0, 0.0, 0.0], [-1.0, 0.0, 1.0], [0.0, 1.0, 0.0]]))
    ensures Backward(Elim([[1.0, 0.0, 0.0], [0.0, 1.0, 0.0], [0.0, 0.0, 1.0]], [[1.0, 0.0, 0.0], [-1.0, 0.0, 1.0], [0.0, 1.0, 0.0]]), 3, 3).r
         == [[1.0, 0.0, 0.0], [-1.0, 0.0, 1.0], [0.0, 1.0, 0.0]]
  {
    var id := [[1.0, 0.0, 0.0], [0.0, 1.0, 0.0], [0.0, 0.0, 1.0]];
    var x := [[1.0, 0.0, 0.0], [-1.0, 0.0, 1.0], [0.0, 1.0, 0.0]];
    var s2 := Elim(id, x);
    assert Pivot(id, 3, 2, 2) == Some(2);
    ScaledOne(s2, 3, 2);
    BackwardDiagonal(s2, 3, 3);
  }

  // ---------------------------------------------------------------------------------------------
  // The pivot search as written

  /**
   * The cells `for(k = i; work[n*k+i]==0 && k<n; k++);` reads from k on, in order: the cell of row k
   * is read before k < n is checked, so the search stops only after reading it.
   */
  function PivotScanReads(work: seq<real>, n: nat, i: nat, k: nat): (cells: seq<int>)
    requires k <= n
    decreases n - k
    ensures |cells| > 0 && cells[0] == Flat(n, k, i)
  {
    [Flat(n, k, i)] + if k < n && Cell(work, Flat(n, k, i)) == 0.0 then PivotScanReads(work, n, i, k + 1) else []
  }

  /**
   * When column i holds 0 in rows k .. n-1, the search as written reads work[n*n + i], past the
   * n*n cells of `work`.
   */
  lemma PivotScanOverruns(work: seq<real>, n: nat, i: nat, k: nat)
    requires |work| == n * n && i < n && k <= n
    requires forall t :: k <= t < n ==> Cell(work, Flat(n, t, i)) == 0.0
    ensures Flat(n, n, i) in PivotScanReads(work, n, i, k) && Flat(n, n, i) >= |work|
  {
    PivotScanReachesEnd(work, n, i, k);
  }

  /** Over a column of zeros the search reaches the cell of row n. */
  lemma {:induction false} PivotScanReachesEnd(work: seq<real>, n: nat, i: nat, k: nat)
    requires k <= n
    requires forall t :: k <= t < n ==> Cell(work, Flat(n, t, i)) == 0.0
    decreases n - k
    ensures Flat(n, n, i) in PivotScanReads(work, n, i, k)
  {
    if k < n {
      assert Cell(work, Flat(n, k, i)) == 0.0;
      PivotScanReachesEnd(work, n, i, k + 1);
      var rest := PivotScanReads(work, n, i, k + 1);
      assert PivotScanReads(work, n, i, k) == [Flat(n, k, i)] + rest;
      assert Flat(n, n, i) in rest;
    } else {
      assert PivotScanReads(work, n, i, k)[0] == Flat(n, n, i);
    }
  }

  /** When some row t >= k holds a non-zero cell in column i, every cell the search reads is inside `work`. */
  lemma {:induction false} PivotScanInBounds(work: seq<real>, n: nat, i: nat, k: nat, t: nat)
    requires |work| == n * n && i < n && k <= t < n && Cell(work, Flat(n, t, i)) != 0.0
    decreases t - k
    ensures forall q :: q in PivotScanReads(work, n, i, k) ==> 0 <= q < |work|
  {
    FlatBound(n, n, k, i);
    if k < t && Cell(work, Flat(n, k, i)) == 0.0 {
      PivotScanInBounds(work, n, i, k + 1, t);
    }
  }

  // ---------------------------------------------------------------------------------------------
  // MATRIX_Inverse on buffers

  /** `work` and `result` hold the two matrices of `s` in their first n*n cells. */
  ghost predicate Stores(work: array<real>, result: array<real>, n: nat, s: Elim)
    reads work, result
  {
    work.Length >= n * n && result.Length >= n * n
    && RowsOf(work[..], n) == s.w && RowsOf(result[..], n) == s.r
  }

  /** RowsOf equals a matrix that agrees with the buffer cell by cell. */
  lemma RowsOfCells(s: seq<real>, n: nat, a: Rows)
    requires IsSquare(a, n)
    requires forall r, c :: 0 <= r < n && 0 <= c < n ==> Cell(s, Flat(n, r, c)) == a[r][c]
    ensures RowsOf(s, n) == a
  {
    forall r | 0 <= r < n
      ensures RowsOf(s, n)[r] == a[r]
    {
    }
  }

  /** Writing one row of a buffer, and nothing else, replaces that row of RowsOf. */
  lemma RowWritten(s: seq<real>, s': seq<real>, n: nat, r0: nat, row: seq<real>)
    requires |s'| == |s| >= n * n && r0 < n && |row| == n
    requires forall c :: 0 <= c < n ==> Cell(s', Flat(n, r0, c)) == row[c]
    requires forall q :: 0 <= q < |s| && !(Flat(n, r0, 0) <= q < Flat(n, r0, n)) ==> s'[q] == s[q]
    ensures RowsOf(s', n) == RowsOf(s, n)[r0 := row]
  {
    forall r, c | 0 <= r < n && 0 <= c < n
      ensures Cell(s', Flat(n, r, c)) == RowsOf(s, n)[r0 := row][r][c]
    {
      FlatBound(n, n, r, c);
      if r < r0 {
        RowsOrdered(n, r, c, r0, 0);
      } else if r > r0 {
        RowsOrdered(n, r0, n - 1, r, c);
      }
    }
    RowsOfCells(s', n, RowsOf(s, n)[r0 := row]);
  }

  /** RowsOf reads only the first n*n cells. */
  lemma RowsOfPrefix(s: seq<real>, s': seq<real>, n: nat)
    requires |s| >= n * n && |s'| >= n * n && s[..n * n] == s'[..n * n]
    ensures RowsOf(s, n) == RowsOf(s', n)
  {
    forall r, c | 0 <= r < n && 0 <= c < n
      ensures Cell(s', Flat(n, r, c)) == RowsOf(s, n)[r][c]
    {
      FlatBound(n, n, r, c);
      assert s[..n * n][Flat(n, r, c)] == s'[..n * n][Flat(n, r, c)];
    }
    RowsOfCells(s', n, RowsOf(s, n));
  }

  /** b agrees with a from cell `from` on. */
  ghost predicate SameFrom(b: seq<real>, a: seq<real>, from: int)
  {
    |b| == |a| && forall q :: 0 <= q < |a| && from <= q ==> b[q] == a[q]
  }

  /** The nested loop of matrix.c:31-37: `result` becomes the identity. */
  method SetIdentity(result: array<real>, n: nat)
    requires result.Length >= n * n
    modifies result
    ensures RowsOf(result[..], n) == IdentityRows(n)
    ensures SameFrom(result[..], old(result[..]), n * n)
  {
    RowEnd(n, n + 1, n);
    var i := 0;
    while i < n
      invariant 0 <= i <= n
      invariant IdentityUpTo(result[..], n, i)
      invariant forall q :: Flat(n, i, 0) <= q < result.Length ==> result[q] == old(result[q])
    {
      SetIdentityRow(result, n, i);
      i := i + 1;
    }
    RowsOfCells(result[..], n, IdentityRows(n));
  }

  /** Rows 0 .. rows-1 of the n x n matrix stored in s are those of the identity. */
  ghost predicate IdentityUpTo(s: seq<real>, n: nat, rows: int)
  {
    forall r, c :: 0 <= r < rows && 0 <= c < n ==> Cell(s, Flat(n, r, c)) == if r == c then 1.0 else 0.0
  }

  /** The inner loop of matrix.c:32-36 for row i. */
  method SetIdentityRow(result: array<real>, n: nat, i: nat)
    requires result.Length >= n * n && i < n && IdentityUpTo(result[..], n, i)
    modifies result
    ensures IdentityUpTo(result[..], n, i + 1)
    ensures forall q :: Flat(n, i + 1, 0) <= q < result.Length ==> result[q] == old(result[q])
  {
    ghost var done := result[..];
    RowEnd(n, n, i);
    var j := 0;
    while j < n
      invariant 0 <= j <= n
      invariant forall c :: 0 <= c < j ==> Cell(result[..], Flat(n, i, c)) == if i == c then 1.0 else 0.0
      invariant forall q :: 0 <= q < Flat(n, i, 0) ==> result[q] == done[q]
      invariant forall q :: Flat(n, i, j) <= q < result.Length ==> result[q] == old(result[q])
    {
      FlatBound(n, n, i, j);
      result[Flat(n, i, j)] := if i == j then 1.0 else 0.0;
      j := j + 1;
    }
    forall r, c | 0 <= r < i && 0 <= c < n
      ensures Cell(result[..], Flat(n, r, c)) == if r == c then 1.0 else 0.0
    {
      RowsOrdered(n, r, c, i, 0);
      assert Cell(done, Flat(n, r, c)) == if r == c then 1.0 else 0.0;
    }
    assert Flat(n, i, n) == Flat(n, i + 1, 0);
  }

  /**
   * The pivot search of matrix.c:40 with its two tests in the safe order: the first row k >= i
   * whose column-i cell is not zero, or n when there is none.
   */
  method FindPivot(work: array<real>, n: nat, i: nat, ghost s: Elim) returns (k: nat)
    requires i < n && work.Length >= n * n && IsSquare(s.w, n) && RowsOf(work[..], n) == s.w
    ensures Pivot(s.w, n, i, i).Some? ==> k == Pivot(s.w, n, i, i).value
    ensures Pivot(s.w, n, i, i).None? ==> k == n
  {
    forall t | 0 <= t < n
      ensures 0 <= Flat(n, t, i) < work.Length && work[Flat(n, t, i)] == s.w[t][i]
    {
      FlatBound(n, n, t, i);
      assert s.w[t][i] == RowsOf(work[..], n)[t][i];
    }
    k := i;
    while k < n && work[Flat(n, k, i)] == 0.0
      invariant i <= k <= n
      invariant forall t :: i <= t < k ==> s.w[t][i] == 0.0
    {
      k := k + 1;
    }
  }

  /** Cells of two different rows never coincide, and neither lies in the other's range. */
  lemma RowsDisjoint(n: nat, i: nat, k: nat, j: nat)
    requires i < n && k < n && i != k && j < n
    ensures !(Flat(n, k, 0) <= Flat(n, i, j) < Flat(n, k, n))
    ensures !(Flat(n, i, 0) <= Flat(n, k, j) < Flat(n, i, n))
  {
    if i < k {
      RowsOrdered(n, i, j, k, 0);
      RowsOrdered(n, i, n - 1, k, j);
    } else {
      RowsOrdered(n, k, j, i, 0);
      RowsOrdered(n, k, n - 1, i, j);
    }
  }

  /** Writing rows i and k of a buffer, and nothing else, replaces those rows of RowsOf. */
  lemma TwoRowsWritten(s: seq<real>, s': seq<real>, n: nat, i: nat, k: nat, b: Rows)
    requires |s'| == |s| >= n * n && i < n && k < n && i != k && IsSquare(b, n)
    requires forall c :: 0 <= c < n ==> Cell(s', Flat(n, i, c)) == b[i][c] && Cell(s', Flat(n, k, c)) == b[k][c]
    requires forall r :: 0 <= r < n && r != i && r != k ==> b[r] == RowsOf(s, n)[r]
    requires forall q :: 0 <= q < |s| && !(Flat(n, i, 0) <= q < Flat(n, i, n)) && !(Flat(n, k, 0) <= q < Flat(n, k, n)) ==> s'[q] == s[q]
    ensures RowsOf(s', n) == b
  {
    forall r, c | 0 <= r < n && 0 <= c < n
      ensures Cell(s', Flat(n, r, c)) == b[r][c]
    {
      if r != i && r != k {
        FlatBound(n, n, r, c);
        RowsDisjoint(n, r, i, c);
        RowsDisjoint(n, r, k, c);
        assert b[r][c] == RowsOf(s, n)[r][c];
      }
    }
    RowsOfCells(s', n, b);
  }


  /** Rows r1 < r2 occupy disjoint ranges of the buffer. */
  lemma RowsApart(n: nat, r1: nat, r2: nat)
    requires r1 < r2
    ensures Flat(n, r1, n) <= Flat(n, r2, 0)
  {
    MulMonotone(r1 + 1, r2, n);
    assert (r1 + 1) * n == r1 * n + n;
  }

  /** Writing one cell of a buffer writes that cell of the stored matrix. */
  lemma PointStored(a: seq<real>, n: nat, r: nat, c: nat, v: real)
    requires |a| >= n * n && r < n && c < n
    ensures 0 <= Flat(n, r, c) < |a|
    ensures RowsOf(a[Flat(n, r, c) := v], n) == RowsOf(a, n)[r := RowsOf(a, n)[r][c := v]]
  {
    FlatBound(n, n, r, c);
    RowEnd(n, n, r);
    forall c' | 0 <= c' < n
      ensures Cell(a[Flat(n, r, c) := v], Flat(n, r, c')) == RowsOf(a, n)[r][c := v][c']
    {
      FlatBound(n, n, r, c');
    }
    RowWritten(a, a[Flat(n, r, c) := v], n, r, RowsOf(a, n)[r][c := v]);
  }

  /** Scaling cells base+from .. base+n-1, where base starts row r, scales that part of the stored row. */
  lemma ScaledStored(a: seq<real>, b: seq<real>, n: nat, r: nat, base: int, from: nat, t: real)
    requires |b| == |a| >= n * n && r < n && from <= n && base == Flat(n, r, 0)
    requires forall q :: 0 <= q < |a| ==> b[q] == if base + from <= q < base + n then a[q] * t else a[q]
    ensures RowsOf(b, n) == RowsOf(a, n)[r := ScaleFrom(RowsOf(a, n)[r], t, from)]
  {
    RowEnd(n, n, r);
    forall c | 0 <= c < n
      ensures Cell(b, Flat(n, r, c)) == ScaleFrom(RowsOf(a, n)[r], t, from)[c]
    {
      FlatBound(n, n, r, c);
    }
    RowWritten(a, b, n, r, ScaleFrom(RowsOf(a, n)[r], t, from));
  }

  /** Subtracting t times row i from the cells of row k from column `from` on, in the stored matrix. */
  lemma SubtractedStored(a: seq<real>, b: seq<real>, n: nat, k: nat, i: nat, dst: int, src: int, from: nat, t: real)
    requires |b| == |a| >= n * n && k < n && i < n && k != i && from <= n
    requires dst == Flat(n, k, 0) && src == Flat(n, i, 0)
    requires 0 <= dst && dst + n <= |a| && 0 <= src && src + n <= |a|
    requires SubtractPrefix(b, a, dst, src, from, n, t)
    ensures RowsOf(b, n) == RowsOf(a, n)[k := SubtractFrom(RowsOf(a, n)[k], t, RowsOf(a, n)[i], from)]
  {
    var row := SubtractFrom(RowsOf(a, n)[k], t, RowsOf(a, n)[i], from);
    SubtractedRow(a, b, n, k, i, dst, src, from, t, row);
    SubtractedOutside(a, b, n, k, dst, src, from, t);
    RowWritten(a, b, n, k, row);
  }

  /** The cells of row k after the subtraction. */
  lemma SubtractedRow(a: seq<real>, b: seq<real>, n: nat, k: nat, i: nat, dst: int, src: int, from: nat, t: real, row: seq<real>)
    requires |b| == |a| >= n * n && k < n && i < n && from <= n
    requires dst == Flat(n, k, 0) && src == Flat(n, i, 0)
    requires SubtractPrefix(b, a, dst, src, from, n, t)
    requires row == SubtractFrom(RowsOf(a, n)[k], t, RowsOf(a, n)[i], from)
    ensures |row| == n
    ensures forall c :: 0 <= c < n ==> Cell(b, Flat(n, k, c)) == row[c]
  {
    forall c | 0 <= c < n
      ensures Cell(b, Flat(n, k, c)) == row[c]
    {
      FlatBound(n, n, k, c);
      FlatBound(n, n, i, c);
      var q := Flat(n, k, c);
      assert q == dst + c && q - dst + src == Flat(n, i, c);
      assert RowsOf(a, n)[k][c] == a[q] && RowsOf(a, n)[i][c] == a[q - dst + src];
    }
  }

  /** The cells outside row k are untouched by the subtraction. */
  lemma SubtractedOutside(a: seq<real>, b: seq<real>, n: nat, k: nat, dst: int, src: int, from: nat, t: real)
    requires dst == Flat(n, k, 0) && SubtractPrefix(b, a, dst, src, from, n, t)
    ensures forall q :: 0 <= q < |a| && !(Flat(n, k, 0) <= q < Flat(n, k, n)) ==> b[q] == a[q]
  {
    forall q | 0 <= q < |a| && !(Flat(n, k, 0) <= q < Flat(n, k, n))
      ensures b[q] == a[q]
    {
      assert Flat(n, k, n) == dst + n;
      assert !(dst + from <= q < dst + n);
    }
  }

  /** Exchanging the cells of rows i and k from column `from` on, in the stored matrix. */
  lemma SwappedStored(a: seq<real>, b: seq<real>, n: nat, i: nat, k: nat, x: int, y: int, from: nat)
    requires |b| == |a| >= n * n && i < n && k < n && i != k && from <= n
    requires x == Flat(n, i, 0) && y == Flat(n, k, 0)
    requires 0 <= x && x + n <= |a| && 0 <= y && y + n <= |a| && (x + n <= y || y + n <= x)
    requires SwapPrefix(b, a, x, y, from, n)
    ensures RowsOf(b, n) == SwapFrom(RowsOf(a, n), n, i, k, from)
  {
    var sw := SwapFrom(RowsOf(a, n), n, i, k, from);
    forall c | 0 <= c < n
      ensures Cell(b, Flat(n, i, c)) == sw[i][c]
    {
      FlatBound(n, n, i, c);
      FlatBound(n, n, k, c);
      assert Flat(n, i, c) == x + c && Flat(n, k, c) == y + c;
      assert RowsOf(a, n)[k][c] == a[y + c] && RowsOf(a, n)[i][c] == a[x + c];
    }
    forall c | 0 <= c < n
      ensures Cell(b, Flat(n, k, c)) == sw[k][c]
    {
      FlatBound(n, n, i, c);
      FlatBound(n, n, k, c);
      assert Flat(n, i, c) == x + c && Flat(n, k, c) == y + c;
      assert RowsOf(a, n)[k][c] == a[y + c] && RowsOf(a, n)[i][c] == a[x + c];
    }
    TwoRowsWritten(a, b, n, i, k, sw);
  }

  /** The loops `a[n*r+j] *= t` of matrix.c:55-62, for j in from .. n-1: part of row r scaled by t. */
  method ScaleRowFrom(a: array<real>, n: nat, r: nat, from: nat, t: real)
    requires a.Length >= n * n && r < n && from <= n
    modifies a
    ensures RowsOf(a[..], n) == RowsOf(old(a[..]), n)[r := ScaleFrom(RowsOf(old(a[..]), n)[r], t, from)]
    ensures SameFrom(a[..], old(a[..]), n * n)
  {
    RowEnd(n, n, r);
    ghost var a0 := a[..];
    ghost var base := Flat(n, r, 0);
    var j := from;
    while j < n
      invariant from <= j <= n
      invariant forall q {:trigger a[q]} :: 0 <= q < a.Length ==> a[q] == if base + from <= q < base + j then a0[q] * t else a0[q]
    {
      a[Flat(n, r, j)] := a[Flat(n, r, j)] * t;
      j := j + 1;
    }
    ScaledStored(a0, a[..], n, r, base, from, t);
  }

  /** The loops `a[n*k+j] -= t * a[n*i+j]` of matrix.c:67-74 and 83-86, for j in from .. n-1. */
  method SubtractRowFrom(a: array<real>, n: nat, k: nat, i: nat, from: nat, t: real)
    requires a.Length >= n * n && k < n && i < n && k != i && from <= n
    modifies a
    ensures RowsOf(a[..], n) == RowsOf(old(a[..]), n)[k := SubtractFrom(RowsOf(old(a[..]), n)[k], t, RowsOf(old(a[..]), n)[i], from)]
    ensures SameFrom(a[..], old(a[..]), n * n)
  {
    RowEnd(n, n, i);
    RowEnd(n, n, k);
    if i < k { RowsApart(n, i, k); } else { RowsApart(n, k, i); }
    ghost var a0 := a[..];
    var dst, src := Flat(n, k, 0), Flat(n, i, 0);
    SubtractLoop(a, n, dst, src, from, t);
    SubtractedStored(a0, a[..], n, k, i, dst, src, from, t);
  }

  /** The loop over the columns j = from .. n-1: the row at src, scaled by t, subtracted from the row at dst. */
  method SubtractLoop(a: array<real>, n: nat, dst: int, src: int, from: nat, t: real)
    requires from <= n && 0 <= dst && 0 <= src && (dst + n <= src || src + n <= dst) && dst + n <= a.Length && src + n <= a.Length
    modifies a
    ensures SubtractPrefix(a[..], old(a[..]), dst, src, from, n, t)
  {
    var j := from;
    while j < n
      invariant from <= j <= n
      invariant SubtractPrefix(a[..], old(a[..]), dst, src, from, j, t)
    {
      ghost var b := a[..];
      SubtractCell(a, dst + j, src + j, t);
      SubtractPrefixStep(b, a[..], old(a[..]), dst, src, from, j, n, t);
      j := j + 1;
    }
  }

  /** The body of the loop: `a[p] -= t * a[q]`. */
  method SubtractCell(a: array<real>, p: int, q: int, t: real)
    requires 0 <= p < a.Length && 0 <= q < a.Length
    modifies a
    ensures a[p] == old(a[p]) - t * old(a[q])
    ensures forall c :: 0 <= c < a.Length && c != p ==> a[c] == old(a[c])
  {
    a[p] := a[p] - t * a[q];
  }

  /** b is a with cells from .. j-1 of the row at dst reduced by t times the matching cells of the row at src. */
  ghost predicate SubtractPrefix(b: seq<real>, a: seq<real>, dst: int, src: int, from: int, j: int, t: real)
  {
    && |b| == |a| && 0 <= from <= j && 0 <= dst && dst + j <= |a| && 0 <= src && src + j <= |a|
    && forall q {:trigger b[q]} :: 0 <= q < |a| ==> b[q] == if dst + from <= q < dst + j then a[q] - t * a[q - dst + src] else a[q]
  }

  /** Updating the cell at column j extends the updated prefix by one cell. */
  lemma SubtractPrefixStep(b: seq<real>, b': seq<real>, a: seq<real>, dst: int, src: int, from: int, j: int, n: int, t: real)
    requires SubtractPrefix(b, a, dst, src, from, j, t) && from <= j < n
    requires 0 <= dst && dst + n <= |a| && 0 <= src && src + n <= |a| && (dst + n <= src || src + n <= dst)
    requires |b'| == |b| && b'[dst + j] == b[dst + j] - t * b[src + j]
    requires forall c :: 0 <= c < |b| && c != dst + j ==> b'[c] == b[c]
    ensures SubtractPrefix(b', a, dst, src, from, j + 1, t)
  {
  }

  /** The exchange loop of matrix.c:43-51: rows i and k of both buffers, columns from .. n-1. */
  method SwapRowsFrom(work: array<real>, result: array<real>, n: nat, i: nat, k: nat, from: nat)
    requires work != result && work.Length >= n * n && result.Length >= n * n && i < n && k < n && i != k && from <= n
    modifies work, result
    ensures RowsOf(work[..], n) == SwapFrom(RowsOf(old(work[..]), n), n, i, k, from)
    ensures RowsOf(result[..], n) == SwapFrom(RowsOf(old(result[..]), n), n, i, k, from)
    ensures SameFrom(result[..], old(result[..]), n * n)
  {
    RowEnd(n, n, i);
    RowEnd(n, n, k);
    if i < k { RowsApart(n, i, k); } else { RowsApart(n, k, i); }
    ghost var w0, r0 := work[..], result[..];
    var x, y := Flat(n, i, 0), Flat(n, k, 0);
    SwapLoop(work, result, n, x, y, from);
    SwappedStored(w0, work[..], n, i, k, x, y, from);
    SwappedStored(r0, result[..], n, i, k, x, y, from);
  }

  /** The loop over the columns j = from .. n-1 of the rows at x and y. */
  method SwapLoop(work: array<real>, result: array<real>, n: nat, x: int, y: int, from: nat)
    requires work != result && from <= n && 0 <= x && 0 <= y && (x + n <= y || y + n <= x)
    requires x + n <= work.Length && y + n <= work.Length && x + n <= result.Length && y + n <= result.Length
    modifies work, result
    ensures SwapPrefix(work[..], old(work[..]), x, y, from, n) && SwapPrefix(result[..], old(result[..]), x, y, from, n)
  {
    var j := from;
    while j < n
      invariant from <= j <= n
      invariant SwapPrefix(work[..], old(work[..]), x, y, from, j) && SwapPrefix(result[..], old(result[..]), x, y, from, j)
    {
      ghost var wp, rp := work[..], result[..];
      SwapCells(work, result, x + j, y + j);
      SwapPrefixStep(wp, work[..], old(work[..]), x, y, from, j, n);
      SwapPrefixStep(rp, result[..], old(result[..]), x, y, from, j, n);
      j := j + 1;
    }
  }

  /** The body of the exchange loop: cells p and q exchanged through `tmp` in both buffers. */
  method SwapCells(work: array<real>, result: array<real>, p: int, q: int)
    requires work != result && 0 <= p < work.Length && 0 <= q < work.Length && p < result.Length && q < result.Length
    modifies work, result
    ensures work[..] == old(work[..])[p := old(work[q])][q := old(work[p])]
    ensures result[..] == old(result[..])[p := old(result[q])][q := old(result[p])]
  {
    var tmp := work[p];
    work[p] := work[q];
    work[q] := tmp;
    tmp := result[p];
    result[p] := result[q];
    result[q] := tmp;
  }

  /** b is a with cells from .. j-1 of the rows at x and y exchanged. */
  ghost predicate SwapPrefix(b: seq<real>, a: seq<real>, x: int, y: int, from: int, j: int)
  {
    && |b| == |a| && 0 <= from <= j && 0 <= x && x + j <= |a| && 0 <= y && y + j <= |a|
    && forall q {:trigger b[q]} :: 0 <= q < |a| ==>
      b[q] == if x + from <= q < x + j then a[q - x + y] else if y + from <= q < y + j then a[q - y + x] else a[q]
  }

  /** Exchanging the cells at column j extends the exchanged prefix by one cell. */
  lemma SwapPrefixStep(b: seq<real>, b': seq<real>, a: seq<real>, x: int, y: int, from: int, j: int, n: int)
    requires SwapPrefix(b, a, x, y, from, j) && from <= j < n
    requires 0 <= x && x + n <= |a| && 0 <= y && y + n <= |a| && (x + n <= y || y + n <= x)
    requires b' == b[x + j := b[y + j]][y + j := b[x + j]]
    ensures SwapPrefix(b', a, x, y, from, j + 1)
  {
  }

  /** The exchange of matrix.c:41-52: rows i and k of both buffers, columns i .. n-1 only. */
  method SwapRows(work: array<real>, result: array<real>, n: nat, i: nat, k: nat, ghost s: Elim)
    requires work != result && i < n && k < n && i != k && ValidElim(s, n) && Stores(work, result, n, s)
    modifies work, result
    ensures Stores(work, result, n, Swapped(s, n, i, k, false))
    ensures SameFrom(result[..], old(result[..]), n * n)
  {
    SwapRowsFrom(work, result, n, i, k, i);
  }

  /** The scaling of matrix.c:53-62: tmp = 1 / work[i][i], then row i of both buffers. */
  method ScalePivot(work: array<real>, result: array<real>, n: nat, i: nat, ghost s: Elim)
    requires work != result && i < n && ValidElim(s, n) && Stores(work, result, n, s) && s.w[i][i] != 0.0
    modifies work, result
    ensures Stores(work, result, n, Scaled(s, n, i))
    ensures SameFrom(result[..], old(result[..]), n * n)
  {
    ghost var w0 := work[..];
    PointStored(w0, n, i, i, 1.0);
    var tmp := 1.0 / work[Flat(n, i, i)];
    assert tmp == 1.0 / s.w[i][i] by {
      assert s.w[i][i] == RowsOf(w0, n)[i][i];
    }
    work[Flat(n, i, i)] := 1.0;
    assert work[..] == w0[Flat(n, i, i) := 1.0];
    ScaleRowFrom(work, n, i, i + 1, tmp);
    ScaleRowFrom(result, n, i, 0, tmp);
  }

  /** One pass of the elimination loop of matrix.c:65-74: row k of both buffers loses work[k][i] times row i. */
  method EliminateWith(work: array<real>, result: array<real>, n: nat, i: nat, k: nat, ghost s: Elim)
    requires work != result && i < k < n && ValidElim(s, n) && Stores(work, result, n, s)
    modifies work, result
    ensures Stores(work, result, n, EliminateStep(s, n, i, k))
    ensures SameFrom(result[..], old(result[..]), n * n)
  {
    ghost var w0 := work[..];
    PointStored(w0, n, k, i, 0.0);
    var tmp := work[Flat(n, k, i)];
    assert tmp == s.w[k][i] by {
      assert s.w[k][i] == RowsOf(w0, n)[k][i];
    }
    work[Flat(n, k, i)] := 0.0;
    assert work[..] == w0[Flat(n, k, i) := 0.0];
    ghost var mid := s.w[k := s.w[k][i := 0.0]];
    assert mid[k] == s.w[k][i := 0.0] && mid[i] == s.w[i];
    SubtractRowFrom(work, n, k, i, i + 1, tmp);
    SubtractRowFrom(result, n, k, i, 0, tmp);
  }

  /** One pass of the back-substitution loop of matrix.c:81-86. */
  method ClearWith(work: array<real>, result: array<real>, n: nat, i: nat, k: nat, ghost s: Elim)
    requires work != result && k < i < n && ValidElim(s, n) && Stores(work, result, n, s)
    modifies work, result
    ensures Stores(work, result, n, ClearStep(s, n, i, k))
    ensures SameFrom(result[..], old(result[..]), n * n)
  {
    ghost var w0 := work[..];
    PointStored(w0, n, k, i, 0.0);
    var tmp := work[Flat(n, k, i)];
    assert tmp == s.w[k][i] by {
      assert s.w[k][i] == RowsOf(w0, n)[k][i];
    }
    work[Flat(n, k, i)] := 0.0;
    assert work[..] == w0[Flat(n, k, i) := 0.0];
    SubtractRowFrom(result, n, k, i, 0, tmp);
  }

  /** The elimination loop of matrix.c:63-75 for column i: rows i+1 .. n-1 of both buffers. */
  method EliminateColumn(work: array<real>, result: array<real>, n: nat, i: nat, ghost s: Elim)
    requires work != result && i < n && ValidElim(s, n) && Stores(work, result, n, s)
    modifies work, result
    ensures Stores(work, result, n, EliminateBelow(s, n, i, i + 1))
    ensures SameFrom(result[..], old(result[..]), n * n)
  {
    ghost var t := s;
    var k := i + 1;
    while k < n
      invariant i + 1 <= k <= n + 1 && (k <= n || i + 1 == k)
      invariant ValidElim(t, n) && Stores(work, result, n, t)
      invariant EliminateBelow(s, n, i, i + 1) == EliminateBelow(t, n, i, k)
      invariant SameFrom(result[..], old(result[..]), n * n)
    {
      t := EliminateNext(work, result, n, i, k, s, t);
      k := k + 1;
    }
  }

  /** One pass of the elimination loop, with what is left of it: the buffers move from t to the next state t'. */
  method EliminateNext(work: array<real>, result: array<real>, n: nat, i: nat, k: nat, ghost s: Elim, ghost t: Elim)
    returns (ghost t': Elim)
    requires work != result && i < k < n && ValidElim(s, n) && ValidElim(t, n) && Stores(work, result, n, t)
    requires EliminateBelow(s, n, i, i + 1) == EliminateBelow(t, n, i, k)
    modifies work, result
    ensures ValidElim(t', n) && Stores(work, result, n, t')
    ensures EliminateBelow(s, n, i, i + 1) == EliminateBelow(t', n, i, k + 1)
    ensures SameFrom(result[..], old(result[..]), n * n)
  {
    EliminateWith(work, result, n, i, k, t);
    t' := EliminateStep(t, n, i, k);
  }

  /** The back-substitution loop of matrix.c:79-87 for column i: rows 0 .. i-1 of both buffers. */
  method ClearColumn(work: array<real>, result: array<real>, n: nat, i: nat, ghost s: Elim)
    requires work != result && i < n && ValidElim(s, n) && Stores(work, result, n, s)
    modifies work, result
    ensures Stores(work, result, n, ClearAbove(s, n, i, 0))
    ensures SameFrom(result[..], old(result[..]), n * n)
  {
    ghost var t := s;
    var k := 0;
    while k < i
      invariant 0 <= k <= i
      invariant ValidElim(t, n) && Stores(work, result, n, t)
      invariant ClearAbove(s, n, i, 0) == ClearAbove(t, n, i, k)
      invariant SameFrom(result[..], old(result[..]), n * n)
    {
      ClearWith(work, result, n, i, k, t);
      t := ClearStep(t, n, i, k);
      k := k + 1;
    }
  }

  /**
   * The loop of matrix.c:38-76 over the columns: pivot search, exchange, scaling and elimination.
   * It stops, reporting false, at the first column without a non-zero pivot candidate.
   */
  method ForwardPhase(work: array<real>, result: array<real>, n: nat, ghost s: Elim) returns (ok: bool)
    requires work != result && ValidElim(s, n) && Stores(work, result, n, s)
    modifies work, result
    ensures ok <==> Forward(s, n, 0, false).Some?
    ensures ok ==> Stores(work, result, n, Forward(s, n, 0, false).value)
    ensures SameFrom(result[..], old(result[..]), n * n)
  {
    ghost var t := s;
    var i := 0;
    while i < n
      invariant 0 <= i <= n
      invariant ValidElim(t, n) && Stores(work, result, n, t)
      invariant Forward(s, n, 0, false) == Forward(t, n, i, false)
      invariant SameFrom(result[..], old(result[..]), n * n)
    {
      var found;
      found, t := ForwardColumn(work, result, n, i, t);
      if !found {
        return false;
      }
      i := i + 1;
    }
    return true;
  }

  /** Column i of the forward phase (matrix.c:61-75): pivot search, row swap, scaling and elimination below. */
  method ForwardColumn(work: array<real>, result: array<real>, n: nat, i: nat, ghost s: Elim) returns (found: bool, ghost t: Elim)
    requires work != result && i < n && ValidElim(s, n) && Stores(work, result, n, s)
    modifies work, result
    ensures found <==> Pivot(s.w, n, i, i).Some?
    ensures found ==> t == EliminateBelow(Scaled(Swapped(s, n, i, Pivot(s.w, n, i, i).value, false), n, i), n, i, i + 1)
    ensures found ==> ValidElim(t, n) && Stores(work, result, n, t)
    ensures SameFrom(result[..], old(result[..]), n * n)
  {
    t := s;
    var k := FindPivot(work, n, i, t);
    if k == n {
      return false, t;
    }
    if k != i {
      SwapRows(work, result, n, i, k, t);
    }
    t := Swapped(t, n, i, k, false);
    ScalePivot(work, result, n, i, t);
    t := Scaled(t, n, i);
    EliminateColumn(work, result, n, i, t);
    t := EliminateBelow(t, n, i, i + 1);
    found := true;
  }

  /** The back substitution of matrix.c:77-88, columns n-1 down to 0. */
  method BackwardPhase(work: array<real>, result: array<real>, n: nat, ghost s: Elim)
    requires work != result && ValidElim(s, n) && Stores(work, result, n, s)
    modifies work, result
    ensures Stores(work, result, n, Backward(s, n, n))
    ensures SameFrom(result[..], old(result[..]), n * n)
  {
    ghost var t := s;
    var i := n - 1;
    while i >= 0
      invariant -1 <= i <= n - 1
      invariant ValidElim(t, n) && Stores(work, result, n, t)
      invariant Backward(s, n, n) == Backward(t, n, i + 1)
      invariant SameFrom(result[..], old(result[..]), n * n)
    {
      ClearColumn(work, result, n, i, t);
      t := ClearAbove(t, n, i, 0);
      i := i - 1;
    }
  }

  /**
   * MATRIX_Inverse. The operand is copied into a fresh `work` buffer before `result` is written and
   * is not read again, so `result` may be the operand itself (inversion in place); `result`
   * receives GaussJordan of the original operand as written. Where a column has no non-zero pivot
   * candidate the source's search runs past the end of `work` (see PivotScanReads); the model
   * stops there and reports false.
   */
  method Inverse(n: nat, operand: array<real>, result: array<real>) returns (ok: bool)
    requires operand.Length >= n * n && result.Length >= n * n
    modifies result
    ensures ok <==> GaussJordan(RowsOf(old(operand[..]), n), n, false).Some?
    ensures ok ==> RowsOf(result[..], n) == GaussJordan(RowsOf(old(operand[..]), n), n, false).value
    ensures SameFrom(result[..], old(result[..]), n * n)
  {
    ghost var op := operand[..];
    var work := new real[n * n];
    forall q | 0 <= q < n * n {
      work[q] := operand[q];
    }
    assert operand[..] == op;
    RowsOfPrefix(work[..], op, n);
    SetIdentity(result, n);
    ghost var s := Elim(RowsOf(op, n), IdentityRows(n));
    ok := ForwardPhase(work, result, n, s);
    if ok {
      BackwardPhase(work, result, n, Forward(s, n, 0, false).value);
    }
  }
}
