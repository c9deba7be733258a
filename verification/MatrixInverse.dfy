/** invert_mat: in-place Gauss-Jordan elimination with full pivoting. */
module MatrixInverse {
  import opened GaloisField
  import opened FieldLaws
  import opened GaloisTables
  import opened LinearAlgebra
  import opened FlatMatrix
  import opened GaussJordan

  ghost function Square(s: seq<gf>, k: nat): (m: Matrix)
    requires |s| == k * k
    ensures IsMatrix(m, k, k)
  {
    Unflatten(s, k, k)
  }

  lemma Entry(s: seq<gf>, k: nat, r: nat, c: nat)
    requires |s| == k * k && r < k && c < k
    ensures 0 <= r * k && r * k + k <= |s|
    ensures Square(s, k)[r] == s[r * k..r * k + k]
    ensures Square(s, k)[r][c] == s[r * k + c]
  {
    RowFits(k, k, r);
    UnflattenRow(s, k, k, r);
  }

  ghost predicate Marks(p: seq<int>) {
    forall i :: 0 <= i < |p| ==> p[i] == 0 || p[i] == 1
  }

  /** No unused row has a nonzero entry in an unused column. */
  ghost predicate NoPivot(m: Matrix, k: nat, p: seq<int>, rows: nat)
    requires IsMatrix(m, k, k) && |p| == k && rows <= k
  {
    forall r, c :: 0 <= r < rows && 0 <= c < k && p[r] == 0 && p[c] == 0 ==> m[r][c] == 0
  }

  method FindInRow(src: array<gf>, k: nat, ipiv: array<int>, row: nat) returns (found: bool, icol: nat)
    requires src.Length == k * k && ipiv.Length == k && Marks(ipiv[..]) && row < k
    ensures found ==> icol < k && ipiv[icol] == 0 && Square(src[..], k)[row][icol] != 0
    ensures !found ==> forall c :: 0 <= c < k && ipiv[c] == 0 ==> Square(src[..], k)[row][c] == 0
  {
    RowFits(k, k, row);
    for ix := 0 to k
      invariant forall c :: 0 <= c < ix && ipiv[c] == 0 ==> Square(src[..], k)[row][c] == 0
    {
      Entry(src[..], k, row, ix);
      // The branch for an element used more than once is never taken.
      assert ipiv[ix] <= 1;
      if ipiv[ix] == 0 && src[row * k + ix] != 0 {
        return true, ix;
      }
    }
    return false, 0;
  }

  /** First the diagonal element of the column, then any row and column not used yet. */
  method FindPivot(src: array<gf>, k: nat, ipiv: array<int>, col: nat)
    returns (found: bool, irow: nat, icol: nat)
    requires src.Length == k * k && ipiv.Length == k && Marks(ipiv[..]) && col < k
    ensures found ==> irow < k && icol < k && ipiv[irow] == 0 && ipiv[icol] == 0
    ensures found ==> Square(src[..], k)[irow][icol] != 0
    ensures !found ==> NoPivot(Square(src[..], k), k, ipiv[..], k)
  {
    Entry(src[..], k, col, col);
    if ipiv[col] != 1 && src[col * k + col] != 0 {
      return true, col, col;
    }
    irow, icol := 0, 0;
    for row := 0 to k
      invariant NoPivot(Square(src[..], k), k, ipiv[..], row)
    {
      if ipiv[row] != 1 {
        found, icol := FindInRow(src, k, ipiv, row);
        if found {
          return true, row, icol;
        }
      }
    }
    found := false;
  }

  /** What index m holds after the first n elements of two rows have been exchanged. */
  ghost function Exchanged(s: seq<gf>, pi: nat, pj: nat, n: nat, m: nat): gf
    requires pi + n <= |s| && pj + n <= |s| && m < |s|
  {
    if pi <= m < pi + n then s[m - pi + pj]
    else if pj <= m < pj + n then s[m - pj + pi]
    else s[m]
  }

  method SwapRows(src: array<gf>, k: nat, i: nat, j: nat)
    requires src.Length == k * k && i < k && j < k && i != j
    modifies src
    ensures Square(src[..], k) == Swapped(old(Square(src[..], k)), i, j)
  {
    RowFits(k, k, i); RowFits(k, k, j);
    RowsApart(k, i, j);
    var pi, pj := i * k, j * k;
    ghost var s := src[..];
    for ix := 0 to k
      invariant forall m :: 0 <= m < src.Length ==> src[m] == Exchanged(s, pi, pj, ix, m)
    {
      src[pi + ix], src[pj + ix] := src[pj + ix], src[pi + ix];
    }
    SwappedRows(s, src[..], k, i, j, pi, pj);
  }

  lemma SwappedRows(s: seq<gf>, t: seq<gf>, k: nat, i: nat, j: nat, pi: nat, pj: nat)
    requires |s| == k * k == |t| && i < k && j < k
    requires pi == i * k && pj == j * k && pi + k <= |s| && pj + k <= |s|
    requires pi + k <= pj || pj + k <= pi
    requires forall m :: 0 <= m < |s| ==> t[m] == Exchanged(s, pi, pj, k, m)
    ensures Square(t, k) == Swapped(Square(s, k), i, j)
  {
    var a, b := Square(s, k), Square(t, k);
    forall r | 0 <= r < k ensures b[r] == Swapped(a, i, j)[r] {
      SwappedRow(s, t, k, i, j, pi, pj, r);
    }
  }

  lemma SwappedRow(s: seq<gf>, t: seq<gf>, k: nat, i: nat, j: nat, pi: nat, pj: nat, r: nat)
    requires |s| == k * k == |t| && i < k && j < k && r < k
    requires pi == i * k && pj == j * k && pi + k <= |s| && pj + k <= |s|
    requires pi + k <= pj || pj + k <= pi
    requires forall m :: 0 <= m < |s| ==> t[m] == Exchanged(s, pi, pj, k, m)
    ensures Square(t, k)[r] == Swapped(Square(s, k), i, j)[r]
  {
    hide Unflatten;
    UnflattenRow(t, k, k, r);
    if r == i {
      UnflattenRow(s, k, k, j);
      assert t[pi..pi + k] == s[pj..pj + k];
    } else if r == j {
      UnflattenRow(s, k, k, i);
      assert t[pj..pj + k] == s[pi..pi + k];
    } else {
      UnflattenRow(s, k, k, r);
      RowsApart(k, r, i); RowsApart(k, r, j);
      RowFits(k, k, r);
      SameRow(s, t, k, pi, pj, r * k);
    }
  }

  lemma SameRow(s: seq<gf>, t: seq<gf>, k: nat, pi: nat, pj: nat, p: nat)
    requires |s| == |t| && pi + k <= |s| && pj + k <= |s| && p + k <= |s|
    requires p + k <= pi || pi + k <= p
    requires p + k <= pj || pj + k <= p
    requires forall m :: 0 <= m < |s| ==> t[m] == Exchanged(s, pi, pj, k, m)
    ensures t[p..p + k] == s[p..p + k]
  {
  }

  // ----- Scaling the pivot row

  lemma UnitPivot(row: Vector, c: nat)
    requires c < |row| && row[c] == 1
    ensures PivotRow(row, c) == row
  {
    InverseOne();
    assert row[c := 1] == row;
    forall j | 0 <= j < |row| ensures Mul(1, row[j]) == row[j] { MulOne(row[j]); }
  }

  /** Divide the row at p by its entry at icol, leaving the inverse of that entry in its place. */
  method ScalePivotRow(t: Tables, src: array<gf>, p: nat, k: nat, icol: nat)
    requires t.Ready() && t.Apart(src)
    requires p + k <= src.Length && icol < k && src[p + icol] != 0
    modifies src
    ensures t.Ready()
    ensures src[p..p + k] == PivotRow(old(src[p..p + k]), icol)
    ensures SameOutside(old(src[..]), src[..], p, p + k)
  {
    hide Mul, Exp;
    ghost var row := src[p..p + k];
    var c := src[p + icol];
    // The branch for a pivot that is zero is never taken.
    assert c != 0;
    if c != 1 {
      c := t.inverse[c];
      src[p + icol] := 1;
      ghost var one := row[icol := 1];
      for ix := 0 to k
        invariant t.Ready()
        invariant forall j :: p <= j < p + ix ==> src[j] == Mul(c, one[j - p])
        invariant forall j :: p + ix <= j < p + k ==> src[j] == one[j - p]
        invariant SameOutside(old(src[..]), src[..], p, p + k)
      {
        src[p + ix] := t.mulTable[c, src[p + ix]];
      }
      assert src[p..p + k] == Scaled(c, one);
    } else {
      UnitPivot(row, icol);
    }
  }

  // ----- Clearing the pivot column

  /** Take the multiple of the pivot row at q away from the row at p. */
  method ReduceRow(t: Tables, src: array<gf>, p: nat, q: nat, k: nat, icol: nat)
    requires t.Ready() && t.Apart(src)
    requires p + k <= src.Length && q + k <= src.Length && icol < k
    requires p + k <= q || q + k <= p
    modifies src
    ensures t.Ready()
    ensures src[p..p + k] == ReducedRow(old(src[p..p + k]), old(src[q..q + k]), icol)
    ensures SameOutside(old(src[..]), src[..], p, p + k)
  {
    hide Mul, Exp;
    ghost var row, pivot := src[p..p + k], src[q..q + k];
    var c := src[p + icol];
    src[p + icol] := 0;
    assert src[p..p + k] == row[icol := 0];
    assert src[q..q + k] == pivot;
    AddMul(t, src, p, src, q, c, k);
  }

  lemma UnitRowReducesNothing(row: Vector, c: nat)
    requires c < |row|
    ensures ReducedRow(row, Unit(|row|, c), c) == row
  {
    var e := Unit(|row|, c);
    forall j | 0 <= j < |row| ensures ReducedRow(row, e, c)[j] == row[j] {
      MulOne(row[c]);
      MulZero(row[c]);
      AddZero(row[j]);
    }
  }

  /** Rows below `done` have been reduced against row c of the matrix b. */
  ghost predicate Reduced(m: Matrix, b: Matrix, k: nat, c: nat, done: nat) {
    && IsMatrix(m, k, k) && IsMatrix(b, k, k) && c < k && done <= k
    && (forall r :: 0 <= r < done && r != c ==> m[r] == ReducedRow(b[r], b[c], c))
    && (forall r :: 0 <= r < k && (done <= r || r == c) ==> m[r] == b[r])
  }

  method EliminateColumn(t: Tables, src: array<gf>, k: nat, icol: nat)
    requires t.Ready() && t.Apart(src)
    requires src.Length == k * k && icol < k
    modifies src
    ensures t.Ready()
    ensures Reduced(Square(src[..], k), old(Square(src[..], k)), k, icol, k)
  {
    hide Mul, Exp, Unflatten, ReducedRow, IsMatrix;
    ghost var b := Square(src[..], k);
    RowFits(k, k, icol);
    var q := icol * k;
    for ix := 0 to k
      invariant t.Ready()
      invariant Reduced(Square(src[..], k), b, k, icol, ix)
    {
      if ix != icol {
        RowFits(k, k, ix); RowsApart(k, ix, icol);
        var p := ix * k;
        ghost var s := src[..];
        UnflattenRow(s, k, k, ix); UnflattenRow(s, k, k, icol);
        ReduceRow(t, src, p, q, k, icol);
        ReducedStep(s, src[..], b, k, icol, ix, p);
      }
    }
  }

  lemma ReducedStep(s: seq<gf>, t: seq<gf>, b: Matrix, k: nat, c: nat, ix: nat, p: nat)
    requires |s| == k * k == |t| && ix < k && ix != c && p == ix * k && p + k <= |s|
    requires Reduced(Square(s, k), b, k, c, ix)
    requires SameOutside(s, t, p, p + k)
    requires t[p..p + k] == ReducedRow(b[ix], b[c], c)
    ensures Reduced(Square(t, k), b, k, c, ix + 1)
  {
    hide ReducedRow, Unflatten;
    RowUpdated(s, t, k, k, ix);
  }

  // ----- One round of the elimination

  method RowIsUnit(src: array<gf>, p: nat, idRow: array<gf>, k: nat, icol: nat) returns (same: bool)
    requires p + k <= src.Length && idRow.Length == k && idRow[..] == Unit(k, icol)
    ensures same <==> src[p..p + k] == Unit(k, icol)
  {
    for i := 0 to k
      invariant forall j :: 0 <= j < i ==> src[p..p + k][j] == Unit(k, icol)[j]
    {
      if src[p + i] != idRow[i] {
        assert src[p..p + k][i] != Unit(k, icol)[i];
        return false;
      }
    }
    return true;
  }

  /** Scale row icol and clear column icol; rows need no clearing if the pivot row is a unit row. */
  method PivotDiagonal(t: Tables, src: array<gf>, k: nat, idRow: array<gf>, icol: nat)
    requires t.Ready() && t.Apart(src) && t.Apart(idRow) && src != idRow
    requires src.Length == k * k && idRow.Length == k && idRow[..] == Zeros(k)
    requires icol < k && Square(src[..], k)[icol][icol] != 0
    modifies src, idRow
    ensures t.Ready() && idRow[..] == Zeros(k)
    ensures Square(src[..], k) == Pivoted(old(Square(src[..], k)), k, icol)
  {
    hide Exp, Mul, Unflatten, ReducedRow, PivotRow;
    ghost var s0 := src[..];
    Entry(s0, k, icol, icol);
    var p := icol * k;
    ScalePivotRow(t, src, p, k, icol);
    ghost var s1 := src[..];
    RowUpdated(s0, s1, k, k, icol);
    idRow[icol] := 1;
    assert idRow[..] == Unit(k, icol);
    var unit := RowIsUnit(src, p, idRow, k, icol);
    if !unit {
      EliminateColumn(t, src, k, icol);
    } else {
      UnitReduced(Square(s1, k), k, icol);
    }
    ReducedIsPivoted(Square(s0, k), Square(s1, k), Square(src[..], k), k, icol);
    idRow[icol] := 0;
    assert idRow[..] == Zeros(k);
  }

  lemma UnitReduced(b: Matrix, k: nat, c: nat)
    requires IsMatrix(b, k, k) && c < k && b[c] == Unit(k, c)
    ensures Reduced(b, b, k, c, k)
  {
    forall r | 0 <= r < k ensures b[r] == ReducedRow(b[r], b[c], c) { UnitRowReducesNothing(b[r], c); }
  }

  lemma ReducedIsPivoted(a: Matrix, b: Matrix, m: Matrix, k: nat, c: nat)
    requires IsMatrix(a, k, k) && c < k
    requires b == a[c := PivotRow(a[c], c)]
    requires Reduced(m, b, k, c, k)
    ensures m == Pivoted(a, k, c)
  {
    hide ReducedRow, PivotRow;
    forall r | 0 <= r < k ensures m[r] == Pivoted(a, k, c)[r] { }
  }

  /** Exchange the chosen pivot: swap it onto the diagonal, scale its row, clear its column. */
  method PivotRound(t: Tables, src: array<gf>, k: nat, ipiv: array<int>, idRow: array<gf>, irow: nat, icol: nat,
                    ghost a: Matrix, ghost sigma: seq<nat>)
    requires t.Ready() && t.Apart(src) && t.Apart(idRow) && ipiv != t.gfLog && src != idRow
    requires src.Length == k * k && ipiv.Length == k && idRow.Length == k && idRow[..] == Zeros(k)
    requires |sigma| == k && Represents(a, Square(src[..], k), k, ipiv[..], sigma)
    requires irow < k && icol < k && ipiv[irow] == 0 && ipiv[icol] == 0
    requires Square(src[..], k)[irow][icol] != 0
    modifies src, ipiv, idRow
    ensures t.Ready() && idRow[..] == Zeros(k)
    ensures ipiv[..] == old(ipiv[..])[icol := 1]
    ensures Represents(a, Square(src[..], k), k, ipiv[..], Swapped(sigma, irow, icol))
  {
    hide Exp, Mul, Square, Represents, Pivoted;
    ghost var piv, s0 := ipiv[..], Square(src[..], k);
    ipiv[icol] := ipiv[icol] + 1;
    if irow != icol {
      SwapRows(src, k, irow, icol);
      SwapRowsRepresents(a, s0, k, piv, sigma, irow, icol);
    }
    ghost var s1 := Square(src[..], k);
    assert irow == icol ==> Swapped(sigma, irow, icol) == sigma;
    assert Represents(a, s1, k, piv, Swapped(sigma, irow, icol)) && s1[icol][icol] != 0;
    PivotRepresents(a, s1, k, piv, Swapped(sigma, irow, icol), icol);
    PivotDiagonal(t, src, k, idRow, icol);
    assert ipiv[..] == piv[icol := 1];
  }

  // ----- Counting the pivots

  ghost function Used(p: seq<int>): nat {
    if p == [] then 0 else (if p[|p| - 1] == 1 then 1 else 0) + Used(p[..|p| - 1])
  }

  lemma {:induction false} UsedNone(p: seq<int>)
    requires forall i :: 0 <= i < |p| ==> p[i] == 0
    ensures Used(p) == 0
  {
    if p != [] { UsedNone(p[..|p| - 1]); }
  }

  lemma {:induction false} UsedOneMore(p: seq<int>, c: nat)
    requires c < |p| && p[c] == 0
    ensures Used(p[c := 1]) == Used(p) + 1
  {
    var n := |p| - 1;
    if c == n {
      assert p[c := 1][..n] == p[..n];
    } else {
      UsedOneMore(p[..n], c);
      assert p[c := 1][..n] == p[..n][c := 1];
    }
  }

  lemma {:induction false} UsedBound(p: seq<int>)
    requires Marks(p)
    ensures Used(p) <= |p|
    ensures Used(p) < |p| ==> exists i :: 0 <= i < |p| && p[i] == 0
    ensures Used(p) == |p| ==> forall i :: 0 <= i < |p| ==> p[i] == 1
  {
    if p != [] {
      var n := |p| - 1;
      UsedBound(p[..n]);
      if Used(p) < |p| {
        if p[n] == 1 {
          var i :| 0 <= i < n && p[..n][i] == 0;
          assert p[i] == 0;
        }
      }
    }
  }

  // ----- The history of row swaps

  ghost predicate History(sigmas: seq<seq<nat>>, k: nat, n: nat, ir: seq<int>, ic: seq<int>) {
    && |sigmas| == n + 1 && n <= |ir| && n <= |ic|
    && (forall m :: 0 <= m <= n ==> |sigmas[m]| == k)
    && sigmas[0] == Iota(k)
    && (forall m :: 0 <= m < n ==>
          0 <= ir[m] < k && 0 <= ic[m] < k && sigmas[m + 1] == Swapped(sigmas[m], ir[m], ic[m]))
  }

  lemma StuckAnywhere(a: Matrix, s: Matrix, k: nat, piv: seq<int>, sigma: seq<nat>)
    requires Represents(a, s, k, piv, sigma) && Used(piv) < k && NoPivot(s, k, piv, k)
    ensures !Nonsingular(a, k)
  {
    UsedBound(piv);
    var c :| 0 <= c < k && piv[c] == 0;
    StuckIsSingular(a, s, k, piv, sigma, c);
  }

  lemma AllUsedSolves(a: Matrix, s: Matrix, k: nat, piv: seq<int>, sigma: seq<nat>)
    requires Represents(a, s, k, piv, sigma) && Used(piv) == k
    ensures Solves(a, s, k, sigma)
  {
    UsedBound(piv);
    assert piv == seq(k, i => 1);
  }

  /** The first `done` rows of b have had columns i and j exchanged. */
  ghost predicate ColumnsSwapped(m: Matrix, b: Matrix, k: nat, i: nat, j: nat, done: nat) {
    && IsMatrix(m, k, k) && IsMatrix(b, k, k) && i < k && j < k && done <= k
    && (forall r :: 0 <= r < done ==> m[r] == Swapped(b[r], i, j))
    && (forall r :: done <= r < k ==> m[r] == b[r])
  }

  /** Swap two columns in every row. */
  method SwapColumnsFlat(src: array<gf>, k: nat, i: nat, j: nat)
    requires src.Length == k * k && i < k && j < k
    modifies src
    ensures Square(src[..], k) == SwapColumns(old(Square(src[..], k)), k, i, j)
  {
    ghost var b := Square(src[..], k);
    for row := 0 to k
      invariant ColumnsSwapped(Square(src[..], k), b, k, i, j, row)
    {
      hide Unflatten;
      ghost var s := src[..];
      Entry(s, k, row, i); Entry(s, k, row, j);
      var p := row * k;
      src[p + i], src[p + j] := src[p + j], src[p + i];
      assert src[p..p + k] == Swapped(s[p..p + k], i, j);
      SwappedStep(s, src[..], b, k, i, j, row, p);
    }
    assert Square(src[..], k) == SwapColumns(b, k, i, j);
  }

  lemma SwappedStep(s: seq<gf>, t: seq<gf>, b: Matrix, k: nat, i: nat, j: nat, row: nat, p: nat)
    requires |s| == k * k == |t| && row < k && p == row * k && p + k <= |s|
    requires ColumnsSwapped(Square(s, k), b, k, i, j, row)
    requires SameOutside(s, t, p, p + k)
    requires t[p..p + k] == Swapped(b[row], i, j)
    ensures ColumnsSwapped(Square(t, k), b, k, i, j, row + 1)
  {
    hide Unflatten, Swapped;
    RowUpdated(s, t, k, k, row);
  }

  /** Undo the row swaps, last one first, on the columns of the result. */
  method Unscramble(src: array<gf>, k: nat, indxr: array<int>, indxc: array<int>,
                    ghost a: Matrix, ghost sigmas: seq<seq<nat>>)
    requires src.Length == k * k && indxr.Length == k && indxc.Length == k
    requires History(sigmas, k, k, indxr[..], indxc[..])
    requires Solves(a, Square(src[..], k), k, sigmas[k])
    modifies src
    ensures Solves(a, Square(src[..], k), k, Iota(k))
  {
    hide Solves, Square, Swapped;
    for col := k downto 0
      invariant Solves(a, Square(src[..], k), k, sigmas[col])
    {
      var ir, ic := indxr[col], indxc[col];
      // The branches for a row or column that does not exist are never taken.
      assert 0 <= ir < k && 0 <= ic < k;
      UnswapColumns(a, Square(src[..], k), k, sigmas[col], ir, ic);
      if ir != ic {
        SwapColumnsFlat(src, k, ir, ic);
      } else {
        SwapColumnsSame(Square(src[..], k), k, ir);
      }
    }
  }

  lemma SwapColumnsSame(s: Matrix, k: nat, i: nat)
    requires IsMatrix(s, k, k) && i < k
    ensures SwapColumns(s, k, i, i) == s
  {
    forall r | 0 <= r < k ensures Swapped(s[r], i, i) == s[r] { }
  }

  lemma HistoryStep(sigmas: seq<seq<nat>>, k: nat, n: nat, ir: seq<int>, ic: seq<int>, i: nat, j: nat)
    requires History(sigmas, k, n, ir, ic) && n < |ir| && n < |ic| && i < k && j < k
    ensures History(sigmas + [Swapped(sigmas[n], i, j)], k, n + 1, ir[n := i], ic[n := j])
  {
  }

  /** The k rounds; false if in some round there is no pivot. */
  method Eliminate(t: Tables, src: array<gf>, k: nat, ipiv: array<int>, idRow: array<gf>,
                   indxr: array<int>, indxc: array<int>)
    returns (ok: bool, ghost sigmas: seq<seq<nat>>)
    requires t.Ready() && t.Apart(src) && t.Apart(idRow) && src != idRow
    requires ipiv != t.gfLog && indxr != t.gfLog && indxc != t.gfLog
    requires ipiv != indxr && ipiv != indxc && indxr != indxc
    requires src.Length == k * k && ipiv.Length == idRow.Length == indxr.Length == indxc.Length == k
    requires idRow[..] == Zeros(k) && forall i :: 0 <= i < k ==> ipiv[i] == 0
    modifies src, ipiv, idRow, indxr, indxc
    ensures t.Ready()
    ensures ok ==> History(sigmas, k, k, indxr[..], indxc[..])
    ensures ok ==> Solves(old(Square(src[..], k)), Square(src[..], k), k, sigmas[k])
    ensures !ok ==> !Nonsingular(old(Square(src[..], k)), k)
  {
    hide Exp, Mul, Square, Represents, Nonsingular, Solves, History, Swapped;
    ghost var a := Square(src[..], k);
    UsedNone(ipiv[..]);
    StartRepresents(a, k, ipiv[..]);
    sigmas := [Iota(k)];
    NoHistory(k, indxr[..], indxc[..]);
    for col := 0 to k
      invariant t.Ready() && idRow[..] == Zeros(k) && Marks(ipiv[..]) && Used(ipiv[..]) == col
      invariant |sigmas| == col + 1 && |sigmas[col]| == k && History(sigmas, k, col, indxr[..], indxc[..])
      invariant Represents(a, Square(src[..], k), k, ipiv[..], sigmas[col])
    {
      var found, irow, icol := FindPivot(src, k, ipiv, col);
      if !found {
        StuckAnywhere(a, Square(src[..], k), k, ipiv[..], sigmas[col]);
        return false, sigmas;
      }
      UsedOneMore(ipiv[..], icol);
      HistoryStep(sigmas, k, col, indxr[..], indxc[..], irow, icol);
      PivotRound(t, src, k, ipiv, idRow, irow, icol, a, sigmas[col]);
      ghost var ir, ic := indxr[..], indxc[..];
      indxr[col] := irow;
      indxc[col] := icol;
      assert indxr[..] == ir[col := irow] && indxc[..] == ic[col := icol];
      sigmas := sigmas + [Swapped(sigmas[col], irow, icol)];
    }
    AllUsedSolves(a, Square(src[..], k), k, ipiv[..], sigmas[k]);
    return true, sigmas;
  }

  lemma NoHistory(k: nat, ir: seq<int>, ic: seq<int>)
    ensures History([Iota(k)], k, 0, ir, ic)
  {
  }

  /** Invert src in place; 1 if it is singular, otherwise 0. */
  method InvertMat(t: Tables, src: array<gf>, k: nat) returns (error: int)
    requires t.Ready() && t.Apart(src) && src.Length == k * k
    modifies src
    ensures t.Ready()
    ensures error == 0 || error == 1
    ensures error == 0 <==> Nonsingular(old(Square(src[..], k)), k)
    ensures error == 0 ==> IsInverse(Square(src[..], k), old(Square(src[..], k)), k)
  {
    hide Exp, Mul, Square, Nonsingular, IsInverse, Solves;
    ghost var a := Square(src[..], k);
    var indxc := new int[k];
    var indxr := new int[k];
    var ipiv := new int[k](i => 0);
    var idRow := new gf[k](i => 0);
    assert idRow[..] == Zeros(k);
    var ok, sigmas := Eliminate(t, src, k, ipiv, idRow, indxr, indxc);
    if !ok {
      return 1;
    }
    Unscramble(src, k, indxr, indxc, a, sigmas);
    SolvedIsInverse(a, Square(src[..], k), k);
    return 0;
  }
}
