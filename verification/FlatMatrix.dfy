/** Row-major matrices in flat buffers, as fec.c stores them, and the two inner
    loops that work on them: the unrolled addmul1 and matmul. */
module FlatMatrix {
  import opened GaloisField
  import opened FieldLaws
  import opened GaloisTables
  import opened LinearAlgebra

  ghost function Row(s: seq<gf>, k: nat, r: nat): (v: Vector)
    requires r * k + k <= |s|
    ensures |v| == k
  {
    s[r * k..r * k + k]
  }

  lemma {:induction false} RowFits(k: nat, n: nat, r: nat)
    requires r < n
    ensures 0 <= r * k && r * k + k <= n * k
  {
    assert n * k == (n - 1) * k + k;
    if r < n - 1 { RowFits(k, n - 1, r); }
  }

  lemma RowsApart(k: nat, r: nat, q: nat)
    requires r != q
    ensures r * k + k <= q * k || q * k + k <= r * k
  {
    if r < q { RowFits(k, q, r); } else { RowFits(k, r, q); }
  }

  ghost function Unflatten(s: seq<gf>, n: nat, k: nat): (m: Matrix)
    requires n * k <= |s|
    ensures IsMatrix(m, n, k)
  {
    seq(n, r requires 0 <= r < n => (RowFits(k, n, r); Row(s, k, r)))
  }

  lemma UnflattenRow(s: seq<gf>, n: nat, k: nat, r: nat)
    requires n * k <= |s| && r < n
    ensures r * k + k <= |s|
    ensures Unflatten(s, n, k)[r] == Row(s, k, r)
  {
    RowFits(k, n, r);
  }

  /** Two buffers that differ at most in row c. */
  ghost predicate SameOutside(s: seq<gf>, t: seq<gf>, lo: nat, hi: nat) {
    |s| == |t| && forall i :: 0 <= i < |s| && !(lo <= i < hi) ==> s[i] == t[i]
  }

  lemma RowUpdated(s: seq<gf>, t: seq<gf>, n: nat, k: nat, c: nat)
    requires n * k <= |s| && c < n
    requires SameOutside(s, t, c * k, c * k + k)
    ensures c * k + k <= |t|
    ensures Unflatten(t, n, k) == Unflatten(s, n, k)[c := Row(t, k, c)]
  {
    RowFits(k, n, c);
    var a, b := Unflatten(s, n, k), Unflatten(t, n, k);
    forall r | 0 <= r < n ensures b[r] == a[c := Row(t, k, c)][r] {
      UnflattenRow(s, n, k, r);
      UnflattenRow(t, n, k, r);
      if r != c {
        RowsApart(k, r, c);
        assert Row(s, k, r) == Row(t, k, r);
      }
    }
  }

  // ----- addmul1

  /** The first n of sz elements have had c times their source added. */
  ghost predicate Progress(dst: array<gf>, d: nat, src: array<gf>, s: nat, c: gf, sz: nat, n: nat,
                           dst0: seq<gf>, src0: seq<gf>)
    reads dst, src
  {
    && n <= sz && d + sz <= dst.Length && s + sz <= src.Length
    && |dst0| == dst.Length && |src0| == sz
    && (forall i :: d <= i < d + n ==> dst[i] == Add(dst0[i], Mul(c, src0[i - d])))
    && (forall i :: 0 <= i < dst.Length && !(d <= i < d + n) ==> dst[i] == dst0[i])
    && (forall i :: s <= i < s + sz ==> src[i] == src0[i - s])
  }

  /** GF_ADDMULC(dst[d + n], src[s + n]). */
  method AddMulC(t: Tables, dst: array<gf>, d: nat, src: array<gf>, s: nat, c: gf, ghost sz: nat, n: nat,
                 ghost dst0: seq<gf>, ghost src0: seq<gf>)
    requires t.Ready() && t.Apart(dst)
    requires n < sz && Progress(dst, d, src, s, c, sz, n, dst0, src0)
    requires dst != src || d + sz <= s || s + sz <= d
    modifies dst
    ensures t.Ready()
    ensures Progress(dst, d, src, s, c, sz, n + 1, dst0, src0)
  {
    dst[d + n] := Add(dst[d + n], t.mulTable[c, src[s + n]]);
  }

  method AddMul1(t: Tables, dst: array<gf>, d: nat, src: array<gf>, s: nat, c: gf, sz: nat)
    requires t.Ready() && t.Apart(dst)
    requires d + sz <= dst.Length && s + sz <= src.Length
    requires dst != src || d + sz <= s || s + sz <= d
    modifies dst
    ensures t.Ready()
    ensures dst[d..d + sz] == Sum(old(dst[d..d + sz]), Scaled(c, old(src[s..s + sz])))
    ensures SameOutside(old(dst[..]), dst[..], d, d + sz)
  {
    ghost var dst0, src0 := dst[..], src[s..s + sz];
    var n := 0;
    var lim := sz - 16 + 1;
    while n < lim
      invariant 0 <= n <= sz
      invariant t.Ready() && Progress(dst, d, src, s, c, sz, n, dst0, src0)
    {
      AddMulC(t, dst, d, src, s, c, sz, n, dst0, src0);
      AddMulC(t, dst, d, src, s, c, sz, n + 1, dst0, src0);
      AddMulC(t, dst, d, src, s, c, sz, n + 2, dst0, src0);
      AddMulC(t, dst, d, src, s, c, sz, n + 3, dst0, src0);
      AddMulC(t, dst, d, src, s, c, sz, n + 4, dst0, src0);
      AddMulC(t, dst, d, src, s, c, sz, n + 5, dst0, src0);
      AddMulC(t, dst, d, src, s, c, sz, n + 6, dst0, src0);
      AddMulC(t, dst, d, src, s, c, sz, n + 7, dst0, src0);
      AddMulC(t, dst, d, src, s, c, sz, n + 8, dst0, src0);
      AddMulC(t, dst, d, src, s, c, sz, n + 9, dst0, src0);
      AddMulC(t, dst, d, src, s, c, sz, n + 10, dst0, src0);
      AddMulC(t, dst, d, src, s, c, sz, n + 11, dst0, src0);
      AddMulC(t, dst, d, src, s, c, sz, n + 12, dst0, src0);
      AddMulC(t, dst, d, src, s, c, sz, n + 13, dst0, src0);
      AddMulC(t, dst, d, src, s, c, sz, n + 14, dst0, src0);
      AddMulC(t, dst, d, src, s, c, sz, n + 15, dst0, src0);
      n := n + 16;
    }
    lim := lim + 16 - 1;
    while n < lim
      invariant 0 <= n <= sz
      invariant t.Ready() && Progress(dst, d, src, s, c, sz, n, dst0, src0)
    {
      AddMulC(t, dst, d, src, s, c, sz, n, dst0, src0);
      n := n + 1;
    }
    ProgressDone(dst, d, src, s, c, sz, dst0, src0);
  }

  lemma ProgressDone(dst: array<gf>, d: nat, src: array<gf>, s: nat, c: gf, sz: nat, dst0: seq<gf>, src0: seq<gf>)
    requires Progress(dst, d, src, s, c, sz, sz, dst0, src0)
    ensures dst[d..d + sz] == Sum(dst0[d..d + sz], Scaled(c, src0))
    ensures SameOutside(dst0, dst[..], d, d + sz)
  {
  }

  /** addmul skips the loop for c == 0, which would add nothing. */
  method AddMul(t: Tables, dst: array<gf>, d: nat, src: array<gf>, s: nat, c: gf, sz: nat)
    requires t.Ready() && t.Apart(dst)
    requires d + sz <= dst.Length && s + sz <= src.Length
    requires dst != src || d + sz <= s || s + sz <= d
    modifies dst
    ensures t.Ready()
    ensures dst[d..d + sz] == Sum(old(dst[d..d + sz]), Scaled(c, old(src[s..s + sz])))
    ensures SameOutside(old(dst[..]), dst[..], d, d + sz)
  {
    if c != 0 {
      AddMul1(t, dst, d, src, s, c, sz);
    } else {
      AddNothing(dst[d..d + sz], src[s..s + sz]);
    }
  }

  lemma AddNothing(a: Vector, b: Vector)
    requires |a| == |b|
    ensures Sum(a, Scaled(0, b)) == a
  {
    forall i | 0 <= i < |a| ensures Add(a[i], Mul(0, b[i])) == a[i] {
      MulZero(b[i]);
      AddZero(a[i]);
    }
  }

  // ----- matmul

  lemma RowOfPart(s: seq<gf>, off: nat, n: nat, k: nat, r: nat)
    requires off + n * k <= |s| && r < n
    ensures off + r * k + k <= |s| && r * k + k <= n * k
    ensures Unflatten(s[off..off + n * k], n, k)[r] == s[off + r * k..off + r * k + k]
  {
    RowFits(k, n, r);
    UnflattenRow(s[off..off + n * k], n, k, r);
  }

  lemma ColumnEntry(s: seq<gf>, k: nat, m: nat, i: nat, j: nat)
    requires k * m <= |s| && i < k && j < m
    ensures i * m + j < |s|
    ensures Column(Unflatten(s, k, m), m, j)[i] == s[i * m + j]
  {
    UnflattenRow(s, k, m, i);
  }

  /** The inner loop: one row of A times one column of B. */
  method DotColumn(t: Tables, a: array<gf>, ao: nat, b: array<gf>, k: nat, m: nat, col: nat) returns (acc: gf)
    requires t.Ready()
    requires ao + k <= a.Length && k * m <= b.Length && col < m
    ensures acc == Dot(a[ao..ao + k], Column(Unflatten(b[..], k, m), m, col))
  {
    hide Mul, Exp, Unflatten;
    ghost var av, x := a[ao..ao + k], Column(Unflatten(b[..], k, m), m, col);
    acc := 0;
    var pb := col;
    for i := 0 to k
      invariant pb == i * m + col
      invariant acc == DotTo(av, x, i)
    {
      ColumnEntry(b[..], k, m, i, col);
      acc := Add(acc, t.mulTable[a[ao + i], b[pb]]);
      NextRow(i, m);
      pb := pb + m;
    }
  }

  lemma NextRow(i: nat, m: nat)
    ensures (i + 1) * m == i * m + m
  {
  }

  /** One row of C = A B. */
  method MatMulRow(t: Tables, a: array<gf>, ao: nat, b: array<gf>, c: array<gf>, co: nat, k: nat, m: nat)
    requires t.Ready() && t.Apart(c) && c != a && c != b
    requires ao + k <= a.Length && k * m <= b.Length && co + m <= c.Length
    modifies c
    ensures t.Ready()
    ensures c[co..co + m] == RowTimes(a[ao..ao + k], Unflatten(b[..], k, m), m)
    ensures SameOutside(old(c[..]), c[..], co, co + m)
  {
    hide Mul, Exp, Unflatten, Dot;
    ghost var bs := b[..];
    ghost var av, bm := a[ao..ao + k], Unflatten(bs, k, m);
    for col := 0 to m
      invariant t.Ready() && b[..] == bs
      invariant forall j :: 0 <= j < col ==> c[co + j] == Dot(av, Column(bm, m, j))
      invariant SameOutside(old(c[..]), c[..], co, co + m)
    {
      var acc := DotColumn(t, a, ao, b, k, m, col);
      c[co + col] := acc;
    }
  }

  ghost predicate RowsDone(s: seq<gf>, off: nat, n: nat, m: nat, p: Matrix, row: nat) {
    && IsMatrix(p, n, m) && row <= n && off + n * m <= |s|
    && Unflatten(s[off..off + n * m], n, m)[..row] == p[..row]
  }

  lemma NextRowDone(s: seq<gf>, t: seq<gf>, off: nat, n: nat, m: nat, p: Matrix, row: nat)
    requires RowsDone(s, off, n, m, p, row) && row < n
    requires SameOutside(s, t, off + row * m, off + row * m + m)
    requires off + row * m + m <= |t|
    requires t[off + row * m..off + row * m + m] == p[row]
    ensures RowsDone(t, off, n, m, p, row + 1)
    ensures SameOutside(s, t, off, off + n * m)
  {
    RowUpdated(s[off..off + n * m], t[off..off + n * m], n, m, row);
    RowOfPart(t, off, n, m, row);
    var a, b := Unflatten(s[off..off + n * m], n, m), Unflatten(t[off..off + n * m], n, m);
    forall r | 0 <= r < row + 1 ensures b[r] == p[r] {
      if r < row { assert a[..row][r] == p[..row][r]; }
    }
  }

  /** C = A B, where A is n by k at offset ao, B is k by m and C is n by m at offset co. */
  method MatMulFlat(t: Tables, a: array<gf>, ao: nat, b: array<gf>, c: array<gf>, co: nat, n: nat, k: nat, m: nat)
    requires t.Ready() && t.Apart(c) && c != a && c != b
    requires ao + n * k <= a.Length && k * m <= b.Length && co + n * m <= c.Length
    modifies c
    ensures t.Ready()
    ensures Unflatten(c[co..co + n * m], n, m)
         == MatMul(Unflatten(a[ao..ao + n * k], n, k), Unflatten(b[..], k, m), m)
    ensures SameOutside(old(c[..]), c[..], co, co + n * m)
  {
    hide Mul, Exp, Unflatten, Dot, MatMul;
    ghost var bs, am := b[..], Unflatten(a[ao..ao + n * k], n, k);
    ghost var p := MatMul(am, Unflatten(bs, k, m), m);
    for row := 0 to n
      invariant t.Ready() && b[..] == bs
      invariant RowsDone(c[..], co, n, m, p, row)
      invariant SameOutside(old(c[..]), c[..], co, co + n * m)
    {
      hide RowsDone;
      ghost var before := c[..];
      RowOfPart(a[..], ao, n, k, row);
      RowFits(k, n, row); RowFits(m, n, row);
      var pa, pc := ao + row * k, co + row * m;
      assert am[row] == a[pa..pa + k];
      MatMulRow(t, a, pa, b, c, pc, k, m);
      assert c[pc..pc + m] == p[row];
      NextRowDone(before, c[..], co, n, m, p, row);
    }
  }
}
