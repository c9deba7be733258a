/** fec_new, fec_encode and fec_decode. */
module ErasureCode {
  import opened GaloisField
  import opened AlphaOrder
  import opened FieldLaws
  import opened GaloisTables
  import opened LinearAlgebra
  import opened FlatMatrix
  import opened GaussJordan
  import opened Polynomials
  import opened Vandermonde
  import opened VandermondeInverse
  import opened Systematic
  import opened Sequences

  // ----- fec_new

  lemma {:induction false} PowersOfZero(j: nat)
    ensures Pow(0, j) == if j == 0 then 1 else 0
  {
    if j > 0 { MulZero(Pow(0, j - 1)); }
  }

  lemma VandermondeEntry(row: nat, col: nat)
    ensures Exp(row * col % 255) == Pow(Exp(row), col)
  {
    hide Exp, Pow;
    ExpMod(row * col);
    PowExp(row, col);
  }

  /** The first `done` rows of the matrix in s are those of the Vandermonde matrix. */
  ghost predicate VanRows(s: seq<gf>, n: nat, k: nat, done: nat) {
    && n * k <= |s| && done <= n
    && forall r :: 0 <= r < done ==> Unflatten(s, n, k)[r] == Powers(Points(n)[r], k)
  }

  lemma VanRowsStep(s: seq<gf>, t: seq<gf>, n: nat, k: nat, r: nat, p: nat)
    requires VanRows(s, n, k, r) && r < n && p == r * k && p + k <= |t|
    requires SameOutside(s, t, p, p + k)
    requires t[p..p + k] == Powers(Points(n)[r], k)
    ensures VanRows(t, n, k, r + 1)
  {
    hide Unflatten, Powers, Points;
    RowUpdated(s, t, n, k, r);
  }

  /** Row `row` + 1: the powers of alpha ^ row. */
  method PowerRow(t: Tables, m: array<gf>, p: nat, k: nat, row: nat)
    requires t.Ready() && t.Apart(m) && p + k <= m.Length
    modifies m
    ensures t.Ready()
    ensures m[p..p + k] == Powers(Exp(row), k)
    ensures SameOutside(old(m[..]), m[..], p, p + k)
  {
    hide Exp, Pow;
    for col := 0 to k
      invariant t.Ready()
      invariant forall j :: p <= j < p + col ==> m[j] == Pow(Exp(row), j - p)
      invariant SameOutside(old(m[..]), m[..], p, p + k)
    {
      ProductNonneg(row, col);
      var e := Modnn(row * col);
      VandermondeEntry(row, col);
      m[p + col] := t.gfExp[e];
    }
  }

  lemma ProductNonneg(a: nat, b: nat)
    ensures a * b >= 0
  {
  }

  method FirstRow(m: array<gf>, k: nat)
    requires 1 <= k <= m.Length
    modifies m
    ensures m[0..k] == Powers(0, k)
    ensures SameOutside(old(m[..]), m[..], 0, k)
  {
    m[0] := 1;
    for col := 1 to k
      invariant m[0] == 1 && forall j :: 1 <= j < col ==> m[j] == 0
      invariant SameOutside(old(m[..]), m[..], 0, k)
    {
      m[col] := 0;
    }
    forall j | 0 <= j < k ensures m[0..k][j] == Powers(0, k)[j] { PowersOfZero(j); }
  }

  /** The n by k Vandermonde matrix on 0 and the powers of alpha. */
  method FillVandermonde(t: Tables, m: array<gf>, k: nat, n: nat)
    requires t.Ready() && t.Apart(m) && 1 <= k && 1 <= n && m.Length == n * k
    modifies m
    ensures t.Ready()
    ensures Unflatten(m[..], n, k) == VanMatrix(Points(n), k)
  {
    hide Exp, Powers, Unflatten;
    RowFits(k, n, 0);
    ghost var s := m[..];
    FirstRow(m, k);
    VanRowsStep(s, m[..], n, k, 0, 0);
    for row := 0 to n - 1
      invariant t.Ready() && VanRows(m[..], n, k, row + 1)
    {
      s := m[..];
      RowFits(k, n, row + 1);
      var p := (row + 1) * k;
      PowerRow(t, m, p, k, row);
      VanRowsStep(s, m[..], n, k, row + 1, p);
    }
    assert Unflatten(m[..], n, k) == VanMatrix(Points(n), k);
  }

  lemma TopRows(s: seq<gf>, n: nat, k: nat, q: nat, r: nat)
    requires n * k <= |s| && r < q <= n
    ensures q * k <= |s|
    ensures Unflatten(s, q, k)[r] == Unflatten(s, n, k)[r]
  {
    if q < n { RowFits(k, n, q); }
    UnflattenRow(s, n, k, r);
    UnflattenRow(s, q, k, r);
  }

  lemma BottomRows(s: seq<gf>, n: nat, k: nat, q: nat, r: nat)
    requires n * k <= |s| && q <= n && r < n - q
    ensures q * k + (n - q) * k == n * k
    ensures Unflatten(s[q * k..q * k + (n - q) * k], n - q, k)[r] == Unflatten(s, n, k)[q + r]
  {
    Distribute(n, k, q);
    Distribute(q + r, k, q);
    RowOfPart(s, q * k, n - q, k, r);
    UnflattenRow(s, n, k, q + r);
  }

  lemma Distribute(n: nat, k: nat, q: nat)
    requires q <= n
    ensures 0 <= q * k && 0 <= (n - q) * k && q * k + (n - q) * k == n * k
  {
  }

  class FecParms {
    const k: nat
    const n: nat
    const encMatrix: array<gf>

    constructor (k: nat, n: nat, m: array<gf>)
      ensures this.k == k && this.n == n && this.encMatrix == m
    {
      this.k := k;
      this.n := n;
      this.encMatrix := m;
    }

    ghost function Encoding(): (e: Matrix)
      requires encMatrix.Length == n * k
      reads encMatrix
      ensures IsMatrix(e, n, k)
    {
      Unflatten(encMatrix[..], n, k)
    }

    ghost predicate Valid()
      reads encMatrix
    {
      && 1 <= k <= n <= 256
      && encMatrix.Length == n * k
      && IsEncoding(Encoding(), k, n)
    }
  }

  /** The identity in the first k rows. */
  method TopIdentity(enc: array<gf>, k: nat, n: nat)
    requires 1 <= k <= n && enc.Length == n * k
    modifies enc
    ensures forall r :: 0 <= r < k ==> Unflatten(enc[..], n, k)[r] == Unit(k, r)
    ensures k * k <= enc.Length
    ensures enc[k * k..] == old(enc[k * k..])
  {
    hide Unflatten;
    Distribute(n, k, k);
    var size := k * k;
    for i := 0 to size
      invariant forall j :: 0 <= j < i ==> enc[j] == 0
      invariant enc[size..] == old(enc[size..])
    {
      enc[i] := 0;
    }
    ZeroRows(enc[..], n, k);
    var p := 0;
    for col := 0 to k
      invariant p == col * (k + 1)
      invariant IdentityRows(enc[..], n, k, col)
      invariant enc[size..] == old(enc[size..])
    {
      ghost var s := enc[..];
      RowFits(k, k, col);
      DiagonalIndex(k, col);
      enc[p] := 1;
      IdentityStep(s, enc[..], n, k, col, p - col);
      p := p + k + 1;
      DiagonalIndex(k, col + 1);
    }
  }

  /** Rows below `done` are unit rows, the rest of the first k rows is zero. */
  ghost predicate IdentityRows(s: seq<gf>, n: nat, k: nat, done: nat) {
    && k <= n && n * k <= |s| && done <= k
    && (forall r :: 0 <= r < done ==> Unflatten(s, n, k)[r] == Unit(k, r))
    && (forall r :: done <= r < k ==> Unflatten(s, n, k)[r] == Zeros(k))
  }

  lemma ZeroRows(s: seq<gf>, n: nat, k: nat)
    requires k <= n && k * k <= n * k <= |s|
    requires forall j :: 0 <= j < k * k ==> s[j] == 0
    ensures IdentityRows(s, n, k, 0)
  {
    forall r | 0 <= r < k ensures Unflatten(s, n, k)[r] == Zeros(k) {
      UnflattenRow(s, n, k, r);
      RowFits(k, k, r);
    }
  }

  lemma DiagonalIndex(k: nat, col: nat)
    ensures col * (k + 1) == col * k + col
    ensures 0 <= col * k
  {
  }

  lemma IdentityStep(s: seq<gf>, t: seq<gf>, n: nat, k: nat, col: nat, p: nat)
    requires IdentityRows(s, n, k, col) && col < k && p == col * k && p + k <= |s|
    requires t == s[p + col := 1]
    ensures IdentityRows(t, n, k, col + 1)
  {
    UnflattenRow(s, n, k, col);
    hide Unflatten;
    RowUpdated(s, t, n, k, col);
    assert t[p..p + k] == Unit(k, col);
  }

  /** Fill enc with the encoding matrix, using tmp for the Vandermonde matrix. */
  method BuildEncoding(t: Tables, enc: array<gf>, tmp: array<gf>, k: nat, n: nat)
    requires t.Ready() && t.Apart(enc) && t.Apart(tmp) && enc != tmp && 1 <= k <= n <= 256
    requires enc.Length == n * k && tmp.Length == n * k
    modifies enc, tmp
    ensures t.Ready() && IsEncoding(Unflatten(enc[..], n, k), k, n)
  {
    hide Exp, Unflatten, VanMatrix, IsInverse, MatMul, Points, IsEncoding, DropsNothing, Distinct;
    Distribute(n, k, k);
    FillVandermonde(t, tmp, k, n);
    ghost var v := tmp[..];
    TopIsVandermonde(v, k, n);
    InvertVdm(t, tmp, k, Points(k));
    var size, rest := k * k, (n - k) * k;
    assert tmp[..][size..] == v[size..];
    MatMulFlat(t, tmp, size, tmp, enc, size, n - k, k, k);
    ghost var bottom := enc[size..size + rest];
    TopIdentity(enc, k, n);
    assert enc[..][size..size + rest] == bottom;
    assert tmp[..][size..size + rest] == tmp[size..size + rest];
    RowsAreEncoding(v, tmp[..], enc[..], Unflatten(tmp[..], k, k), k, n);
  }

  /** The encoder for k source packets and n packets in all; null if there are not enough points. */
  method FecNew(t: Tables, k: nat, n: nat) returns (code: FecParms?)
    requires t.Ready() && 1 <= k
    ensures t.Ready()
    ensures code == null <==> k > 256 || n > 256 || k > n
    ensures code != null ==> code.k == k && code.n == n && code.Valid()
    ensures code != null ==> fresh(code) && fresh(code.encMatrix)
  {
    hide IsEncoding, Unflatten;
    if k > GF_SIZE + 1 || n > GF_SIZE + 1 || k > n {
      return null;
    }
    ProductNonneg(n, k);
    var enc := new gf[n * k];
    var tmp := new gf[n * k];
    BuildEncoding(t, enc, tmp, k, n);
    code := new FecParms(k, n, enc);
  }

  lemma TopIsVandermonde(v: seq<gf>, k: nat, n: nat)
    requires 1 <= k <= n <= 256 && |v| == n * k
    requires Unflatten(v, n, k) == VanMatrix(Points(n), k)
    ensures k * k <= |v|
    ensures Unflatten(v, k, k) == VanMatrix(Points(k), k)
    ensures Distinct(Points(k)) && DropsNothing(Points(k))
  {
    hide Unflatten;
    Distribute(n, k, k);
    PointsDistinct(k);
    PointsPrefix(k, n);
    forall r | 0 <= r < k ensures Unflatten(v, k, k)[r] == VanMatrix(Points(k), k)[r] {
      TopRows(v, n, k, k, r);
      assert Points(n)[r] == Points(k)[r];
    }
  }

  lemma RowsAreEncoding(v: seq<gf>, tmp: seq<gf>, enc: seq<gf>, w: Matrix, k: nat, n: nat)
    requires 1 <= k <= n <= 256 && |v| == |tmp| == |enc| == n * k
    requires k * k + (n - k) * k == n * k && 0 <= (n - k) * k
    requires Unflatten(v, n, k) == VanMatrix(Points(n), k)
    requires IsMatrix(w, k, k) && tmp[k * k..] == v[k * k..] && IsInverse(w, VanMatrix(Points(k), k), k)
    requires forall r :: 0 <= r < k ==> Unflatten(enc, n, k)[r] == Unit(k, r)
    requires Unflatten(enc[k * k..k * k + (n - k) * k], n - k, k)
          == MatMul(Unflatten(tmp[k * k..k * k + (n - k) * k], n - k, k), w, k)
    ensures IsEncoding(Unflatten(enc, n, k), k, n)
  {
    hide Unflatten, MatMul, IsInverse;
    var e := Unflatten(enc, n, k);
    forall i | 0 <= i < n ensures e[i] == RowTimes(Powers(Points(n)[i], k), w, k) {
      if i < k {
        TopRowTimes(w, k, n, i);
      } else {
        BottomRows(v, n, k, k, i - k);
        BottomRows(enc, n, k, k, i - k);
        assert tmp[k * k..k * k + (n - k) * k] == v[k * k..k * k + (n - k) * k];
      }
    }
    assert EncodesWith(e, w, k, n);
  }

  lemma TopRowTimes(w: Matrix, k: nat, n: nat, i: nat)
    requires 1 <= k <= n <= 256 && IsInverse(w, VanMatrix(Points(k), k), k) && i < k
    ensures RowTimes(Powers(Points(n)[i], k), w, k) == Unit(k, i)
  {
    PointsPrefix(k, n);
    assert Points(n)[i] == Points(k)[i];
    assert MatMul(VanMatrix(Points(k), k), w, k)[i] == Unit(k, i);
  }
}
