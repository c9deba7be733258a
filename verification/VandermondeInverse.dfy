/** invert_vdm: the fast inverse of a Vandermonde matrix. */
module VandermondeInverse {
  import opened GaloisField
  import opened FieldLaws
  import opened GaloisTables
  import opened LinearAlgebra
  import opened FlatMatrix
  import opened GaussJordan
  import opened Polynomials
  import opened Vandermonde
  import opened Sequences

  /** c, with the implicit leading 1, holds the polynomial r in its upper end; below it is zero. */
  ghost predicate HoldsTop(c: seq<gf>, r: Poly) {
    && 2 <= |r| <= |c| + 1 && r[|r| - 1] == 1
    && (forall j :: |c| - |r| + 1 <= j < |c| ==> c[j] == r[j - (|c| - |r| + 1)])
    && (forall j :: 0 <= j < |c| - |r| + 1 ==> c[j] == 0)
  }

  /** Multiply the polynomial in c by x - q, without its new constant term. */
  method NextFactor(t: Tables, c: array<gf>, k: nat, i: nat, q: gf, ghost r: Poly)
    requires t.Ready() && t.Apart(c) && c.Length == k && 1 <= i < k
    requires |r| == i + 1 && HoldsTop(c[..], r)
    modifies c
    ensures t.Ready()
    ensures HoldsTop(c[..], TimesRoot(r, q)[0 := 0])
  {
    hide Exp, Mul;
    ghost var s := c[..];
    var lo := k - 1 - (i - 1);
    for j := lo to k - 1
      invariant t.Ready()
      invariant forall m :: lo <= m < j ==> c[m] == Add(s[m], Mul(q, s[m + 1]))
      invariant forall m :: j <= m < k ==> c[m] == s[m]
      invariant forall m :: 0 <= m < lo ==> c[m] == s[m]
    {
      c[j] := Add(c[j], t.mulTable[q, c[j + 1]]);
    }
    c[k - 1] := Add(c[k - 1], q);
    FactorHeld(s, c[..], r, q, lo);
  }

  lemma FactorHeld(s: seq<gf>, c: seq<gf>, r: Poly, q: gf, lo: nat)
    requires |s| == |c| && 2 <= |r| <= |s| && lo == |s| - |r| + 1 && HoldsTop(s, r)
    requires forall m :: lo <= m < |s| - 1 ==> c[m] == Add(s[m], Mul(q, s[m + 1]))
    requires c[|s| - 1] == Add(s[|s| - 1], q)
    requires forall m :: 0 <= m < lo ==> c[m] == s[m]
    ensures HoldsTop(c, TimesRoot(r, q)[0 := 0])
  {
    var u, k := TimesRoot(r, q)[0 := 0], |s|;
    TimesRootTerm(r, q, |r|);
    forall j | lo - 1 <= j < k ensures c[j] == u[j - (lo - 1)] {
      if j >= lo { FactorTerm(s, c, r, q, lo, j); }
    }
  }

  lemma FactorTerm(s: seq<gf>, c: seq<gf>, r: Poly, q: gf, lo: nat, j: nat)
    requires |s| == |c| && 2 <= |r| <= |s| && lo == |s| - |r| + 1 && HoldsTop(s, r)
    requires lo <= j < |s|
    requires c[j] == if j < |s| - 1 then Add(s[j], Mul(q, s[j + 1])) else Add(s[j], q)
    ensures c[j] == TimesRoot(r, q)[j - (lo - 1)]
  {
    var m := j - (lo - 1);
    hide TimesRoot;
    TimesRootTerm(r, q, m);
    MulOne(q);
    assert s[j] == r[m - 1];
  }

  /** The coefficients of the product of all x - p[i], highest computed first. */
  method Coefficients(t: Tables, p: array<gf>, c: array<gf>, k: nat)
    requires t.Ready() && t.Apart(c) && c != p && p.Length == k && c.Length == k && k >= 1
    requires forall j :: 0 <= j < k ==> c[j] == 0
    modifies c
    ensures t.Ready()
    ensures HoldsTop(c[..], CodeProduct(p[..]))
  {
    hide Exp, Mul, TimesRoot;
    ghost var ps := p[..];
    c[k - 1] := p[0];
    assert CodeProduct(ps[..1]) == [ps[0], 1];
    for i := 1 to k
      invariant t.Ready() && p[..] == ps
      invariant HoldsTop(c[..], CodeProduct(ps[..i]))
    {
      NextFactor(t, c, k, i, p[i], CodeProduct(ps[..i]));
      assert ps[..i + 1][..i] == ps[..i];
      assert CodeProduct(ps[..i + 1]) == TimesRoot(CodeProduct(ps[..i]), ps[i])[0 := 0];
    }
    assert ps[..k] == ps;
  }

  method DivideOnce(t: Tables, c: array<gf>, b: array<gf>, k: nat, xx: gf, i: nat, ghost r: Poly, ghost q: Poly)
    requires t.Ready() && t.Apart(b) && b != c && c.Length == k && b.Length == k && i + 1 < k
    requires |r| == k + 1 && c[..] == r[..k] && q == Quotient(r, xx) && b[i + 1..] == q[i + 1..]
    modifies b
    ensures t.Ready() && b[i..] == q[i..] && b[i] == q[i]
  {
    hide Exp, Mul, Eval, Quotient;
    ghost var tail := b[i + 1..];
    DivisionTerm(r, xx, i);
    assert b[i + 1] == tail[0] == q[i + 1] && c[i + 1] == r[i + 1];
    b[i] := Add(c[i + 1], t.mulTable[xx, b[i + 1]]);
    assert b[i + 1..] == tail;
  }

  /** b becomes the quotient by x - xx, and tt the value of the quotient at xx. */
  method SyntheticDivision(t: Tables, c: array<gf>, b: array<gf>, k: nat, xx: gf, ghost r: Poly)
    returns (tt: gf)
    requires t.Ready() && t.Apart(b) && b != c && c.Length == k && b.Length == k && k >= 1
    requires |r| == k + 1 && r[k] == 1 && c[..] == r[..k]
    modifies b
    ensures t.Ready()
    ensures b[..] == Quotient(r, xx) && tt == Eval(b[..], xx)
  {
    ghost var q := Quotient(r, xx);
    LeadingCoefficient(r, xx);
    tt := 1;
    b[k - 1] := 1;
    assert q[k - 1..] == [1];
    OneTerm(xx);
    hide Exp, Mul, Quotient, Eval;
    for i := k - 1 downto 0
      invariant t.Ready() && c[..] == r[..k]
      invariant b[i..] == q[i..]
      invariant tt == Eval(q[i..], xx)
    {
      DivideOnce(t, c, b, k, xx, i, r, q);
      HornerStep(q, xx, i, tt);
      tt := Add(t.mulTable[xx, tt], b[i]);
    }
    assert b[..] == q && q[0..] == q;
  }

  lemma HornerStep(q: Poly, x: gf, i: nat, e: gf)
    requires i < |q| && e == Eval(q[i + 1..], x)
    ensures Eval(q[i..], x) == Add(Mul(x, e), q[i])
  {
    assert q[i..][1..] == q[i + 1..];
    AddComm(Mul(x, e), q[i]);
  }

  lemma OneTerm(x: gf)
    ensures Eval([1], x) == 1
  {
    var a: Poly := [1];
    assert a[1..] == [];
    MulZero(x); AddZero(1);
  }

  lemma DivisionTerm(r: Poly, x: gf, i: nat)
    requires i + 2 < |r|
    ensures Quotient(r, x)[i] == Add(r[i + 1], Mul(x, Quotient(r, x)[i + 1]))
  {
    assert r[i + 1..][1..] == r[i + 2..];
  }

  /** w with column r replaced. */
  ghost function WithColumn(w: Matrix, k: nat, r: nat, v: Vector): (w': Matrix)
    requires IsMatrix(w, k, k) && |v| == k && r < k
    ensures IsMatrix(w', k, k)
    ensures forall i :: 0 <= i < k ==> w'[i] == w[i][r := v[i]]
  {
    seq(k, i requires 0 <= i < k => w[i][r := v[i]])
  }

  ghost predicate ColumnWritten(m: Matrix, w: Matrix, k: nat, r: nat, v: Vector, done: nat) {
    && IsMatrix(w, k, k) && IsMatrix(m, k, k) && |v| == k && r < k && done <= k
    && (forall i :: 0 <= i < done ==> m[i] == w[i][r := v[i]])
    && (forall i :: done <= i < k ==> m[i] == w[i])
  }

  /** Store inverse[tt] * b as column `row` of the matrix. */
  method WriteColumn(t: Tables, src: array<gf>, k: nat, row: nat, tt: gf, b: array<gf>)
    requires t.Ready() && t.Apart(src) && src != b && k * k <= src.Length && b.Length == k && row < k
    modifies src
    ensures t.Ready()
    ensures Unflatten(src[..], k, k)
         == WithColumn(old(Unflatten(src[..], k, k)), k, row, Scaled(Inverse(tt), b[..]))
    ensures src[k * k..] == old(src[k * k..])
  {
    hide Exp, Mul, Inverse, Unflatten;
    ghost var w, v := Unflatten(src[..], k, k), Scaled(Inverse(tt), b[..]);
    for col := 0 to k
      invariant t.Ready()
      invariant ColumnWritten(Unflatten(src[..], k, k), w, k, row, v, col)
      invariant src[k * k..] == old(src[k * k..])
    {
      ghost var s := src[..];
      RowFits(k, k, col);
      UnflattenRow(s, k, k, col);
      var p := col * k;
      src[p + row] := t.mulTable[t.inverse[tt], b[col]];
      assert src[p..p + k] == w[col][row := v[col]];
      ColumnStep(s, src[..], w, k, row, v, col, p);
    }
    assert Unflatten(src[..], k, k) == WithColumn(w, k, row, v);
  }

  lemma ColumnStep(s: seq<gf>, t: seq<gf>, w: Matrix, k: nat, r: nat, v: Vector, col: nat, p: nat)
    requires k * k <= |s| == |t| && col < k && p == col * k && p + k <= |s|
    requires ColumnWritten(Unflatten(s, k, k), w, k, r, v, col)
    requires SameOutside(s, t, p, p + k)
    requires t[p..p + k] == w[col][r := v[col]]
    ensures ColumnWritten(Unflatten(t, k, k), w, k, r, v, col + 1)
  {
    hide Unflatten;
    RowUpdated(s, t, k, k, col);
  }

  ghost predicate FirstColumns(w: Matrix, c: Poly, ps: seq<gf>, k: nat, done: nat) {
    && |ps| == k && |c| == k + 1 && IsMatrix(w, k, k) && done <= k
    && forall r :: 0 <= r < done ==> Column(w, k, r) == VdmColumn(c, ps[r])
  }

  lemma NextColumn(w: Matrix, w': Matrix, c: Poly, ps: seq<gf>, k: nat, r: nat)
    requires FirstColumns(w, c, ps, k, r) && r < k
    requires w' == WithColumn(w, k, r, VdmColumn(c, ps[r]))
    ensures FirstColumns(w', c, ps, k, r + 1)
  {
    forall j | 0 <= j < r + 1 ensures Column(w', k, j) == VdmColumn(c, ps[j]) {
      if j < r { assert Column(w', k, j) == Column(w, k, j); }
    }
  }

  lemma SecondColumn(s: seq<gf>, k: nat, ps: seq<gf>, i: nat)
    requires k * k <= |s| && |ps| == k && k >= 2 && i < k
    requires Unflatten(s, k, k) == VanMatrix(ps, k)
    ensures 0 <= i * k && i * k + 1 < |s| && s[i * k + 1] == ps[i]
  {
    RowFits(k, k, i);
    UnflattenRow(s, k, k, i);
    assert Powers(ps[i], k)[1] == Pow(ps[i], 1) == Mul(ps[i], Pow(ps[i], 0));
    MulOne(ps[i]);
  }

  lemma OneByOne(w: Matrix, p: gf)
    requires w == VanMatrix([p], 1)
    ensures HasVdmColumns(w, CodeProduct([p]), [p])
  {
    var c: Poly := [p, 1];
    assert CodeProduct([p]) == c;
    LeadingCoefficient(c, p);
    assert Quotient(c, p) == [1];
    OneTerm(p);
    InverseOne();
    MulOne(1);
    assert VdmColumn(c, p) == [1];
    assert Column(w, 1, 0) == [1];
  }

  /** The points, read from the second column of the matrix. */
  method ReadPoints(src: array<gf>, k: nat, p: array<gf>, c: array<gf>, ghost ps: seq<gf>)
    requires k >= 2 && |ps| == k && k * k <= src.Length && p.Length == k && c.Length == k
    requires src != p && src != c && p != c
    requires Unflatten(src[..], k, k) == VanMatrix(ps, k)
    modifies p, c
    ensures p[..] == ps && forall j :: 0 <= j < k ==> c[j] == 0
  {
    hide Unflatten;
    var j := 1;
    for i := 0 to k
      invariant j == i * k + 1
      invariant forall m :: 0 <= m < i ==> p[m] == ps[m] && c[m] == 0
    {
      SecondColumn(src[..], k, ps, i);
      c[i] := 0;
      p[i] := src[j];
      NextRow(i, k);
      j := j + k;
    }
  }

  /** One column after the other. */
  method FillColumns(t: Tables, src: array<gf>, k: nat, p: array<gf>, c: array<gf>, b: array<gf>,
                     ghost ps: seq<gf>, ghost r: Poly)
    requires t.Ready() && t.Apart(src) && t.Apart(b) && src != p && src != c && src != b && b != c && b != p
    requires k >= 1 && k * k <= src.Length && p.Length == k && c.Length == k && b.Length == k
    requires p[..] == ps && |r| == k + 1 && HoldsTop(c[..], r)
    modifies src, b
    ensures t.Ready()
    ensures HasVdmColumns(Unflatten(src[..], k, k), r, ps)
    ensures src[k * k..] == old(src[k * k..])
  {
    hide Exp, Mul, Unflatten;
    ghost var size := k * k;
    assert c[..] == r[..k];
    for row := 0 to k
      invariant t.Ready() && p[..] == ps && c[..] == r[..k]
      invariant FirstColumns(Unflatten(src[..], k, k), r, ps, k, row)
      invariant src[size..] == old(src[size..])
    {
      hide FirstColumns, Quotient;
      ghost var w := Unflatten(src[..], k, k);
      var tt := SyntheticDivision(t, c, b, k, p[row], r);
      WriteColumn(t, src, k, row, tt, b);
      NextColumn(w, Unflatten(src[..], k, k), r, ps, k, row);
    }
  }

  /** Replace the Vandermonde matrix on the points ps by what is meant to be its inverse. */
  method InvertVdm(t: Tables, src: array<gf>, k: nat, ghost ps: seq<gf>)
    requires t.Ready() && t.Apart(src) && k >= 1 && |ps| == k && Distinct(ps) && k * k <= src.Length
    requires Unflatten(src[..], k, k) == VanMatrix(ps, k)
    modifies src
    ensures t.Ready()
    ensures IsInverse(Unflatten(src[..], k, k), VanMatrix(ps, k), k) <==> DropsNothing(ps)
    ensures src[k * k..] == old(src[k * k..])
  {
    hide Exp, Mul, Unflatten, VanMatrix, IsInverse, HoldsTop, HasVdmColumns, CodeProduct;
    if k == 1 {
      assert ps == [ps[0]];
      OneByOne(Unflatten(src[..], 1, 1), ps[0]);
    } else {
      var c := new gf[k];
      var b := new gf[k];
      var p := new gf[k];
      ReadPoints(src, k, p, c, ps);
      Coefficients(t, p, c, k);
      FillColumns(t, src, k, p, c, b, ps, CodeProduct(ps));
    }
    InverseIffNothingDropped(ps, Unflatten(src[..], k, k));
  }
}
