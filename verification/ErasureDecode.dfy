/** fec_encode, shuffle, build_decode_matrix and fec_decode. */
module ErasureDecode {
  import opened GaloisField
  import opened GaloisTables
  import opened LinearAlgebra
  import opened FlatMatrix
  import opened GaussJordan
  import opened MatrixInverse
  import opened Systematic
  import opened ErasureCode

  /** The first sz bytes of every packet, as the rows of a matrix. */
  ghost function Packets(p: seq<array<gf>>, sz: nat): (m: Matrix)
    requires forall i :: 0 <= i < |p| ==> sz <= p[i].Length
    reads p
    ensures IsMatrix(m, |p|, sz)
    ensures forall i :: 0 <= i < |p| ==> m[i] == p[i][..sz]
  {
    seq(|p|, i requires 0 <= i < |p| reads p => p[i][..sz])
  }

  /** dst becomes the combination of the packets with the coefficients in row. */
  method Combine(t: Tables, coef: array<gf>, off: nat, src: seq<array<gf>>, dst: array<gf>, sz: nat,
                 ghost row: Vector, ghost s: Matrix)
    requires t.Ready() && t.Apart(dst) && dst !in src && dst != coef
    requires sz <= dst.Length && forall i :: 0 <= i < |src| ==> sz <= src[i].Length
    requires off + |src| <= coef.Length && coef[off..off + |src|] == row
    requires s == Packets(src, sz)
    modifies dst
    ensures t.Ready()
    ensures dst[..sz] == RowTimes(row, s, sz)
    ensures dst[sz..] == old(dst[sz..])
  {
    hide RowTimes, PartialRow, Sum, Scaled;
    for j := 0 to sz
      invariant t.Ready()
      invariant forall i :: 0 <= i < j ==> dst[i] == 0
      invariant dst[sz..] == old(dst[sz..])
    {
      dst[j] := 0;
    }
    PartialRowAll(row, s, sz);
    assert dst[..sz] == Zeros(sz);
    for i := 0 to |src|
      invariant t.Ready() && coef[off..off + |src|] == row && s == Packets(src, sz)
      invariant dst[..sz] == PartialRow(row, s, sz, i)
      invariant dst[sz..] == old(dst[sz..])
    {
      ghost var before := dst[..];
      assert coef[off + i] == row[i];
      assert src[i][0..sz] == s[i] && dst[0..sz] == dst[..sz];
      AddMul(t, dst, 0, src[i], 0, coef[off + i], sz);
      PartialRowStep(row, s, sz, i);
      assert dst[0..sz] == dst[..sz];
      assert dst[sz..] == before[sz..];
    }
  }

  /** Packet `index` of the n packets; a wrong index leaves the buffer alone. */
  method FecEncode(t: Tables, code: FecParms, src: seq<array<gf>>, fec: array<gf>, index: nat, sz: nat)
    requires t.Ready() && code.Valid() && t.Apart(fec) && fec !in src && fec != code.encMatrix
    requires |src| == code.k && sz <= fec.Length
    requires forall i :: 0 <= i < |src| ==> sz <= src[i].Length
    modifies fec
    ensures t.Ready() && code.Valid() && code.Encoding() == old(code.Encoding())
    ensures index < code.n ==> fec[..sz] == RowTimes(code.Encoding()[index], Packets(src, sz), sz)
    ensures index >= code.n ==> fec[..] == old(fec[..])
    ensures fec[sz..] == old(fec[sz..])
  {
    hide Unflatten, IsEncoding, RowTimes;
    var k := code.k;
    ghost var s := Packets(src, sz);
    if index < k {
      for j := 0 to sz
        invariant t.Ready()
        invariant fec[..j] == src[index][..j]
        invariant fec[sz..] == old(fec[sz..])
        invariant src[index][..] == old(src[index][..])
      {
        fec[j] := src[index][j];
      }
      assert Packets(src, sz) == s;
      SourceRow(code.Encoding(), k, code.n, index, s, sz);
    } else if index < code.n {
      UnflattenRow(code.encMatrix[..], code.n, k, index);
      RowFits(k, code.n, index);
      var p := index * k;
      assert code.encMatrix[p..p + k] == code.Encoding()[index];
      Combine(t, code.encMatrix, p, src, fec, sz, code.Encoding()[index], s);
      assert Packets(src, sz) == s;
    }
  }

  /** For a source index the combination is the source packet itself. */
  lemma SourceRow(e: Matrix, k: nat, n: nat, i: nat, s: Matrix, sz: nat)
    requires IsEncoding(e, k, n) && i < k && IsMatrix(s, k, sz) && IsMatrix(e, n, k)
    ensures RowTimes(e[i], s, sz) == s[i]
  {
    var w :| EncodesWith(e, w, k, n);
    TopIsIdentity(e, w, k, n, i);
    forall j | 0 <= j < sz ensures RowTimes(e[i], s, sz)[j] == s[i][j] {
      DotToUnit(Column(s, sz, j), k, i);
    }
  }

  // ----- shuffle

  /** perm and inv are permutations of 0 .. k, and each undoes the other. */
  ghost predicate Inverses(perm: seq<nat>, inv: seq<nat>, k: nat) {
    && |perm| == k && |inv| == k
    && (forall i :: 0 <= i < k ==> perm[i] < k && inv[perm[i]] == i)
    && (forall a :: 0 <= a < k ==> inv[a] < k && perm[inv[a]] == a)
  }

  ghost function SwappedInverse(perm: seq<nat>, inv: seq<nat>, k: nat, i: nat, j: nat): (q: seq<nat>)
    requires Inverses(perm, inv, k) && i < k && j < k
    ensures Inverses(Swapped(perm, i, j), q, k)
  {
    inv[perm[i] := j][perm[j] := i]
  }

  ghost predicate Rearranged<T>(s: seq<T>, t: seq<T>, perm: seq<nat>) {
    |s| == |t| == |perm| && forall i :: 0 <= i < |s| ==> perm[i] < |s| && t[i] == s[perm[i]]
  }

  lemma SwapRearranged<T>(s: seq<T>, t: seq<T>, perm: seq<nat>, i: nat, j: nat)
    requires Rearranged(s, t, perm) && i < |s| && j < |s|
    ensures Rearranged(s, Swapped(t, i, j), Swapped(perm, i, j))
  {
  }

  /** How many of the first n entries are in their place. */
  ghost function InPlace(s: seq<int>, n: nat): nat
    requires n <= |s|
  {
    if n == 0 then 0 else (if s[n - 1] == n - 1 then 1 else 0) + InPlace(s, n - 1)
  }

  lemma {:induction false} InPlaceBound(s: seq<int>, n: nat)
    requires n <= |s|
    ensures InPlace(s, n) <= n
  {
    if n > 0 { InPlaceBound(s, n - 1); }
  }

  lemma {:induction false} InPlaceGrows(s: seq<int>, t: seq<int>, n: nat, c: nat)
    requires |s| == |t| && n <= |s|
    requires forall j :: 0 <= j < n && s[j] == j ==> t[j] == j
    ensures InPlace(t, n) >= InPlace(s, n)
    ensures c < n && s[c] != c && t[c] == c ==> InPlace(t, n) > InPlace(s, n)
  {
    if n > 0 { InPlaceGrows(s, t, n - 1, c); }
  }

  ghost predicate SmallDuplicate(s: seq<int>) {
    exists a, b :: 0 <= a < b < |s| && s[a] == s[b] < |s|
  }

  lemma DuplicateFound(s: seq<int>, t: seq<int>, perm: seq<nat>, inv: seq<nat>, i: nat, c: nat)
    requires Inverses(perm, inv, |s|) && Rearranged(s, t, perm)
    requires i < |s| && c < |s| && i != c && t[i] == c && t[c] == c
    ensures SmallDuplicate(s)
  {
    var a, b := perm[i], perm[c];
    assert inv[a] == i && inv[b] == c;
    if a < b { assert s[a] == s[b]; } else { assert s[b] == s[a]; }
  }

  lemma NoDuplicate(s: seq<int>, t: seq<int>, perm: seq<nat>, inv: seq<nat>)
    requires Inverses(perm, inv, |s|) && Rearranged(s, t, perm)
    requires forall i :: 0 <= i < |s| ==> t[i] >= |s| || t[i] == i
    ensures !SmallDuplicate(s)
  {
    forall a, b | 0 <= a < b < |s| ensures s[a] != s[b] || s[a] >= |s| {
      assert t[inv[a]] == s[a] && t[inv[b]] == s[b];
      assert perm[inv[a]] == a && perm[inv[b]] == b;
    }
  }

  /** SWAP(index[i], index[c]) and SWAP(pkt[i], pkt[c]) put packet c in its place. */
  method SwapPackets(pkt: array<array<gf>>, index: array<int>, k: nat, i: nat, c: nat)
    requires pkt.Length == k && index.Length == k && i < k && c < k
    requires index[i] == c && index[c] != c && i != c
    modifies pkt, index
    ensures index[..] == Swapped(old(index[..]), i, c) && pkt[..] == Swapped(old(pkt[..]), i, c)
    ensures old(InPlace(index[..], k)) < InPlace(index[..], k) <= k
  {
    index[i], index[c] := index[c], index[i];
    pkt[i], pkt[c] := pkt[c], pkt[i];
    InPlaceGrows(old(index[..]), index[..], k, c);
    InPlaceBound(index[..], k);
  }

  /** Move source packets to their places; 1 if two packets claim the same place. */
  method Shuffle(pkt: array<array<gf>>, index: array<int>, k: nat)
    returns (r: int, ghost perm: seq<nat>, ghost inv: seq<nat>)
    requires pkt.Length == k && index.Length == k
    requires forall i :: 0 <= i < k ==> index[i] >= 0
    modifies pkt, index
    ensures r == 0 || r == 1
    ensures r == 1 <==> SmallDuplicate(old(index[..]))
    ensures Inverses(perm, inv, k)
    ensures Rearranged(old(index[..]), index[..], perm) && Rearranged(old(pkt[..]), pkt[..], perm)
    ensures r == 0 ==> forall i :: 0 <= i < k ==> index[i] >= k || index[i] == i
  {
    hide InPlace, SmallDuplicate;
    perm, inv := Iota(k), Iota(k);
    var i := 0;
    while i < k
      invariant 0 <= i <= k
      invariant Inverses(perm, inv, k)
      invariant Rearranged(old(index[..]), index[..], perm) && Rearranged(old(pkt[..]), pkt[..], perm)
      invariant forall j :: 0 <= j < k ==> index[j] >= 0
      invariant forall j :: 0 <= j < i ==> index[j] >= k || index[j] == j
      decreases k - InPlace(index[..], k), k - i
    {
      hide Inverses, Rearranged;
      if index[i] >= k || index[i] == i {
        i := i + 1;
      } else {
        var c := index[i];
        if index[c] == c {
          DuplicateFound(old(index[..]), index[..], perm, inv, i, c);
          return 1, perm, inv;
        }
        SwapRearranged(old(index[..]), index[..], perm, i, c);
        SwapRearranged(old(pkt[..]), pkt[..], perm, i, c);
        SwapPackets(pkt, index, k, i, c);
        inv := SwappedInverse(perm, inv, k, i, c);
        perm := Swapped(perm, i, c);
      }
    }
    NoDuplicate(old(index[..]), index[..], perm, inv);
    r := 0;
  }

  // ----- build_decode_matrix

  /** What build_decode_matrix collects: a unit row for a packet in its place, else its encoding row. */
  ghost function DecodeRows(e: Matrix, k: nat, n: nat, index: seq<int>): (d: Matrix)
    requires IsMatrix(e, n, k) && |index| == k && forall i :: 0 <= i < k ==> 0 <= index[i] < n
    ensures IsMatrix(d, k, k)
    ensures forall i :: 0 <= i < k ==> d[i] == if index[i] < k then Unit(k, i) else e[index[i]]
  {
    seq(k, i requires 0 <= i < k => if index[i] < k then Unit(k, i) else e[index[i]])
  }

  ghost predicate InRange(index: seq<int>, n: nat) {
    forall i :: 0 <= i < |index| ==> 0 <= index[i] < n
  }

  /** memcpy of an encoding row, or a unit row. */
  method FillRow(m: array<gf>, p: nat, k: nat, enc: array<gf>, q: nat, i: nat, small: bool)
    requires m != enc && p + k <= m.Length && i < k && (!small ==> q + k <= enc.Length)
    modifies m
    ensures m[p..p + k] == if small then Unit(k, i) else enc[q..q + k]
    ensures SameOutside(old(m[..]), m[..], p, p + k)
  {
    ghost var row := if small then Unit(k, i) else enc[q..q + k];
    for j := 0 to k
      invariant forall c :: p <= c < p + j ==> m[c] == row[c - p]
      invariant SameOutside(old(m[..]), m[..], p, p + k)
    {
      m[p + j] := if small then (if j == i then 1 else 0) else enc[q + j];
    }
  }

  /** The first `done` rows of the matrix in s are those of d. */
  ghost predicate RowsFilled(s: seq<gf>, d: seq<Vector>, k: nat, done: nat) {
    && |s| == k * k && done <= k && done <= |d|
    && forall r :: 0 <= r < done ==> Square(s, k)[r] == d[r]
  }

  lemma RowFilled(s: seq<gf>, t: seq<gf>, d: seq<Vector>, k: nat, r: nat, p: nat)
    requires RowsFilled(s, d, k, r) && r < k && r < |d| && p == r * k && p + k <= |t|
    requires SameOutside(s, t, p, p + k) && t[p..p + k] == d[r]
    ensures RowsFilled(t, d, k, r + 1)
  {
    hide Unflatten;
    RowUpdated(s, t, k, k, r);
  }

  method CollectRows(code: FecParms, m: array<gf>, index: array<int>) returns (ok: bool)
    requires code.Valid() && index.Length == code.k && m.Length == code.k * code.k && m != code.encMatrix
    requires forall i :: 0 <= i < code.k ==> index[i] >= 0
    modifies m
    ensures code.Valid() && code.Encoding() == old(code.Encoding())
    ensures ok <==> InRange(index[..], code.n)
    ensures ok ==> Square(m[..], code.k) == DecodeRows(code.Encoding(), code.k, code.n, index[..])
  {
    hide Unflatten, IsEncoding, RowsFilled, Square;
    var k := code.k;
    ghost var e, d := code.Encoding(), [];
    NothingFilled(m[..], k);
    for i := 0 to k
      invariant code.Valid() && code.Encoding() == e
      invariant |d| == i && RowsFilled(m[..], d, k, i)
      invariant forall j :: 0 <= j < i ==> index[j] < code.n
      invariant forall j :: 0 <= j < i ==> d[j] == if index[j] < k then Unit(k, j) else e[index[j]]
    {
      if index[i] >= code.n {
        return false;
      }
      ghost var s := m[..];
      RowFits(k, k, i);
      RowFits(k, code.n, index[i]);
      UnflattenRow(code.encMatrix[..], code.n, k, index[i]);
      var p, q := i * k, index[i] * k;
      ghost var row := if index[i] < k then Unit(k, i) else e[index[i]];
      FillRow(m, p, k, code.encMatrix, q, i, index[i] < k);
      MoreRows(s, d, k, row);
      d := d + [row];
      RowFilled(s, m[..], d, k, i, p);
    }
    AllFilled(m[..], d, k, DecodeRows(e, k, code.n, index[..]));
    return true;
  }

  lemma NothingFilled(s: seq<gf>, k: nat)
    requires |s| == k * k
    ensures RowsFilled(s, [], k, 0)
  {
  }

  lemma MoreRows(s: seq<gf>, d: seq<Vector>, k: nat, row: Vector)
    requires RowsFilled(s, d, k, |d|)
    ensures RowsFilled(s, d + [row], k, |d|)
  {
  }

  lemma AllFilled(s: seq<gf>, d: seq<Vector>, k: nat, m: Matrix)
    requires RowsFilled(s, d, k, k) && IsMatrix(m, k, k) && |d| == k
    requires forall i :: 0 <= i < k ==> d[i] == m[i]
    ensures Square(s, k) == m
  {
  }

  /** The inverse of the rows that the packets were made with; null if there is none. */
  method BuildDecodeMatrix(t: Tables, code: FecParms, index: array<int>) returns (m: array?<gf>)
    requires t.Ready() && code.Valid() && index.Length == code.k
    requires forall i :: 0 <= i < code.k ==> index[i] >= 0
    ensures t.Ready() && code.Valid() && code.Encoding() == old(code.Encoding())
    ensures m != null <==>
      InRange(index[..], code.n) && Nonsingular(DecodeRows(code.Encoding(), code.k, code.n, index[..]), code.k)
    ensures m != null ==> fresh(m) && m.Length == code.k * code.k && InRange(index[..], code.n)
    ensures m != null ==>
      IsInverse(Square(m[..], code.k), DecodeRows(code.Encoding(), code.k, code.n, index[..]), code.k)
  {
    hide Unflatten, IsEncoding, Square, Nonsingular, IsInverse;
    var k := code.k;
    ProductNonneg(k, k);
    var matrix := new gf[k * k];
    var ok := CollectRows(code, matrix, index);
    if !ok {
      return null;
    }
    var error := InvertMat(t, matrix, k);
    if error != 0 {
      return null;
    }
    return matrix;
  }

  // ----- fec_decode

  lemma DecodeRowsAreSelected(e: Matrix, k: nat, n: nat, index: seq<int>)
    requires IsEncoding(e, k, n) && IsMatrix(e, n, k) && |index| == k && InRange(index, n)
    requires forall i :: 0 <= i < k ==> index[i] >= k || index[i] == i
    ensures DecodeRows(e, k, n, index) == Select(e, k, index)
  {
    var w :| EncodesWith(e, w, k, n);
    forall i | 0 <= i < k ensures DecodeRows(e, k, n, index)[i] == Select(e, k, index)[i] {
      if index[i] < k { TopIsIdentity(e, w, k, n, i); }
    }
  }

  lemma RearrangedValid(s: seq<int>, t: seq<int>, perm: seq<nat>, inv: seq<nat>, n: nat)
    requires Inverses(perm, inv, |s|) && Rearranged(s, t, perm)
    ensures ValidIndices(s, n) <==> ValidIndices(t, n)
  {
    if ValidIndices(s, n) {
      forall i, j | 0 <= i < j < |s| ensures t[i] != t[j] {
        assert inv[perm[i]] == i && inv[perm[j]] == j;
        assert perm[i] < perm[j] || perm[j] < perm[i];
      }
    }
    if ValidIndices(t, n) {
      forall a | 0 <= a < |s| ensures 0 <= s[a] < n { assert t[inv[a]] == s[a]; }
      forall a, b | 0 <= a < b < |s| ensures s[a] != s[b] {
        assert t[inv[a]] == s[a] && t[inv[b]] == s[b];
        assert perm[inv[a]] == a && perm[inv[b]] == b;
        assert inv[a] < inv[b] || inv[b] < inv[a];
      }
    }
  }

  lemma InverseMeansDistinct(b: Matrix, e: Matrix, k: nat, n: nat, index: seq<int>)
    requires IsEncoding(e, k, n) && IsMatrix(e, n, k) && |index| == k && InRange(index, n)
    requires IsInverse(b, Select(e, k, index), k)
    ensures ValidIndices(index, n)
  {
    forall i, j | 0 <= i < j < k ensures index[i] != index[j] {
      if index[i] == index[j] { EqualRowsHaveNoInverse(b, Select(e, k, index), k, i, j); }
    }
  }

  /** Whether the decode matrix exists: exactly for k distinct indices below n. */
  lemma DecodableIffValid(e: Matrix, k: nat, n: nat, index: seq<int>)
    requires IsEncoding(e, k, n) && IsMatrix(e, n, k) && |index| == k && ValidIndices(index, n)
    requires forall i :: 0 <= i < k ==> index[i] >= k || index[i] == i
    ensures Nonsingular(DecodeRows(e, k, n, index), k)
  {
    DecodeRowsAreSelected(e, k, n, index);
    AnyRowsNonsingular(e, k, n, index);
  }

  /** The packets in p are the packets with these indices of the encoded source. */
  ghost predicate Encoded(p: Matrix, e: Matrix, k: nat, n: nat, index: seq<int>, source: Matrix, sz: nat) {
    && IsMatrix(p, k, sz) && IsMatrix(source, k, sz) && IsMatrix(e, n, k)
    && |index| == k && InRange(index, n)
    && forall i :: 0 <= i < k ==> p[i] == RowTimes(e[index[i]], source, sz)
  }

  lemma EncodedRearranged(p: Matrix, q: Matrix, e: Matrix, k: nat, n: nat, s: seq<int>, t: seq<int>,
                          perm: seq<nat>, source: Matrix, sz: nat)
    requires Encoded(p, e, k, n, s, source, sz)
    requires Rearranged(p, q, perm) && Rearranged(s, t, perm)
    ensures Encoded(q, e, k, n, t, source, sz)
  {
    hide RowTimes;
  }

  lemma RowRecovered(p: Matrix, e: Matrix, b: Matrix, k: nat, n: nat, index: seq<int>, source: Matrix, sz: nat, i: nat)
    requires IsEncoding(e, k, n) && Encoded(p, e, k, n, index, source, sz) && i < k
    requires forall i :: 0 <= i < k ==> index[i] >= k || index[i] == i
    requires IsInverse(b, DecodeRows(e, k, n, index), k)
    ensures index[i] >= k ==> RowTimes(b[i], p, sz) == source[i]
    ensures index[i] < k ==> p[i] == source[i]
  {
    hide RowTimes, IsEncoding, IsInverse;
    if index[i] >= k {
      DecodeRowsAreSelected(e, k, n, index);
      var d := Select(e, k, index);
      assert p == MatMul(d, source, sz);
      InverseRecovers(b, d, k, source, sz, p, i);
    } else {
      SourceRow(e, k, n, i, source, sz);
    }
  }

  /** New buffers for the packets that are not in the clear. */
  method DecodeMissing(t: Tables, m: array<gf>, k: nat, pkt: seq<array<gf>>, index: seq<int>, sz: nat,
                       ghost b: Matrix, ghost p: Matrix)
    returns (out: seq<array?<gf>>)
    requires t.Ready() && |pkt| == k && |index| == k && m.Length == k * k && b == Square(m[..], k)
    requires forall i :: 0 <= i < k ==> sz <= pkt[i].Length
    requires p == Packets(pkt, sz)
    ensures t.Ready() && |out| == k
    ensures forall i :: 0 <= i < k ==> (out[i] != null <==> index[i] >= k)
    ensures forall i :: 0 <= i < k && out[i] != null ==> fresh(out[i]) && out[i].Length == sz
    ensures forall i :: 0 <= i < k && out[i] != null ==> out[i][..] == RowTimes(b[i], p, sz)
  {
    hide RowTimes, Unflatten;
    out := [];
    for row := 0 to k
      invariant t.Ready() && p == Packets(pkt, sz) && b == Square(m[..], k)
      invariant |out| == row
      invariant forall i :: 0 <= i < row ==> (out[i] != null <==> index[i] >= k)
      invariant forall i :: 0 <= i < row && out[i] != null ==> fresh(out[i]) && out[i].Length == sz
      invariant forall i :: 0 <= i < row && out[i] != null ==> out[i][..] == RowTimes(b[i], p, sz)
    {
      var buf: array?<gf> := null;
      if index[row] >= k {
        buf := new gf[sz];
        RowFits(k, k, row);
        UnflattenRow(m[..], k, k, row);
        var q := row * k;
        assert m[q..q + k] == b[row];
        Combine(t, m, q, pkt, buf, sz, b[row], p);
        assert buf[..sz] == buf[..];
      }
      out := out + [buf];
    }
  }

  /** memcpy of the new buffers over the received packets. */
  method CopyBack(pkt: seq<array<gf>>, out: seq<array?<gf>>, sz: nat)
    requires |out| == |pkt|
    requires forall i, j :: 0 <= i < j < |pkt| ==> pkt[i] != pkt[j]
    requires forall i :: 0 <= i < |pkt| ==> sz <= pkt[i].Length
    requires forall i :: 0 <= i < |pkt| && out[i] != null ==> out[i].Length == sz && out[i] !in pkt
    modifies pkt
    ensures forall i :: 0 <= i < |pkt| && out[i] != null ==> pkt[i][..sz] == old(out[i][..])
    ensures forall i :: 0 <= i < |pkt| && out[i] == null ==> pkt[i][..] == old(pkt[i][..])
  {
    for row := 0 to |pkt|
      invariant forall i :: 0 <= i < |pkt| && out[i] != null ==> out[i][..] == old(out[i][..])
      invariant forall i :: 0 <= i < row && out[i] != null ==> pkt[i][..sz] == old(out[i][..])
      invariant forall i :: 0 <= i < |pkt| && (row <= i || out[i] == null) ==> pkt[i][..] == old(pkt[i][..])
    {
      if out[row] != null {
        CopyBuffer(pkt[row], out[row], sz);
      }
    }
  }

  method CopyBuffer(dst: array<gf>, src: array<gf>, sz: nat)
    requires dst != src && sz <= dst.Length && src.Length == sz
    modifies dst
    ensures dst[..sz] == src[..]
    ensures dst[sz..] == old(dst[sz..])
  {
    for j := 0 to sz
      invariant dst[..j] == src[..j]
      invariant dst[sz..] == old(dst[sz..])
    {
      dst[j] := src[j];
    }
  }

  /** Received packets: k separate buffers of at least sz bytes, apart from the tables and the code. */
  ghost predicate Received(t: Tables, code: FecParms, pkt: seq<array<gf>>, sz: nat) {
    && |pkt| == code.k
    && (forall i, j :: 0 <= i < j < |pkt| ==> pkt[i] != pkt[j])
    && (forall i :: 0 <= i < |pkt| ==> sz <= pkt[i].Length && t.Apart(pkt[i]) && pkt[i] != code.encMatrix)
  }

  lemma RearrangedReceived(t: Tables, code: FecParms, p: seq<array<gf>>, q: seq<array<gf>>,
                           perm: seq<nat>, inv: seq<nat>, sz: nat)
    requires Received(t, code, p, sz) && Inverses(perm, inv, |p|) && Rearranged(p, q, perm)
    ensures Received(t, code, q, sz)
    ensures forall i :: 0 <= i < |q| ==> q[i] in p
  {
    forall i, j | 0 <= i < j < |q| ensures q[i] != q[j] {
      assert inv[perm[i]] == i && inv[perm[j]] == j;
      assert perm[i] < perm[j] || perm[j] < perm[i];
    }
  }

  lemma AllRecovered(p: Matrix, q: Matrix, e: Matrix, b: Matrix, k: nat, n: nat, index: seq<int>,
                     source: Matrix, sz: nat)
    requires IsEncoding(e, k, n) && Encoded(p, e, k, n, index, source, sz) && IsMatrix(q, k, sz)
    requires forall i :: 0 <= i < k ==> index[i] >= k || index[i] == i
    requires IsInverse(b, DecodeRows(e, k, n, index), k)
    requires forall i :: 0 <= i < k ==> q[i] == if index[i] >= k then RowTimes(b[i], p, sz) else p[i]
    ensures q == source
  {
    hide IsEncoding, IsInverse, RowTimes;
    forall i | 0 <= i < k ensures q[i] == source[i] { RowRecovered(p, e, b, k, n, index, source, sz, i); }
  }

  /** Decode packets that are in their places with the inverse matrix m. */
  method RebuildPackets(t: Tables, code: FecParms, m: array<gf>, pkt: seq<array<gf>>, index: seq<int>, sz: nat,
                        ghost source: Matrix)
    requires t.Ready() && code.Valid() && Received(t, code, pkt, sz) && m !in pkt
    requires |index| == code.k && InRange(index, code.n) && m.Length == code.k * code.k
    requires forall i :: 0 <= i < code.k ==> index[i] >= code.k || index[i] == i
    requires IsInverse(Square(m[..], code.k), DecodeRows(code.Encoding(), code.k, code.n, index), code.k)
    modifies pkt
    ensures t.Ready() && code.Valid() && code.Encoding() == old(code.Encoding())
    ensures old(Encoded(Packets(pkt, sz), code.Encoding(), code.k, code.n, index, source, sz))
        ==> Packets(pkt, sz) == source
  {
    hide IsEncoding, Unflatten, IsInverse, RowTimes, Encoded;
    var k := code.k;
    ghost var e, b, p := code.Encoding(), Square(m[..], k), Packets(pkt, sz);
    var out := DecodeMissing(t, m, k, pkt, index, sz, b, p);
    CopyBack(pkt, out, sz);
    ghost var q := Packets(pkt, sz);
    forall i | 0 <= i < k ensures q[i] == if index[i] >= k then RowTimes(b[i], p, sz) else p[i] {
      assert index[i] < k ==> q[i] == pkt[i][..][..sz];
    }
    if Encoded(p, e, k, code.n, index, source, sz) {
      AllRecovered(p, q, e, b, k, code.n, index, source, sz);
    }
  }

  /** The rest of fec_decode, once the packets are in their places. */
  method DecodeShuffled(t: Tables, code: FecParms, pkt: seq<array<gf>>, index: array<int>, sz: nat,
                        ghost source: Matrix)
    returns (r: int)
    requires t.Ready() && code.Valid() && Received(t, code, pkt, sz) && index.Length == code.k
    requires forall i :: 0 <= i < code.k ==> 0 <= index[i] && (index[i] >= code.k || index[i] == i)
    modifies pkt
    ensures t.Ready() && code.Valid() && code.Encoding() == old(code.Encoding())
    ensures r == 0 || r == 1
    ensures r == 0 <==> ValidIndices(index[..], code.n)
    ensures r == 0
         && old(Encoded(Packets(pkt, sz), code.Encoding(), code.k, code.n, index[..], source, sz))
        ==> Packets(pkt, sz) == source
  {
    hide IsEncoding, Unflatten, ValidIndices, Nonsingular, IsInverse, RowTimes, Encoded, Square, Received;
    ghost var e := code.Encoding();
    var m := BuildDecodeMatrix(t, code, index);
    if m == null {
      NotDecodable(e, code.k, code.n, index[..]);
      return 1;
    }
    IndicesDistinct(Square(m[..], code.k), e, code.k, code.n, index[..]);
    RebuildPackets(t, code, m, pkt, index[..], sz, source);
    return 0;
  }

  /** Rebuild the source packets in place; 0 exactly for k distinct indices below n. */
  method FecDecode(t: Tables, code: FecParms, pkt: array<array<gf>>, index: array<int>, sz: nat,
                   ghost source: Matrix)
    returns (r: int)
    requires t.Ready() && code.Valid() && pkt.Length == code.k && index.Length == code.k
    requires index != t.gfLog && Received(t, code, pkt[..], sz)
    requires forall i :: 0 <= i < code.k ==> index[i] >= 0
    modifies pkt, index, pkt[..]
    ensures t.Ready() && code.Valid() && code.Encoding() == old(code.Encoding())
    ensures r == 0 || r == 1
    ensures r == 0 <==> ValidIndices(old(index[..]), code.n)
    ensures Received(t, code, pkt[..], sz)
    ensures r == 0
         && old(Encoded(Packets(pkt[..], sz), code.Encoding(), code.k, code.n, index[..], source, sz))
        ==> Packets(pkt[..], sz) == source
  {
    hide IsEncoding, Unflatten, ValidIndices, Inverses, Rearranged, RowTimes, Encoded, SmallDuplicate;
    ghost var e, p0, i0, ptrs := code.Encoding(), Packets(pkt[..], sz), index[..], pkt[..];
    var bad, perm, inv := Shuffle(pkt, index, code.k);
    ghost var moved := pkt[..];
    RearrangedReceived(t, code, ptrs, moved, perm, inv, sz);
    hide Received;
    if bad != 0 {
      SmallDuplicateInvalid(i0, code.n);
      return 1;
    }
    RearrangedValid(i0, index[..], perm, inv, code.n);
    PacketsMoved(ptrs, moved, e, code.k, code.n, i0, index[..], perm, source, sz);
    r := DecodeShuffled(t, code, pkt[..], index, sz, source);
  }

  lemma PacketsMoved(p: seq<array<gf>>, q: seq<array<gf>>, e: Matrix, k: nat, n: nat, s: seq<int>, t: seq<int>,
                     perm: seq<nat>, source: Matrix, sz: nat)
    requires Rearranged(p, q, perm) && Rearranged(s, t, perm)
    requires forall i :: 0 <= i < |p| ==> sz <= p[i].Length
    ensures forall i :: 0 <= i < |q| ==> sz <= q[i].Length
    ensures Encoded(Packets(p, sz), e, k, n, s, source, sz) ==> Encoded(Packets(q, sz), e, k, n, t, source, sz)
  {
    PacketsRearranged(p, q, perm, sz);
    if Encoded(Packets(p, sz), e, k, n, s, source, sz) {
      EncodedRearranged(Packets(p, sz), Packets(q, sz), e, k, n, s, t, perm, source, sz);
    }
  }

  lemma IndicesDistinct(b: Matrix, e: Matrix, k: nat, n: nat, index: seq<int>)
    requires IsEncoding(e, k, n) && IsMatrix(e, n, k) && |index| == k && InRange(index, n)
    requires forall i :: 0 <= i < k ==> index[i] >= k || index[i] == i
    requires IsInverse(b, DecodeRows(e, k, n, index), k)
    ensures ValidIndices(index, n)
  {
    DecodeRowsAreSelected(e, k, n, index);
    InverseMeansDistinct(b, e, k, n, index);
  }

  lemma PacketsRearranged(p: seq<array<gf>>, q: seq<array<gf>>, perm: seq<nat>, sz: nat)
    requires Rearranged(p, q, perm)
    requires forall i :: 0 <= i < |p| ==> sz <= p[i].Length
    ensures forall i :: 0 <= i < |q| ==> sz <= q[i].Length
    ensures Rearranged(Packets(p, sz), Packets(q, sz), perm)
  {
  }

  lemma SmallDuplicateInvalid(s: seq<int>, n: nat)
    requires SmallDuplicate(s)
    ensures !ValidIndices(s, n)
  {
  }

  lemma NotDecodable(e: Matrix, k: nat, n: nat, index: seq<int>)
    requires IsEncoding(e, k, n) && IsMatrix(e, n, k) && |index| == k
    requires forall i :: 0 <= i < k ==> index[i] >= k || index[i] == i
    requires !(InRange(index, n) && Nonsingular(DecodeRows(e, k, n, index), k))
    ensures !ValidIndices(index, n)
  {
    if ValidIndices(index, n) { DecodableIffValid(e, k, n, index); }
  }
}
