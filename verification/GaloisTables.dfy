/** The lookup tables of fec.c: powers and logarithms of alpha, inverses and the
    full multiplication table. */
module GaloisTables {
  import opened GaloisField
  import opened AlphaOrder
  import opened FieldLaws

  const GF_BITS: nat := 8
  const GF_SIZE: nat := 255

  /** The coefficients of 1 + x^2 + x^3 + x^4 + x^8, lowest first. */
  const PP: string := "101110001"

  /** x % 255 without a division. */
  method Modnn(x: int) returns (r: gf)
    requires x >= 0
    ensures r == x % GF_SIZE
  {
    var y := x;
    while y >= GF_SIZE
      invariant y >= 0
      invariant y % GF_SIZE == x % GF_SIZE
      decreases y
    {
      ModnnStep(y);
      y := y - GF_SIZE;
      y := y / 256 + y % 256;
    }
    return y;
  }

  lemma ModnnStep(y: int)
    requires y >= 255
    ensures ((y - 255) / 256 + (y - 255) % 256) % 255 == y % 255
    ensures 0 <= (y - 255) / 256 + (y - 255) % 256 < y
  {
    var z := y - 255;
    var h, l := z / 256, z % 256;
    assert y == (h + l) + 255 * (h + 1);
    ModMultiple(h + l, h + 1);
  }

  lemma {:induction false} ModMultiple(a: nat, m: nat)
    ensures (a + 255 * m) % 255 == a % 255
  {
    if m > 0 { ModMultiple(a, m - 1); }
  }

  /** What the first loop of GenerateGf has added into gfExp[8] after i bits. */
  ghost function ReducedBits(i: nat): gf
    requires i <= 8
  {
    if i == 0 then 0
    else if PP[i - 1] == '1' then Add(ReducedBits(i - 1), Exp(i - 1))
    else ReducedBits(i - 1)
  }

  lemma {:induction false} SmallPowers(i: nat)
    requires i < 8
    ensures Exp(i) == Pow2(i) <= 128
    ensures i < 7 ==> Pow2(i) <= 64
  {
    if i > 0 { SmallPowers(i - 1); }
    assert Pow2(0) == 1 && Pow2(1) == 2 && Pow2(2) == 4 && Pow2(3) == 8;
    assert Pow2(4) == 16 && Pow2(5) == 32 && Pow2(6) == 64 && Pow2(7) == 128;
  }

  lemma SmallDouble(i: nat)
    requires i < 7
    ensures Exp(i + 1) == 2 * Exp(i)
  {
    SmallPowers(i); SmallPowers(i + 1);
  }

  lemma ReductionSums()
    ensures Add(0, 1) == 1 && Add(1, 4) == 5 && Add(5, 8) == 13 && Add(13, 16) == 29
  {
  }

  lemma EighthPower()
    ensures ReducedBits(8) == 29 == Exp(8)
  {
    SmallPowers(0); SmallPowers(2); SmallPowers(3); SmallPowers(4); SmallPowers(7);
    assert Exp(8) == TimesAlpha(Exp(7));
    AddZero(29);
    ReductionSums();
    hide Shifted, Exp, Add;
    assert PP[0] == '1' && PP[1] == '0' && PP[2] == '1' && PP[3] == '1';
    assert PP[4] == '1' && PP[5] == '0' && PP[6] == '0' && PP[7] == '0';
    assert ReducedBits(0) == 0;
    assert ReducedBits(4) == 13;
  }

  lemma PowerValues(i: nat)
    requires i < 255
    ensures Exp(i) != 0
    ensures forall j: nat :: j < 255 && Exp(j) == Exp(i) ==> j == i
  {
    hide Shifted;
    ShiftedNonzero(1, i);
    forall j: nat | j < 255 && Exp(j) == Exp(i) ensures j == i {
      ExpInjective(i, j);
    }
  }

  /** The exp branch that the source takes for a power with its top bit set. */
  lemma TimesAlphaByMask(b: gf)
    requires b >= 128
    ensures Add(b, 128) < 128
    ensures TimesAlpha(b) == Add(29, 2 * Add(b, 128))
  {
    assert Pow2(7) == 128;
    XorTop(b - 128, 0, 7);
    XorZero(b - 128);
  }

  class Tables {
    const gfExp: array<gf>
    const gfLog: array<int>
    const inverse: array<gf>
    const mulTable: array2<gf>

    ghost predicate Shape() {
      && gfExp.Length == 2 * GF_SIZE && gfLog.Length == 256 && inverse.Length == 256
      && mulTable.Length0 == 256 && mulTable.Length1 == 256
      && gfExp != inverse
    }

    ghost predicate PowersReady()
      reads gfExp, gfLog, inverse
    {
      && Shape()
      && (forall i :: 0 <= i < 2 * GF_SIZE ==> gfExp[i] == Exp(i))
      && gfLog[0] == GF_SIZE
      && (forall a: gf :: a != 0 ==> gfLog[a] == Log(a))
      && (forall a: gf :: inverse[a] == Inverse(a))
    }

    ghost predicate Ready()
      reads gfExp, gfLog, inverse, mulTable
    {
      && PowersReady()
      && (forall a: gf, b: gf :: mulTable[a, b] == Mul(a, b))
    }

    /** A buffer of the caller's is not one of the tables. */
    ghost predicate Apart(a: array<gf>) {
      a != gfExp && a != inverse
    }

    /** The tables start out as static storage. */
    constructor ()
      ensures Shape()
      ensures fresh(gfExp) && fresh(gfLog) && fresh(inverse) && fresh(mulTable)
    {
      gfExp := new gf[2 * GF_SIZE];
      gfLog := new int[256];
      inverse := new gf[256];
      mulTable := new gf[256, 256];
    }

    method FirstPowers()
      requires Shape()
      modifies gfExp, gfLog
      ensures forall j :: 0 <= j <= 8 ==> gfExp[j] == Exp(j) && gfLog[Exp(j)] == j
    {
      hide Exp, Add, Log, Pow2;
      ExpZero();
      var mask: gf := 1;
      gfExp[GF_BITS] := 0;
      for i := 0 to GF_BITS
        invariant i < 8 ==> mask == Exp(i)
        invariant gfExp[8] == ReducedBits(i)
        invariant forall j :: 0 <= j < i ==> gfExp[j] == Exp(j) && gfLog[Exp(j)] == j
      {
        gfExp[i] := mask;
        PowerValues(i);
        gfLog[gfExp[i]] := i;
        if PP[i] == '1' {
          gfExp[GF_BITS] := Add(gfExp[GF_BITS], mask);
        }
        SmallPowers(i);
        mask := 2 * mask % 256;
        if i < 7 { SmallDouble(i); }
      }
      EighthPower();
      PowerValues(8);
      gfLog[gfExp[GF_BITS]] := GF_BITS;
    }

    method RemainingPowers()
      requires Shape()
      requires forall j :: 0 <= j <= 8 ==> gfExp[j] == Exp(j) && gfLog[Exp(j)] == j
      modifies gfExp, gfLog
      ensures forall j :: 0 <= j < 255 ==> gfExp[j] == Exp(j) && gfLog[Exp(j)] == j
    {
      EighthPower();
      var mask: gf := 128;
      for i := GF_BITS + 1 to GF_SIZE
        invariant forall j :: 0 <= j < i ==> gfExp[j] == Exp(j) && gfLog[Exp(j)] == j
      {
        assert Exp(i) == TimesAlpha(Exp(i - 1));
        if gfExp[i - 1] >= mask {
          TimesAlphaByMask(gfExp[i - 1]);
          gfExp[i] := Add(gfExp[GF_BITS], 2 * Add(gfExp[i - 1], mask));
        } else {
          gfExp[i] := 2 * gfExp[i - 1];
        }
        PowerValues(i);
        gfLog[gfExp[i]] := i;
      }
    }

    method ExtendPowers()
      requires Shape()
      requires forall j :: 0 <= j < 255 ==> gfExp[j] == Exp(j)
      modifies gfExp
      ensures forall j :: 0 <= j < 2 * GF_SIZE ==> gfExp[j] == Exp(j)
    {
      hide Exp;
      for i := 0 to GF_SIZE
        invariant forall j :: 0 <= j < 255 + i ==> gfExp[j] == Exp(j)
      {
        gfExp[i + GF_SIZE] := gfExp[i];
        ExpPeriod(i);
      }
    }

    method FillInverse()
      requires Shape()
      requires forall j :: 0 <= j < 2 * GF_SIZE ==> gfExp[j] == Exp(j)
      requires forall a: gf :: a != 0 ==> gfLog[a] == Log(a)
      modifies inverse
      ensures forall a: gf :: inverse[a] == Inverse(a)
    {
      hide Exp;
      inverse[0] := 0;
      inverse[1] := 1;
      InverseOne();
      for i := 2 to GF_SIZE + 1
        invariant forall a: gf :: a < i ==> inverse[a] == Inverse(a)
      {
        inverse[i] := gfExp[GF_SIZE - gfLog[i]];
      }
    }

    method GenerateGf()
      requires Shape()
      modifies gfExp, gfLog, inverse
      ensures PowersReady()
    {
      FirstPowers();
      RemainingPowers();
      gfLog[0] := GF_SIZE;
      hide Exp;
      forall a: gf | a != 0 ensures gfLog[a] == Log(a) {
        PowerValues(Log(a));
        assert gfLog[Exp(Log(a))] == Log(a);
      }
      ExtendPowers();
      FillInverse();
    }

    method InitMulTable()
      requires PowersReady()
      modifies mulTable
      ensures Ready()
    {
      for i := 0 to GF_SIZE + 1
        invariant forall a: gf, b: gf :: 0 < a < i && 0 < b ==> mulTable[a, b] == Mul(a, b)
      {
        for j := 0 to GF_SIZE + 1
          invariant forall a: gf, b: gf :: 0 < a < i && 0 < b ==> mulTable[a, b] == Mul(a, b)
          invariant i > 0 ==> forall b: gf :: 0 < b < j ==> mulTable[i, b] == Mul(i, b)
        {
          var m := Modnn(gfLog[i] + gfLog[j]);
          mulTable[i, j] := gfExp[m];
          if i > 0 && j > 0 { ProductEntry(i, j); }
        }
      }
      for j := 0 to GF_SIZE + 1
        invariant forall a: gf, b: gf :: 0 < a && 0 < b ==> mulTable[a, b] == Mul(a, b)
        invariant forall a: gf :: a < j ==> mulTable[0, a] == 0 && mulTable[a, 0] == 0
      {
        mulTable[j, 0] := 0;
        mulTable[0, j] := 0;
      }
      forall a: gf ensures Mul(a, 0) == 0 && Mul(0, a) == 0 { MulZero(a); }
    }

    method InitFec()
      requires Shape()
      modifies gfExp, gfLog, inverse, mulTable
      ensures Ready()
    {
      GenerateGf();
      InitMulTable();
    }
  }

  lemma InverseOne()
    ensures Inverse(1) == 1
  {
    hide Shifted, Mul;
    MulInverse(1);
    MulOne(Inverse(1));
  }

  lemma ProductEntry(a: gf, b: gf)
    requires a != 0 && b != 0
    ensures Exp((Log(a) + Log(b)) % 255) == Mul(a, b)
  {
    hide Shifted;
    ExpMod(Log(a) + Log(b));
    MulExpExp(Log(a), Log(b));
  }
}
