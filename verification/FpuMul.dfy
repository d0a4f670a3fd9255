/** FMUL.D: the multiplier array, the exponent path and the rounding stage, and how far the result is
    the exact product rounded to nearest even. */
module FpuMul {
  import opened Bits
  import opened Ieee754
  import opened FpuPipeline
  import opened FpuRounding
  import opened RippleAdder
  import opened FpuAddSub
  import opened FpuMultiplier

  /** Exponent of the aligned product; at most zero when the result is subnormal. */
  function ExpAlign(A: F64, B: F64, over: bool, shift: nat): int {
    var expAB := A.exp + B.exp - 1023;
    if over then expAB + 1
    else if A.exp == 0 || B.exp == 0 then expAB - shift + 1
    else expAB - shift
  }

  /** Right shift that turns the aligned significand into a subnormal one. */
  function PostShift(A: F64, B: F64, over: bool, shift: nat, expAlign: int): int {
    if expAlign <= 0 then
      if shift == 0 || over || A.exp == 0 || B.exp == 0 then -expAlign + 1 else -expAlign
    else 0
  }

  /** Result multiplexers. */
  function PackMul(A: F64, B: F64, expAlign: int, mantShort: nat, rnd: bit): F64 {
    var zeroA := A.exp == 0 && A.mant == 0;
    var zeroB := B.exp == 0 && B.mant == 0;
    var nanA := A.exp == EXP_MAX;
    var nanB := B.exp == EXP_MAX;
    var infA := nanA && A.mant == 0;
    var infB := nanB && B.mant == 0;
    var overflow := expAlign >= EXP_MAX;
    var sign: bit :=
      if (infA && zeroB) || (infB && zeroA) then 1
      else if nanA && !infA then Or(A.sign, And(if nanB then 1 else 0, B.sign))
      else if nanB && !infB then B.sign
      else Xor(A.sign, B.sign);
    var exp :=
      if nanA || nanB then EXP_MAX
      else if expAlign < 0 || zeroA || zeroB then 0
      else if overflow then EXP_MAX
      else (expAlign + if mantShort == 0x1F_FFFF_FFFF_FFFF && rnd == 1 then 1 else 0) % 2048;
    var mant :=
      if (infA && B.mant != 0) || (infB && A.mant != 0) || (!nanA && !nanB && overflow) then 0
      else if nanA && !(nanB && B.sign == 1) then QuietBit(A.mant)
      else if nanB then QuietBit(B.mant)
      else (mantShort + rnd) % 0x10_0000_0000_0000;
    F64(sign, exp, mant)
  }

  ghost function Product(A: F64, B: F64): (p: nat)
    requires A.Valid() && B.Valid()
    ensures p < Pow2(W106)
  {
    ProductRange(A.Sig(), B.Sig());
    A.Sig() * B.Sig()
  }

  /** Exponent and scaled significand of the product p of the significands. */
  ghost function MulExp(A: F64, B: F64, p: nat): int
    requires p < Pow2(W106)
  {
    ExpAlign(A, B, p >= Pow2(W105), LeadingShift(p))
  }

  ghost function MulScaled(A: F64, B: F64, p: nat): nat
    requires p < Pow2(W106)
  {
    var post := PostShift(A, B, p >= Pow2(W105), LeadingShift(p), MulExp(A, B, p));
    Shr(Aligned(p), post)
  }

  /** The multiplier on whole numbers. */
  ghost function MulWord(A: F64, B: F64): F64
    requires A.Valid() && B.Valid()
  {
    var p := Product(A, B);
    var v := MulScaled(A, B, p);
    PackMul(A, B, MulExp(A, B, p), Shr(v, W52), RoundUp(v))
  }

  method FMul(A: F64, B: F64) returns (dest: F64)
    requires A.Valid() && B.Valid()
    ensures dest == MulWord(A, B)
  {
    var imulResult, imulShift, imulOverBit := IMul53(A.Sig(), B.Sig());
    ghost var p := Product(A, B);
    var mantAlign := AlignBits(imulResult, imulShift);
    AlignedRange(p);
    TopBitOfProduct(imulResult[..], p);
    var expAlign := ExpAlign(A, B, imulResult[105] == 1, imulShift);
    var postShift := PostShift(A, B, imulResult[105] == 1, imulShift, expAlign);
    var mantPostScale := ShiftRightBits(mantAlign, postShift);
    ShrLess(Aligned(p), postShift);
    var mantShort, rndBit := RoundBits(mantPostScale);
    dest := PackMul(A, B, expAlign, mantShort, rndBit);
  }

  lemma TopBitOfProduct(s: seq<bit>, p: nat)
    requires |s| == 106 && Value(s) == p && p < Pow2(W106)
    ensures s[105] == 1 <==> p >= Pow2(W105)
  {
    ValueBits(s);
    WidthValues();
    LeadingBit(p, W105);
  }

  // ---------- the exact product ----------

  /** Exponent of the exact product above the unit of the operands. */
  function Scale(A: F64, B: F64): nat {
    A.Exp1() - 1 + (B.Exp1() - 1)
  }

  ghost function ExactProduct(A: F64, B: F64): nat
    requires A.Valid() && B.Valid()
  {
    A.Magnitude() * B.Magnitude()
  }

  lemma ProductForm(A: F64, B: F64)
    requires A.Valid() && B.Valid()
    ensures ExactProduct(A, B) == Shl(Product(A, B), Scale(A, B))
  {
    var a, b := A.Exp1() - 1, B.Exp1() - 1;
    ShlTimes(B.Magnitude(), A.Sig(), a);
    ShlTimes(A.Sig(), B.Sig(), b);
    MulCommute(B.Magnitude(), A.Sig());
    MulCommute(A.Sig(), B.Sig());
    ShlShl(Product(A, B), b, a);
  }

  /** r is the exact product rounded to nearest even, with the product of the signs. */
  ghost predicate MulCorrect(A: F64, B: F64, r: F64)
    requires A.Valid() && B.Valid()
  {
    && r.Valid()
    && RoundsTo(ExactProduct(A, B), Pow2(UNIT), r.Code())
    && r.sign == Xor(A.sign, B.sign)
  }

  /** The scaled significand of a subnormal product. */
  ghost function SubnormalProduct(p: nat, c: nat): nat {
    if c >= 1022 then Shl(p, c - 1022) else Shr(p, 1022 - c)
  }

  /** How many product bits are cut off before rounding. */
  ghost function CutBits(p: nat, c: nat, e: int): nat {
    if e <= 0 then (if c >= 1022 then 0 else 1022 - c) else if p >= Pow2(W105) then 1 else 0
  }

  /** The products that are rounded wrongly: either bits cut off turn a non-tie into a tie that is
      resolved downwards, or a subnormal significand is rounded up to 2^52 and the carry is lost. */
  ghost predicate MulRoundsWrong(A: F64, B: F64)
    requires A.Valid() && B.Valid()
  {
    var p, c := Product(A, B), Scale(A, B);
    var e := MulExp(A, B, p);
    var v := MulScaled(A, B, p);
    && e < EXP_MAX
    && ((Low(v, W52) == P51 && Low(p, CutBits(p, c, e)) != 0 && Shr(v, W52) % 2 == 0)
        || (e <= 0 && Shr(v, W52) == P52 - 1 && RoundUp(v) == 1))
  }

  // ---------- the fields of a finite product ----------

  lemma PackedProduct(A: F64, B: F64, e: int, q: nat, rnd: bit)
    requires A.Finite() && B.Finite() && A.Sig() > 0 && B.Sig() > 0
    ensures var r := PackMul(A, B, e, q, rnd);
            && r.Valid() && r.sign == Xor(A.sign, B.sign)
            && (e >= EXP_MAX ==> r.Code() == INF)
            && (1 <= e < EXP_MAX && P52 <= q < P53 ==> r.Code() == CodeOf(e - 1, q) + rnd)
            && (e <= 0 && q < P52 ==> r.Code() == (q + rnd) % 0x10_0000_0000_0000)
  {
    if 1 <= e < EXP_MAX && P52 <= q < P53 {
      PackedCode(e - 1, q, rnd);
    }
  }

  lemma PackedZero(A: F64, B: F64, e: int)
    requires A.Finite() && B.Finite() && (A.Sig() == 0 || B.Sig() == 0)
    ensures var r := PackMul(A, B, e, 0, 0);
            r.Valid() && r.sign == Xor(A.sign, B.sign) && r.Code() == 0
  {
  }

  // ---------- normal and overflowing results ----------

  /** Exponent path of a nonzero product with at least one normal factor. */
  lemma ExponentForm(A: F64, B: F64, p: nat)
    requires A.Finite() && B.Finite() && p == Product(A, B) && p > 0
    ensures p >= Pow2(W105) ==> A.exp > 0 && B.exp > 0 && MulExp(A, B, p) == Scale(A, B) - 1020
    ensures p < Pow2(W105) && (A.exp > 0 || B.exp > 0) ==> MulExp(A, B, p) == Scale(A, B) - 1021 - LeadingShift(p)
    ensures A.exp == 0 && B.exp == 0 ==> MulExp(A, B, p) == -1022 - LeadingShift(p)
    ensures p < Pow2(W105) && A.exp > 0 && B.exp > 0 ==> LeadingShift(p) == 0
  {
    if A.exp == 0 || B.exp == 0 {
      SubnormalFactor(A, B);
    } else if p < Pow2(W105) {
      NormalFactors(A, B);
      LeadingShiftAt(p, W104);
    }
  }

  lemma SubnormalFactor(A: F64, B: F64)
    requires A.Finite() && B.Finite() && (A.exp == 0 || B.exp == 0)
    ensures Product(A, B) < Pow2(W105)
  {
    PowAround52();
    Pow2Add(W52, W53);
    var x, y := if A.exp == 0 then A.Sig() else B.Sig(), if A.exp == 0 then B.Sig() else A.Sig();
    MulCommute(A.Sig(), B.Sig());
    MulMono(y, P53 - 1, x);
    MulCommute(x, y);
    MulMono(x, P52, P53 - 1);
    MulCommute(x, P53 - 1);
    assert P52 * (P53 - 1) < P52 * P53;
  }

  lemma NormalFactors(A: F64, B: F64)
    requires A.Valid() && B.Valid() && A.exp > 0 && B.exp > 0
    ensures Product(A, B) >= Pow2(W104)
  {
    PowAround52();
    Pow2Add(W52, W52);
    MulMono(P52, A.Sig(), B.Sig());
    MulMono(P52, B.Sig(), P52);
  }

  /** The product at exponent e - 1: exact, or with its lowest bit cut off. */
  lemma NormalRepresents(n: nat, p: nat, c: nat, e: nat, v: nat, j: nat, z: nat)
    requires n == Shl(p, c) && e >= 1 && p < Pow2(W106) && p > 0 && v == Aligned(p)
    requires p >= Pow2(W105) ==> e + 1020 == c && j == 1 && z == p
    requires p < Pow2(W105) ==> e + 1021 + LeadingShift(p) == c && j == 0 && z == v
    ensures Represents(n, UNIT, e - 1, W52 + j, z) && v == Shr(z, j)
    ensures Pow2(W104) <= v < Pow2(W105)
  {
    AlignedRange(p);
    ShlShl(p, c, W52 + j);
    if p < Pow2(W105) {
      ShlShl(p, LeadingShift(p), e - 1 + UNIT);
      assert LeadingShift(p) + (e - 1 + UNIT) == c + (W52 + j);
    } else {
      assert e - 1 + UNIT == c + (W52 + j);
    }
  }

  lemma SignificandRange(v: nat)
    requires Pow2(W104) <= v < Pow2(W105)
    ensures P52 <= Shr(v, W52) < P53
  {
    PowAround52();
    ShrAtLeast(v, W52, P52);
    ShrAtLeast(v, W52, P53);
    ShlOfPow(W52, W52);
    ShlOfPow(W53, W52);
  }

  lemma OverflowRounds(n: nat, e: nat, w: nat, z: nat, top: nat)
    requires Represents(n, UNIT, e, w, z) && P52 <= Shr(z, w) < P53 && top == EXP_MAX - 1 <= e
    ensures RoundsTo(n, Pow2(UNIT), INF)
  {
    BracketFrom(n, UNIT, e, w, z);
    ShlMono(P52, Shr(z, w), e + UNIT);
    ShlShl(P52, top + UNIT, e - top);
    ShlGrows(Shl(P52, top + UNIT), e - top);
    MagFormScaled(top, P52, UNIT);
    assert CodeOf(top, P52) == INF;
    RoundOverflow(n, Pow2(UNIT));
  }

  lemma NormalProduct(A: F64, B: F64, n: nat, p: nat, v: nat)
    requires A.Finite() && B.Finite() && p == Product(A, B) && p > 0 && MulExp(A, B, p) >= 1
    requires n == Shl(p, Scale(A, B)) && v == MulScaled(A, B, p)
    ensures A.Sig() > 0 && B.Sig() > 0 && P52 <= Shr(v, W52) < P53
    ensures MulExp(A, B, p) >= EXP_MAX ==> RoundsTo(n, Pow2(UNIT), INF)
    ensures MulExp(A, B, p) < EXP_MAX ==>
              (RoundsTo(n, Pow2(UNIT), CodeOf(MulExp(A, B, p) - 1, Shr(v, W52)) + RoundUp(v)) <==>
               !MulRoundsWrong(A, B))
  {
    var e, c := MulExp(A, B, p), Scale(A, B);
    var j := if p >= Pow2(W105) then 1 else 0;
    var z := if p >= Pow2(W105) then p else v;
    FactorsPositive(A, B);
    ExponentForm(A, B, p);
    assert v == Shr(Aligned(p), 0) == Aligned(p);
    NormalRepresents(n, p, c, e, v, j, z);
    SignificandRange(v);
    if e >= EXP_MAX {
      ShrShr(z, j, W52);
      OverflowRounds(n, e - 1, W52 + j, z, EXP_MAX - 1);
    } else {
      RoundTruncated(n, UNIT, e - 1, j, z, v);
      assert Low(z, 0) == 0 == Low(p, 0);
    }
  }

  lemma FactorsPositive(A: F64, B: F64)
    requires A.Valid() && B.Valid()
    ensures Product(A, B) > 0 <==> A.Sig() > 0 && B.Sig() > 0
  {
    if A.Sig() > 0 && B.Sig() > 0 {
      MulMono(1, A.Sig(), B.Sig());
    }
  }

  // ---------- subnormal results ----------

  lemma SubnormalForm(A: F64, B: F64, p: nat)
    requires A.Finite() && B.Finite() && p == Product(A, B) && p > 0 && MulExp(A, B, p) <= 0
    ensures MulScaled(A, B, p) == SubnormalProduct(p, Scale(A, B)) < Pow2(W104)
  {
    var c, r := Scale(A, B), LeadingShift(p);
    var e := MulExp(A, B, p);
    ExponentForm(A, B, p);
    AlignedRange(p);
    assert MulScaled(A, B, p) == Shr(Aligned(p), 1 - e);
    ShrLess(Aligned(p) / 2, -e);
    if p >= Pow2(W105) {
      ShrShr(p, 1, 1 - e);
    } else if A.exp == 0 && B.exp == 0 {
      TinyProduct(p, r);
    } else {
      ShiftedBack(p, c, r, e);
    }
  }

  lemma ShiftedBack(p: nat, c: nat, r: nat, e: int)
    requires e == c - 1021 - r && e <= 0
    ensures Shr(Shl(p, r), 1 - e) == SubnormalProduct(p, c)
  {
    ShrOfShl(p, r, 1 - e);
  }

  /** The product of two subnormals is far below half of the smallest subnormal. */
  lemma TinyProduct(p: nat, r: nat)
    requires p < Pow2(W106)
    ensures Shr(Shl(p, r), 1023 + r) == 0 == Shr(p, 1022)
  {
    ShrOfShl(p, r, 1023 + r);
    WidthValues();
    var a, b := W106 + 916, W106 + 917;
    Pow2Mono(W106, a);
    Pow2Mono(W106, b);
    ShrLess(p, a);
    ShrLess(p, b);
  }

  lemma SubnormalRepresents(n: nat, p: nat, c: nat, v: nat, j: nat, z: nat)
    requires n == Shl(p, c) && v == SubnormalProduct(p, c)
    requires c >= 1022 ==> j == 0 && z == v
    requires c < 1022 ==> j == 1022 - c && z == p
    ensures Represents(n, UNIT, 0, W52 + j, z) && v == Shr(z, j)
  {
    ShlShl(p, c, W52 + j);
    if c >= 1022 {
      ShlShl(p, c - 1022, UNIT);
      assert (c - 1022) + UNIT == c + (W52 + j);
    } else {
      assert UNIT == c + (W52 + j);
    }
  }

  lemma SubnormalResult(A: F64, B: F64, n: nat, p: nat, v: nat)
    requires A.Finite() && B.Finite() && p == Product(A, B) && p > 0 && MulExp(A, B, p) <= 0
    requires n == Shl(p, Scale(A, B)) && v == MulScaled(A, B, p)
    ensures Shr(v, W52) < P52
    ensures RoundsTo(n, Pow2(UNIT), (Shr(v, W52) + RoundUp(v)) % 0x10_0000_0000_0000) <==> !MulRoundsWrong(A, B)
  {
    var c := Scale(A, B);
    var j := if c >= 1022 then 0 else 1022 - c;
    var z := if c >= 1022 then v else p;
    SubnormalForm(A, B, p);
    SubnormalRepresents(n, p, c, v, j, z);
    PowAround52();
    ShrAtLeast(v, W52, P52);
    ShlOfPow(W52, W52);
    RoundSubnormal(n, j, z, v);
    assert Low(p, 0) == Low(v, 0);
  }

  lemma RoundSubnormal(n: nat, j: nat, z: nat, v: nat)
    requires Represents(n, UNIT, 0, W52 + j, z) && v == Shr(z, j) && Shr(v, W52) < P52
    ensures RoundsTo(n, Pow2(UNIT), (Shr(v, W52) + RoundUp(v)) % 0x10_0000_0000_0000) <==>
            !((Low(v, W52) == P51 && Low(z, j) != 0 && Shr(v, W52) % 2 == 0)
              || (Shr(v, W52) == P52 - 1 && RoundUp(v) == 1))
  {
    var q, rnd := Shr(v, W52), RoundUp(v);
    FieldOf(q, rnd);
    if q + rnd < P52 {
      RoundTruncated(n, UNIT, 0, j, z, v);
      assert CodeOf(0, q) + rnd == q + rnd;
    } else {
      LostCarry(n, j, z, v);
    }
  }

  lemma LostCarry(n: nat, j: nat, z: nat, v: nat)
    requires Represents(n, UNIT, 0, W52 + j, z) && v == Shr(z, j) && Shr(v, W52) == P52 - 1
    ensures !RoundsTo(n, Pow2(UNIT), 0)
  {
    ShrShr(z, j, W52);
    BracketFrom(n, UNIT, 0, W52 + j, z);
    RoundBracketedAbove(n, UNIT, 0, P52 - 1, 0);
  }

  // ---------- the theorem ----------

  lemma ZeroProduct(d: nat)
    requires d > 0
    ensures RoundsTo(0, d, 0)
  {
    MidpointsDecide(0, d, 0);
  }

  /** FMUL.D on every pair of finite operands: the result is the exact product rounded to nearest even
      if and only if the operands are outside the family `MulRoundsWrong`. */
  lemma MulRounding(A: F64, B: F64)
    requires A.Finite() && B.Finite()
    ensures MulCorrect(A, B, MulWord(A, B)) <==> !MulRoundsWrong(A, B)
  {
    var p, n := Product(A, B), ExactProduct(A, B);
    var e, v := MulExp(A, B, p), MulScaled(A, B, p);
    ProductForm(A, B);
    FactorsPositive(A, B);
    if p == 0 {
      ZeroCase(A, B, e);
    } else {
      PackedProduct(A, B, e, Shr(v, W52), RoundUp(v));
      if e >= 1 {
        NormalProduct(A, B, n, p, v);
      } else {
        SubnormalResult(A, B, n, p, v);
      }
    }
  }

  lemma ZeroCase(A: F64, B: F64, e: int)
    requires A.Finite() && B.Finite() && Product(A, B) == 0 && e == MulExp(A, B, 0)
    ensures MulCorrect(A, B, MulWord(A, B)) && !MulRoundsWrong(A, B)
  {
    FactorsPositive(A, B);
    ProductForm(A, B);
    ShlPow(0, Scale(A, B));
    AlignedRange(0);
    ShrLess(0, PostShift(A, B, false, LeadingShift(0), e));
    ShrLess(0, W52);
    LowBound(0, W52);
    PackedZero(A, B, e);
    ZeroProduct(Pow2(UNIT));
  }

  // ---------- what the exceptions look like ----------

  lemma TieForm(p: nat)
    ensures Low(Shr(p, 1), W52) == P51 && Low(p, 1) != 0 && Shr(Shr(p, 1), W52) % 2 == 0
            <==> Low(p, W52 + 2) == P52 + 1
  {
    var v := Shr(p, 1);
    LowSplit(p, 1, W53);
    assert 1 + W53 == W52 + 2;
    assert Shl(Low(v, W53), 1) == 2 * Shl(Low(v, W53), 0) == 2 * Low(v, W53);
    assert Low(p, 1) == p % 2;
    LowStep(v, W52);
    BitOfShr(v, W52, 0);
    LowBound(v, W52);
    PowAround52();
  }

  /** A normal result is wrong exactly when the product of the significands reaches bit 105 and its low
      54 bits are 2^52 + 1: one more than an exact tie, with an even significand above it. */
  lemma NormalExceptions(A: F64, B: F64)
    requires A.Finite() && B.Finite() && 1 <= MulExp(A, B, Product(A, B)) < EXP_MAX
    ensures MulRoundsWrong(A, B) <==>
            Product(A, B) >= Pow2(W105) && Low(Product(A, B), W52 + 2) == P52 + 1
  {
    var p := Product(A, B);
    TieForm(p);
    assert Low(p, 0) == 0;
    assert MulScaled(A, B, p) == Shr(Aligned(p), 0) == Aligned(p);
  }

  /** A subnormal result, which has c bits of scale less than 1022, is wrong exactly when the low bits of the
      product lie above a tie by less than one unit of the kept fraction, or the product is at least half
      of a last place below the smallest normal number. */
  lemma SubnormalExceptions(A: F64, B: F64, p: nat, c: nat)
    requires A.Finite() && B.Finite() && p == Product(A, B) && c == Scale(A, B) && p > 0 && MulExp(A, B, p) <= 0
    ensures c < 1022 ==>
              (MulRoundsWrong(A, B) <==>
               || Shl(P51, 1022 - c) < Low(p, 1022 - c + W53) < Shl(P51 + 1, 1022 - c)
               || p >= Shl(CarryLimit(), 1022 - c))
    ensures c >= 1022 ==> (MulRoundsWrong(A, B) <==> Shl(p, c - 1022) >= CarryLimit())
  {
    SubnormalForm(A, B, p);
    CarriesOut(MulScaled(A, B, p));
    EvenTie(MulScaled(A, B, p));
    if c < 1022 {
      TieBand(p, 1022 - c);
      ShrAtLeast(p, 1022 - c, CarryLimit());
    }
  }

  // ---------- infinities ----------

  /** The product of operands of which one is infinite or a NaN: a NaN if one is, or for infinity times zero. */
  predicate SpecialProduct(A: F64, B: F64, r: F64) {
    if A.IsNaN() || B.IsNaN() || A.Sig() == 0 || B.Sig() == 0 then r.IsNaN()
    else r == F64(Xor(A.sign, B.sign), EXP_MAX, 0)
  }

  /** Infinity times f comes out right. */
  predicate InfiniteTimes(f: F64) {
    f.Finite() && (f.mant != 0 || f.exp == 0)
  }

  /** FMUL.D on operands of which one is not finite is right exactly if none is infinite, or the other one is finite
      and either zero or no power of two: infinity times 2 and infinity squared come out as a NaN, and infinity
      times a NaN as infinity. */
  lemma MulSpecial(A: F64, B: F64)
    requires A.Valid() && B.Valid() && !(A.Finite() && B.Finite())
    ensures SpecialProduct(A, B, MulWord(A, B)) <==>
            && (A.exp == EXP_MAX && A.mant == 0 ==> InfiniteTimes(B))
            && (B.exp == EXP_MAX && B.mant == 0 ==> InfiniteTimes(A))
  {
    var p := Product(A, B);
    var v := MulScaled(A, B, p);
    PackedSpecial(A, B, MulExp(A, B, p), Shr(v, W52), RoundUp(v));
  }

  lemma PackedSpecial(A: F64, B: F64, e: int, q: nat, rnd: bit)
    requires A.Valid() && B.Valid() && !(A.Finite() && B.Finite())
    ensures SpecialProduct(A, B, PackMul(A, B, e, q, rnd)) <==>
            && (A.exp == EXP_MAX && A.mant == 0 ==> InfiniteTimes(B))
            && (B.exp == EXP_MAX && B.mant == 0 ==> InfiniteTimes(A))
  {
    QuietIsNotZero(A.mant);
    QuietIsNotZero(B.mant);
  }

  /** 0x3FFFFFFFFFFFFFF7 * 0x3FF71C71C71C71C7, as bit patterns, is rounded down instead of up. */
  lemma RoundedDownExample()
    ensures var A, B := F64(0, 1023, 0xF_FFFF_FFFF_FFF7), F64(0, 1023, 0x7_1C71_C71C_71C7);
            A.Finite() && B.Finite() && MulRoundsWrong(A, B) && !MulCorrect(A, B, MulWord(A, B))
  {
    var A, B := F64(0, 1023, 0xF_FFFF_FFFF_FFF7), F64(0, 1023, 0x7_1C71_C71C_71C7);
    var p := Product(A, B);
    assert p == 0x2_E38E_38E3_8E38_1000_0000_0000_01;
    PowAround52();
    Pow2Add(W52, W53);
    assert p >= Pow2(W105);
    assert Pow2(W52 + 2) == 4 * Pow2(W52) by { Pow2Add(W52, 2); }
    ShlPow(0xB8E3_8E38_E38E0, W52 + 2);
    SplitUnique(p, W52 + 2, 0xB8E3_8E38_E38E0, P52 + 1);
    NormalExceptions(A, B);
    MulRounding(A, B);
  }

  /** Half of the largest number below 2^-1021 should round to 2^-1022, the smallest normal number;
      the unit returns zero. */
  lemma HalvedToZeroExample()
    ensures var A, B := F64(0, 1, P52 - 1), F64(0, 1022, 0);
            A.Finite() && B.Finite() && MulRoundsWrong(A, B) && !MulCorrect(A, B, MulWord(A, B))
  {
    var A, B := F64(0, 1, P52 - 1), F64(0, 1022, 0);
    var p := Product(A, B);
    PowAround52();
    ShlPow(P53 - 1, W52);
    assert p == Shl(P53 - 1, W52);
    NormalFactors(A, B);
    Pow2Add(W53, W52);
    ExponentForm(A, B, p);
    SubnormalForm(A, B, p);
    ShrOfShl(P53 - 1, W52, 1);
    ShlPow(P53 - 1, W51);
    ShlPow(P52 - 1, W52);
    SplitUnique(Shr(p, 1), W52, P52 - 1, P51);
    MulRounding(A, B);
  }
}
