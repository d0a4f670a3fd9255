/** `AddSubCompare`: addition, subtraction, comparison and selection of double-precision operands.

    The method works on bit arrays as the hardware does; the functions above it say what each of its
    steps computes on whole numbers. */
module FpuAddSub {
  import opened Bits
  import opened Ieee754
  import opened FpuPipeline
  import opened RippleAdder

  datatype Selection = Selection(preShift: nat, expMore: nat, mantMore: nat, mantLess: nat,
                                 signOpMore: bit, flEqual: bit, flLess: bit, flMore: bit)

  function ExpDif(A: F64, B: F64): int {
    if A.exp != 0 && B.exp == 0 then A.exp - 1
    else if A.exp == 0 && B.exp != 0 then 1 - B.exp
    else A.exp - B.exp
  }

  /** Order the operands by magnitude and derive the comparison flags. */
  function Select(A: F64, B: F64, signOp: bit): (s: Selection)
    requires A.Valid() && B.Valid()
    ensures s.mantMore < P53 && s.mantLess < P53 && s.expMore <= EXP_MAX
    ensures s.preShift > 0 ==> s.mantMore >= P52
    ensures s.preShift == 0 ==> s.mantMore >= s.mantLess
    ensures s.expMore != 0 ==> s.mantMore >= P52
    ensures s.expMore == 0 ==> s.preShift == 0 && s.mantMore < P52
  {
    var signOpB := Xor(B.sign, signOp);
    var expDif := ExpDif(A, B);
    if expDif > 0 then
      Selection(expDif, A.exp, A.Sig(), B.Sig(), A.sign, 0, A.sign, Not(A.sign))
    else if expDif == 0 then
      if A.Sig() == B.Sig() then
        Selection(0, A.exp, A.Sig(), B.Sig(), A.sign, Not(Xor(A.sign, B.sign)),
                  And(A.sign, Xor(A.sign, B.sign)), And(Not(A.sign), Xor(A.sign, B.sign)))
      else if A.Sig() > B.Sig() then
        Selection(0, A.exp, A.Sig(), B.Sig(), A.sign, 0, A.sign, Not(A.sign))
      else
        Selection(0, B.exp, B.Sig(), A.Sig(), signOpB, 0, Not(B.sign), B.sign)
    else
      Selection(-expDif, B.exp, B.Sig(), A.Sig(), signOpB, 0, Not(B.sign), B.sign)
  }

  /** The smaller significand, moved to the scale of the larger one; low bits fall off. */
  ghost function ScaledLess(s: Selection): nat {
    Shr(Shl(s.mantLess, W52), s.preShift)
  }

  predicate Ordered(s: Selection) {
    && s.mantMore < P53 && s.mantLess < P53
    && (s.preShift > 0 ==> s.mantMore >= P52)
    && (s.preShift == 0 ==> s.mantMore >= s.mantLess)
  }

  lemma WideRange(m: nat)
    requires m < P53
    ensures Shl(m, W52) < Pow2(W105)
    ensures m >= P52 ==> Shl(m, W52) >= Pow2(W104)
  {
    PowAround52();
    assert W53 + W52 == W105 && W52 + W52 == W104;
    ShlAgainstPow(m, W53, W52);
    ShlAgainstPow(m, W52, W52);
  }

  lemma ShlAgainstPow(m: nat, a: nat, k: nat)
    ensures m < Pow2(a) <==> Shl(m, k) < Pow2(a + k)
  {
    ShlCompare(m, Pow2(a), k);
    ShlOfPow(a, k);
  }

  lemma ScaledLessRange(s: Selection)
    requires Ordered(s)
    ensures ScaledLess(s) <= Shl(s.mantMore, W52) < Pow2(W105)
    ensures s.preShift > 105 ==> ScaledLess(s) == 0
  {
    WideRange(s.mantMore);
    WideRange(s.mantLess);
    var x := Shl(s.mantLess, W52);
    if s.preShift > 0 {
      ShrLess(x / 2, s.preShift - 1);
    } else {
      ShlMono(s.mantLess, s.mantMore, W52);
    }
    WidthValues();
    if s.preShift > 105 {
      Pow2Mono(W105, s.preShift);
      ShrLess(x, s.preShift);
    }
  }

  ghost function SumOf(s: Selection, diff: bool): (v: nat)
    requires Ordered(s)
    ensures v < Pow2(W106)
  {
    ScaledLessRange(s);
    assert Pow2(W106) == 2 * Pow2(W105);
    if diff then Shl(s.mantMore, W52) - ScaledLess(s) else Shl(s.mantMore, W52) + ScaledLess(s)
  }

  /** Exponent of the result; negative when the significand must be shifted back to subnormal. */
  function ExpPostScale(expMore: nat, lshift: nat, diff: bool): int {
    var e := if lshift == 0x7F then (if expMore == EXP_MAX then expMore else expMore + 1)
             else if expMore == 0 && lshift == 0 then 1 else expMore - lshift;
    if diff && expMore != 0 && e <= 0 then e - 1 else e
  }

  ghost function PostScaled(sum: nat, e: int): nat
    requires sum < Pow2(W106)
  {
    if e >= 0 then Aligned(sum) else Shr(Aligned(sum), -e)
  }

  /** Exponent field of a finite sum: a significand of all ones carries into it when rounded up. */
  function FiniteExp(e: int, mantShort: nat, rnd: bit, sumZero: bool): (x: nat)
    ensures x < 2048
  {
    if e < 0 || sumZero then 0
    else (e + if mantShort == 0x1F_FFFF_FFFF_FFFF && rnd == 1 && e != EXP_MAX then 1 else 0) % 2048
  }

  /** Fraction field of a finite sum; the hidden bit drops out of the 52-bit field. */
  function FiniteMant(e: int, mantShort: nat, rnd: bit): (m: nat)
    ensures m < P52
  {
    if e == EXP_MAX then 0 else (mantShort + rnd) % 0x10_0000_0000_0000
  }

  /** Result multiplexers. */
  function PackAdd(A: F64, B: F64, signOp: bit, signOpMore: bit, e: int,
                   mantShort: nat, rnd: bit, sumZero: bool): F64 {
    var signOpB := Xor(B.sign, signOp);
    var nanA := if A.exp == EXP_MAX then 1 else 0;
    var nanB := if B.exp == EXP_MAX then 1 else 0;
    var bothInf := nanA == 1 && A.mant == 0 && nanB == 1 && B.mant == 0;
    var allZero := A.exp == 0 && A.mant == 0 && B.exp == 0 && B.mant == 0;
    var sign: bit :=
      if bothInf && signOp == 1 then Xor(A.sign, signOpB)
      else if nanA == 1 then Or(A.sign, And(nanB, signOpB))
      else if nanB == 1 then Xor(signOpB, And(signOp, if B.mant != 0 then 1 else 0))
      else if allZero then And(A.sign, signOpB)
      else if sumZero then 0
      else signOpMore;
    var exp :=
      if nanA == 1 || nanB == 1 then EXP_MAX
      else FiniteExp(e, mantShort, rnd, sumZero);
    var mant :=
      if bothInf then (if signOp == 1 then P51 else 0)
      else if nanA == 1 && !(nanB == 1 && signOpB == 1) then QuietBit(A.mant)
      else if nanB == 1 then QuietBit(B.mant)
      else FiniteMant(e, mantShort, rnd);
    F64(sign, exp, mant)
  }

  /** mant | 2^51 */
  function QuietBit(mant: nat): nat {
    if (mant / 0x8_0000_0000_0000) % 2 == 1 then mant else mant + P51
  }

  lemma QuietIsNotZero(mant: nat)
    ensures QuietBit(mant) != 0
  {
  }

  /** The adder on whole numbers. */
  ghost function AddSubWord(A: F64, B: F64, signOp: bit): F64
    requires A.Valid() && B.Valid()
  {
    var s := Select(A, B, signOp);
    var diff := A.sign != Xor(B.sign, signOp);
    var sum := SumOf(s, diff);
    var e := ExpPostScale(s.expMore, LeadingShift(sum), diff);
    var v := PostScaled(sum, e);
    PackAdd(A, B, signOp, s.signOpMore, e, Shr(v, W52), RoundUp(v), v == 0)
  }

  // ---------- the bit-level unit ----------

  /** {1'b0, mant, 52'b0} as 106 bits. */
  method Widen(mant: nat) returns (w: array<bit>)
    requires mant < P53
    ensures w.Length == 106 && Value(w[..]) == Shl(mant, W52)
  {
    w := new bit[106];
    for i := 0 to 52
      invariant forall j :: 0 <= j < i ==> w[j] == 0
    {
      w[i] := 0;
    }
    for i := 52 to 105
      invariant forall j :: 0 <= j < 52 ==> w[j] == 0
      invariant forall j :: 52 <= j < i ==> w[j] == Bit(mant, j - 52)
    {
      w[i] := Bit(mant, i - 52);
    }
    w[105] := 0;
    WidenedValue(w[..], mant);
  }

  lemma WidenedValue(w: seq<bit>, mant: nat)
    requires |w| == 106 && mant < P53
    requires forall j :: 0 <= j < 52 ==> w[j] == 0
    requires forall j :: 52 <= j < 105 ==> w[j] == Bit(mant, j - 52)
    requires w[105] == 0
    ensures Value(w) == Shl(mant, W52)
  {
    WidthValues();
    forall i | 0 <= i < 106 ensures w[i] == Bit(Shl(mant, W52), i) {
      BitOfShl(mant, W52, i);
      if i == 105 {
        PowAround52();
        BitAbove(mant, W53, W53);
      }
    }
    WideRange(mant);
    Pow2Mono(W105, W106);
    ValueIs(w, Shl(mant, W52));
  }

  /** The leading one of s lies below its r topmost bits. */
  ghost predicate UpperClear(s: seq<bit>, r: nat)
    requires |s| == 106
  {
    r <= 105 && Value(s) == Value(s[..105 - r])
  }

  lemma ScanTop(s: seq<bit>)
    requires |s| == 106 && Value(s) < Pow2(W106)
    ensures s[105] == 1 ==> LeadingShift(Value(s)) == 0x7F
    ensures s[105] == 0 ==> UpperClear(s, 0)
  {
    WidthValues();
    assert Value(s) == Value(s[..105]) + BitAt(s[105], 105);
  }

  lemma ScanStep(s: seq<bit>, r: nat)
    requires |s| == 106 && Value(s) < Pow2(W106) && r <= 104 && UpperClear(s, r)
    ensures s[104 - r] == 1 ==> LeadingShift(Value(s)) == r
    ensures s[104 - r] == 0 ==> UpperClear(s, r + 1)
  {
    WidthValues();
    var p := W104 - r;
    assert s[..p + 1][..p] == s[..p];
    ValueBound(s[..p], p);
    if s[p] == 1 {
      LeadingShiftAt(Value(s), p);
    }
  }

  lemma ScanEnd(s: seq<bit>)
    requires |s| == 106 && Value(s) < Pow2(W106) && UpperClear(s, 104)
    ensures LeadingShift(Value(s)) == 104
  {
    ValueBound(s[..1], 1);
    WidthValues();
    if Value(s) > 0 {
      LeadingShiftAt(Value(s), 0);
    }
  }

  /** Count down from bit 105 to the first set bit. */
  method LeadingOne(mantSum: array<bit>) returns (rbLShift: nat)
    requires mantSum.Length == 106 && Value(mantSum[..]) < Pow2(W106)
    ensures rbLShift == LeadingShift(Value(mantSum[..]))
  {
    ScanTop(mantSum[..]);
    if mantSum[105] == 1 {
      return 0x7F;
    }
    rbLShift := 104;
    for i := 0 to 104
      invariant rbLShift == 104
      invariant UpperClear(mantSum[..], i)
    {
      ScanStep(mantSum[..], i);
      if mantSum[104 - i] == 1 {
        rbLShift := i;
        return;
      }
    }
    ScanEnd(mantSum[..]);
  }

  /** Align the smaller operand and add or subtract. */
  method SumBits(s: Selection, diff: bool) returns (mantSum: array<bit>, carryOut: bit)
    requires Ordered(s)
    ensures mantSum.Length == 106 && Value(mantSum[..]) == SumOf(s, diff)
    ensures carryOut == 0
  {
    var wbMantMore := Widen(s.mantMore);
    var mantLessScale := ScaleBits(s);
    mantSum, carryOut := RippleAddSub(wbMantMore, mantLessScale, diff);
    ValueBound(mantSum[..], mantSum.Length);
    NoCarryOut(s, diff, Value(mantSum[..]), carryOut, mantSum.Length);
  }

  lemma NoCarryOut(s: Selection, diff: bool, sum: nat, carry: bit, n: nat)
    requires Ordered(s) && n == 106 && sum < Pow2(n)
    requires Balanced(Shl(s.mantMore, W52), ScaledLess(s), sum, carry, n, diff)
    ensures sum == SumOf(s, diff) && carry == 0
  {
    WidthValues();
    ScaledLessRange(s);
    assert Pow2(W106) == 2 * Pow2(W105);
  }

  method ScaleBits(s: Selection) returns (mantLessScale: array<bit>)
    requires Ordered(s)
    ensures mantLessScale.Length == 106 && Value(mantLessScale[..]) == ScaledLess(s)
  {
    var wbMantLessWidth := Widen(s.mantLess);
    if s.preShift > 105 {
      mantLessScale := Widen(0);
      ShlPow(0, W52);
      ScaledLessRange(s);
    } else {
      mantLessScale := ShiftRightBits(wbMantLessWidth, s.preShift);
    }
  }

  /** A result below the normal range is shifted back. */
  method ScaleBack(mantAlign: array<bit>, e: int) returns (mantPostScale: array<bit>)
    ensures mantPostScale.Length == mantAlign.Length
    ensures Value(mantPostScale[..]) == if e < 0 then Shr(Value(mantAlign[..]), -e) else Value(mantAlign[..])
    ensures Value(mantPostScale[..]) <= Value(mantAlign[..])
  {
    mantPostScale := mantAlign;
    if e < 0 {
      mantPostScale := ShiftRightBits(mantAlign, -e);
      ShrLess(Value(mantAlign[..]), -e);
    }
  }

  /** The significand path: add, normalize, scale a subnormal result back, round. */
  method AddSignificands(s: Selection, diff: bool)
    returns (expPostScale: int, mantShort: nat, rndBit: bit, sumZero: bool)
    requires Ordered(s)
    ensures var sum := SumOf(s, diff);
            var e := ExpPostScale(s.expMore, LeadingShift(sum), diff);
            var v := PostScaled(sum, e);
            expPostScale == e && mantShort == Shr(v, W52) && rndBit == RoundUp(v) && sumZero == (v == 0)
  {
    var mantSum, _ := SumBits(s, diff);
    var rbLShift := LeadingOne(mantSum);
    var mantAlign := AlignBits(mantSum, rbLShift);
    expPostScale := ExpPostScale(s.expMore, rbLShift, diff);
    AlignedRange(Value(mantSum[..]));
    var mantPostScale := ScaleBack(mantAlign, expPostScale);
    mantShort, rndBit := RoundBits(mantPostScale);
    var any := AnyBit(mantPostScale);
    sumZero := !any;
  }

  /** FADD.D, FSUB.D, FEQ.D, FLT.D, FLE.D, FMAX.D and FMIN.D, selected by the enable inputs.
      A comparison delivers 0 or 1 as an integer, which is the word with that fraction field. */
  method AddSubCompare(addEna: bit, subEna: bit, cmpEna: bit, equalEna: bit, moreEna: bit, lessEna: bit,
                       A: F64, B: F64) returns (fres: F64, except: bit)
    requires A.Valid() && B.Valid()
    ensures fres == AddSubCompareWord(subEna, cmpEna, equalEna, moreEna, lessEna, A, B)
    ensures except == AddSubException(A, B, Or(subEna, cmpEna))
  {
    var signOp := Or(subEna, cmpEna);
    var signOpB := Xor(B.sign, signOp);
    var s := Select(A, B, signOp);
    var expPostScale, mantShort, rndBit, sumZero := AddSignificands(s, A.sign != signOpB);
    var special := A.exp == EXP_MAX || B.exp == EXP_MAX;
    if cmpEna == 1 {
      fres := F64(0, 0, Or(And(equalEna, s.flEqual), Or(And(moreEna, s.flMore), And(lessEna, s.flLess))));
    } else if moreEna == 1 {
      fres := if special then B else if s.flMore == 1 then A else B;
    } else if lessEna == 1 {
      fres := if special then B else if s.flLess == 1 then A else B;
    } else {
      fres := PackAdd(A, B, signOp, s.signOpMore, expPostScale, mantShort, rndBit, sumZero);
    }
    except := if special || expPostScale == EXP_MAX then 1 else 0;
  }

  ghost function AddSubCompareWord(subEna: bit, cmpEna: bit, equalEna: bit, moreEna: bit, lessEna: bit,
                             A: F64, B: F64): F64
    requires A.Valid() && B.Valid()
  {
    var signOp := Or(subEna, cmpEna);
    var s := Select(A, B, signOp);
    var special := A.exp == EXP_MAX || B.exp == EXP_MAX;
    if cmpEna == 1 then
      F64(0, 0, Or(And(equalEna, s.flEqual), Or(And(moreEna, s.flMore), And(lessEna, s.flLess))))
    else if moreEna == 1 then (if !special && s.flMore == 1 then A else B)
    else if lessEna == 1 then (if !special && s.flLess == 1 then A else B)
    else AddSubWord(A, B, signOp)
  }

  /** The exception output: a special operand, or a result exponent that reaches the maximum. */
  ghost function AddSubException(A: F64, B: F64, signOp: bit): bit
    requires A.Valid() && B.Valid()
  {
    var s, diff := Select(A, B, signOp), A.sign != Xor(B.sign, signOp);
    if A.exp == EXP_MAX || B.exp == EXP_MAX
       || ExpPostScale(s.expMore, LeadingShift(SumOf(s, diff)), diff) == EXP_MAX then 1 else 0
  }
}
