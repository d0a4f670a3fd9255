/** FADD.D and FSUB.D against roundTiesToEven: for every pair of finite operands the result is the
    exact sum correctly rounded, except for one family of operands whose alignment shift is 53 or 54. */
module FpuAddSubRounding {
  import opened Bits
  import opened Ieee754
  import opened FpuPipeline
  import opened FpuRounding
  import opened RippleAdder
  import opened FpuAddSub

  const P50: nat := 0x4_0000_0000_0000

  // ---------- the claim ----------

  /** A + B, or A - B, in units of 2^-1074. */
  function ExactSum(A: F64, B: F64, signOp: bit): int {
    A.Number() + (if signOp == 1 then -B.Number() else B.Number())
  }

  /** r is the number x rounded to nearest even; an exact zero takes the given sign. */
  ghost predicate CorrectlyRounded(x: int, zeroSign: bit, r: F64) {
    && r.Valid()
    && RoundsTo(Abs(x), 1, r.Code())
    && r.sign == (if x < 0 then 1 else if x > 0 then 0 else zeroSign)
  }

  /** The operands for which bits lost in the alignment turn a non-tie into a tie. */
  predicate LosesTie(s: Selection, diff: bool) {
    if !diff then
      s.preShift == 53 && s.mantLess == P52 + 1 && s.mantMore % 2 == 0
    else if s.mantMore != P52 then
      s.preShift == 53 && s.mantLess == P52 + 1 && s.mantMore % 2 == 0
    else
      (s.preShift == 53 && s.mantLess == P51 + 1) || (s.preShift == 54 && P52 < s.mantLess < P52 + 4)
  }

  predicate Diff(A: F64, B: F64, signOp: bit) {
    A.sign != Xor(B.sign, signOp)
  }

  // ---------- the exact sum in terms of the selected operands ----------

  /** Exponent of the larger operand, counted from the subnormal exponent. */
  function Base(s: Selection): nat {
    if s.expMore == 0 then 0 else s.expMore - 1
  }

  predicate FiniteSelection(s: Selection) {
    Ordered(s) && s.expMore < EXP_MAX && s.preShift <= Base(s)
    && (s.expMore == 0 <==> s.mantMore < P52)
  }

  function MagMore(s: Selection): nat {
    Shl(s.mantMore, Base(s))
  }

  function MagLess(s: Selection): nat
    requires s.preShift <= Base(s)
  {
    Shl(s.mantLess, Base(s) - s.preShift)
  }

  function ExactMagnitude(s: Selection, diff: bool): nat
    requires FiniteSelection(s)
  {
    LessIsLess(s);
    if diff then MagMore(s) - MagLess(s) else MagMore(s) + MagLess(s)
  }

  lemma LessIsLess(s: Selection)
    requires FiniteSelection(s)
    ensures MagLess(s) <= MagMore(s)
  {
    var b, k := Base(s) - s.preShift, s.preShift;
    ShlShl(s.mantMore, k, b);
    if k == 0 {
      ShlMono(s.mantLess, s.mantMore, b);
    } else {
      ShlMono(P52, s.mantMore, k);
      ShlShl(P52, 1, k - 1);
      assert Shl(P52, 1) == P53;
      ShlGrows(P53, k - 1);
      ShlMono(s.mantLess, Shl(s.mantMore, k), b);
    }
  }

  lemma SelectedOperands(A: F64, B: F64, signOp: bit)
    requires A.Finite() && B.Finite()
    ensures var s := Select(A, B, signOp);
            && FiniteSelection(s)
            && Abs(ExactSum(A, B, signOp)) == ExactMagnitude(s, Diff(A, B, signOp))
            && (ExactSum(A, B, signOp) < 0 ==> s.signOpMore == 1)
            && (ExactSum(A, B, signOp) > 0 ==> s.signOpMore == 0)
  {
    var s := Select(A, B, signOp);
    LessIsLess(s);
    var expDif := ExpDif(A, B);
    assert expDif == A.Exp1() - B.Exp1();
    if expDif > 0 || (expDif == 0 && A.Sig() >= B.Sig()) {
      assert MagMore(s) == A.Magnitude() && MagLess(s) == B.Magnitude();
    } else {
      assert MagMore(s) == B.Magnitude() && MagLess(s) == A.Magnitude();
    }
  }

  // ---------- the packed fields as a code ----------

  /** Magnitude part of `PackAdd` for finite operands. */
  ghost function PackedMagnitude(e: int, v: nat): nat {
    CodeOf(FiniteExp(e, Shr(v, W52), RoundUp(v), v == 0), FiniteMant(e, Shr(v, W52), RoundUp(v)))
  }

  lemma PackedIsMagnitude(A: F64, B: F64, signOp: bit, signOpMore: bit, e: int, v: nat)
    requires A.Finite() && B.Finite()
    ensures var r := PackAdd(A, B, signOp, signOpMore, e, Shr(v, W52), RoundUp(v), v == 0);
            && r.Valid() && r.Code() == PackedMagnitude(e, v)
            && (v > 0 && !(A.Sig() == 0 && B.Sig() == 0) ==> r.sign == signOpMore)
            && (v == 0 && !(A.Sig() == 0 && B.Sig() == 0) ==> r.sign == 0)
            && (A.Sig() == 0 && B.Sig() == 0 ==> r.sign == And(A.sign, Xor(B.sign, signOp)))
  {
  }

  /** The upper 53 bits of an aligned value form a normalized significand. */
  lemma AlignedSignificand(v: nat)
    requires Pow2(W104) <= v < Pow2(W105)
    ensures P52 <= Shr(v, W52) < P53
  {
    PowAround52();
    ShrAtLeast(v, W52, P52);
    ShrAtLeast(v, W52, P53);
    ShlOfPow(W52, W52);
    ShlOfPow(W53, W52);
  }

  lemma PackedFields(e: nat, q: nat, rnd: bit)
    requires P52 <= q < P53 && e + 1 < EXP_MAX
    ensures CodeOf(FiniteExp(e + 1, q, rnd, false), FiniteMant(e + 1, q, rnd)) == CodeOf(e, q) + rnd
  {
    PackedCode(e, q, rnd);
  }

  lemma PackedNormal(e: nat, v: nat)
    requires Pow2(W104) <= v < Pow2(W105) && e + 1 < EXP_MAX
    ensures PackedMagnitude(e + 1, v) == CodeOf(e, Shr(v, W52)) + RoundUp(v)
    ensures P52 <= Shr(v, W52) < P53 && CodeOf(e, Shr(v, W52)) < INF
  {
    AlignedSignificand(v);
    PackedFields(e, Shr(v, W52), RoundUp(v));
  }

  lemma PackedSubnormal(e: int, x: nat)
    requires e < 0 && x < P52
    ensures PackedMagnitude(e, Shl(x, W52)) == x
    ensures RoundUp(Shl(x, W52)) == 0 && Shr(Shl(x, W52), W52) == x && Low(Shl(x, W52), W52) == 0
  {
    SplitUnique(Shl(x, W52), W52, x, 0);
  }

  // ---------- alignment shift up to 52: nothing is lost ----------

  lemma NearSum(s: Selection, diff: bool)
    requires FiniteSelection(s) && s.preShift <= W52
    ensures ScaledLess(s) == Shl(s.mantLess, W52 - s.preShift)
    ensures SumOf(s, diff) == if diff then Shl(s.mantMore, W52) - Shl(s.mantLess, W52 - s.preShift)
                                      else Shl(s.mantMore, W52) + Shl(s.mantLess, W52 - s.preShift)
  {
    ShrOfShl(s.mantLess, W52, s.preShift);
  }

  lemma NearIsExact(s: Selection, diff: bool)
    requires FiniteSelection(s) && s.preShift <= W52
    ensures Represents(ExactMagnitude(s, diff), 0, Base(s), W52, SumOf(s, diff))
  {
    NearSum(s, diff);
    LessIsLess(s);
    ScaledLessRange(s);
    CommonScale(s.mantMore, Base(s), W52, W52, Base(s));
    CommonScale(s.mantLess, Base(s) - s.preShift, W52, W52 - s.preShift, Base(s));
    if diff {
      ShlSub(MagMore(s), MagLess(s), W52);
      ShlSub(Shl(s.mantMore, W52), ScaledLess(s), Base(s));
    } else {
      ShlAdd(MagMore(s), MagLess(s), W52);
      ShlAdd(Shl(s.mantMore, W52), ScaledLess(s), Base(s));
    }
  }

  lemma CommonScale(v: nat, a: nat, b: nat, c: nat, d: nat)
    requires a + b == c + d
    ensures Shl(Shl(v, a), b) == Shl(Shl(v, c), d)
  {
    ShlShl(v, a, b);
    ShlShl(v, c, d);
  }

  /** A sum that reaches bit 105 loses bit 0, but then the fraction is below one half. */
  lemma NearCarry(s: Selection)
    requires FiniteSelection(s) && s.preShift <= W52 && SumOf(s, false) >= Pow2(W105) && SumOf(s, false) % 2 == 1
    ensures Low(Shr(SumOf(s, false), 1), W52) < P51
  {
    NearSum(s, false);
    if s.preShift == W52 {
      CarryFraction(s.mantMore, s.mantLess, SumOf(s, false));
    }
  }

  lemma CarryFraction(m: nat, l: nat, sum: nat)
    requires m < P53 && l < P53 && sum == Shl(m, W52) + l && sum >= Pow2(W105)
    ensures Low(Shr(sum, 1), W52) < P51
  {
    TopSignificand(m);
    SmallFraction(sum);
  }

  lemma TopSignificand(m: nat)
    requires m < P53
    ensures Shl(m, W52) + P52 <= Pow2(W105)
  {
    PowAround52();
    ShlMono(m, P53, W52);
    ShlOfPow(W53, W52);
  }

  lemma SmallFraction(sum: nat)
    requires Pow2(W105) <= sum < Pow2(W105) + P52
    ensures Low(Shr(sum, 1), W52) < P51
  {
    HalfLow(sum);
    LowOfTop(sum, sum - Pow2(W105));
  }

  lemma HalfLow(v: nat)
    ensures 2 * Low(Shr(v, 1), W52) <= Low(v, W53)
  {
    LowSplit(v, 1, W52);
    var f := Low(Shr(v, 1), W52);
    assert Shl(f, 1) == 2 * Shl(f, 0) == 2 * f;
    assert 1 + W52 == W53;
  }

  lemma LowOfTop(v: nat, x: nat)
    requires x < P52 && v == Pow2(W105) + x
    ensures Low(v, W53) == x
  {
    TopBit();
    PowAround52();
    SplitUnique(v, W53, P52, x);
  }

  lemma TopBit()
    ensures Pow2(W105) == Shl(P52, W53)
  {
    PowAround52();
    ShlOfPow(W52, W53);
    assert W52 + W53 == W105;
  }

  // ---------- rounding of an exact sum ----------

  lemma RoundZero()
    ensures RoundsTo(0, 1, 0) && RoundUp(0) == 0 && Shr(0, W52) == 0
    ensures forall e :: PackedMagnitude(e, 0) == 0
  {
    PackedSubnormal(-1, 0);
    ShlPow(0, W52);
    RoundTruncatedUnit(0, 0, 0, 0, 0);
  }

  /** Rounding and packing a normalized value from which j bits were cut off. */
  lemma RoundPacked(n: nat, e: nat, j: nat, z: nat, v: nat)
    requires Represents(n, 0, e, W52 + j, z) && v == Shr(z, j) && Pow2(W104) <= v < Pow2(W105)
    requires e + 1 < EXP_MAX
    ensures RoundsTo(n, 1, PackedMagnitude(e + 1, v)) <==>
            !(Low(v, W52) == P51 && Low(z, j) != 0 && Shr(v, W52) % 2 == 0)
  {
    PackedNormal(e, v);
    RoundTruncatedUnit(n, e, j, z, v);
  }

  lemma CarryCase(n: nat, b: nat, sum: nat, v: nat)
    requires Represents(n, 0, b, W52, sum) && v == Shr(sum, 1) && Pow2(W104) <= v < Pow2(W105)
    requires b + 1 < EXP_MAX && (sum % 2 == 1 ==> Low(v, W52) < P51)
    ensures RoundsTo(n, 1, PackedMagnitude(b + 2, v))
  {
    assert Represents(n, 0, b + 1, W52 + 1, sum);
    assert Low(sum, 1) == sum % 2;
    if b + 2 < EXP_MAX {
      RoundPacked(n, b + 1, 1, sum, v);
    } else {
      AlignedSignificand(v);
      OverflowCase(n, b + 1, sum, v);
    }
  }

  lemma OverflowCase(n: nat, e: nat, sum: nat, v: nat)
    requires Represents(n, 0, e, W53, sum) && v == Shr(sum, 1) && e == EXP_MAX - 1
    requires P52 <= Shr(v, W52) < P53
    ensures RoundsTo(n, 1, PackedMagnitude(e + 1, v))
  {
    ShrShr(sum, 1, W52);
    BracketFrom(n, 0, e, W53, sum);
    ShlMono(P52, Shr(v, W52), e);
    MagForm(e, P52);
    assert CodeOf(e, P52) == INF;
    RoundOverflow(n, 1);
    ShrLess(v, W52);
    assert PackedMagnitude(e + 1, v) == INF;
  }

  lemma NormalCase(n: nat, b: nat, sum: nat, r: nat, v: nat)
    requires Represents(n, 0, b, W52, sum) && r <= b && b + 1 < EXP_MAX
    requires v == Shl(sum, r) && Pow2(W104) <= v < Pow2(W105)
    ensures RoundsTo(n, 1, PackedMagnitude(b + 1 - r, v))
  {
    ShlShl(sum, r, b - r);
    assert Represents(n, 0, b - r, W52 + 0, v);
    RoundPacked(n, b - r, 0, v, v);
  }

  lemma SubnormalCase(n: nat, e: int)
    requires n < P52 && e < 0
    ensures RoundsTo(n, 1, PackedMagnitude(e, Shl(n, W52)))
  {
    var v := Shl(n, W52);
    PackedSubnormal(e, n);
    assert Represents(n, 0, 0, W52 + 0, v);
    RoundTruncatedUnit(n, 0, 0, v, v);
  }

  /** Scaling the normalized sum back gives the subnormal significand itself. */
  lemma ScaledBack(n: nat, b: nat, sum: nat, back: nat)
    requires Represents(n, 0, b, W52, sum) && 0 < sum < Pow2(W105) && sum < Pow2(W106)
    requires back + b == LeadingShift(sum) && back > 0
    ensures Shr(Aligned(sum), back) == Shl(n, W52) && n < P52
  {
    var r := LeadingShift(sum);
    ShrOfShl(sum, r, back);
    AlignedRange(sum);
    ShrLess(Aligned(sum) / 2, back - 1);
    SubnormalRange(n, Shr(Aligned(sum), back));
  }

  lemma SubnormalRange(n: nat, v: nat)
    requires v == Shl(n, W52) && v < Pow2(W104)
    ensures n < P52
  {
    PowAround52();
    ShlOfPow(W52, W52);
    assert W52 + W52 == W104;
    ShlCompare(n, P52, W52);
  }

  /** The finished magnitude of a sum: scale, exponent and fields. */
  ghost function ResultMagnitude(s: Selection, sum: nat, diff: bool): nat
    requires sum < Pow2(W106)
  {
    var e := ExpPostScale(s.expMore, LeadingShift(sum), diff);
    PackedMagnitude(e, PostScaled(sum, e))
  }

  /** Whether the scaled sum is zero, which selects the sign of the result. */
  ghost predicate ResultZero(s: Selection, sum: nat, diff: bool)
    requires sum < Pow2(W106)
  {
    PostScaled(sum, ExpPostScale(s.expMore, LeadingShift(sum), diff)) == 0
  }

  lemma ZeroSum(s: Selection, diff: bool, n: nat)
    requires Represents(n, 0, Base(s), W52, 0)
    ensures n == 0 && 0 < Pow2(W106) && ResultZero(s, 0, diff) && RoundsTo(0, 1, ResultMagnitude(s, 0, diff))
  {
    ShlCompare(n, 0, W52);
    ShlPow(0, Base(s));
    ShlPow(0, W52);
    AlignedRange(0);
    var e := ExpPostScale(s.expMore, LeadingShift(0), diff);
    ShrLess(0, if e < 0 then -e else 0);
    RoundZero();
  }

  lemma NonZero(n: nat, b: nat, sum: nat)
    requires Represents(n, 0, b, W52, sum) && sum > 0
    ensures n > 0
  {
    ShlCompare(0, sum, b);
    ShlPow(0, b);
    ShlPow(0, W52);
  }

  /** With nothing lost in the alignment the packed result is the exact sum, correctly rounded. */
  lemma NearCase(s: Selection, diff: bool, sum: nat, n: nat)
    requires FiniteSelection(s) && s.preShift <= W52 && sum == SumOf(s, diff) && n == ExactMagnitude(s, diff)
    ensures RoundsTo(n, 1, ResultMagnitude(s, sum, diff))
    ensures ResultZero(s, sum, diff) <==> n == 0
  {
    NearIsExact(s, diff);
    if sum == 0 {
      ZeroSum(s, diff, n);
    } else {
      NonZero(n, Base(s), sum);
      AlignedRange(sum);
      if sum >= Pow2(W105) {
        NearCarryCase(s, diff, sum, n);
      } else if LeadingShift(sum) <= Base(s) {
        NormalCase(n, Base(s), sum, LeadingShift(sum), Aligned(sum));
      } else {
        NearSubnormalCase(s, diff, sum, n);
      }
    }
  }

  lemma NearCarryCase(s: Selection, diff: bool, sum: nat, n: nat)
    requires FiniteSelection(s) && s.preShift <= W52 && sum == SumOf(s, diff) >= Pow2(W105)
    requires Represents(n, 0, Base(s), W52, sum)
    ensures RoundsTo(n, 1, ResultMagnitude(s, sum, diff)) && !ResultZero(s, sum, diff)
  {
    DifferenceRange(s);
    if s.expMore == 0 {
      SubnormalSumRange(s, diff);
    }
    if sum % 2 == 1 {
      NearCarry(s);
    }
    AlignedRange(sum);
    CarryCase(n, Base(s), sum, Shr(sum, 1));
  }

  lemma NearSubnormalCase(s: Selection, diff: bool, sum: nat, n: nat)
    requires FiniteSelection(s) && s.preShift <= W52 && sum == SumOf(s, diff) && 0 < sum < Pow2(W105) && n > 0
    requires Represents(n, 0, Base(s), W52, sum) && LeadingShift(sum) > Base(s)
    ensures RoundsTo(n, 1, ResultMagnitude(s, sum, diff)) && !ResultZero(s, sum, diff)
  {
    NoCancellation(s, diff, sum);
    SubnormalExponent(s, LeadingShift(sum), diff);
    ScaledBack(n, Base(s), sum, LeadingShift(sum) - Base(s));
    SubnormalCase(n, Base(s) - LeadingShift(sum));
    WideNonZero(n);
  }

  lemma WideNonZero(n: nat)
    requires n > 0
    ensures Shl(n, W52) > 0
  {
    ShlGrows(n, W52);
  }

  /** Without cancellation a normal operand keeps the sum normalized. */
  lemma NoCancellation(s: Selection, diff: bool, sum: nat)
    requires FiniteSelection(s) && sum == SumOf(s, diff) < Pow2(W105) && LeadingShift(sum) > Base(s)
    ensures diff || s.expMore == 0
  {
    if !diff && s.expMore > 0 {
      WideRange(s.mantMore);
      LeadingShiftAt(sum, W104);
    }
  }

  lemma SubnormalExponent(s: Selection, r: nat, diff: bool)
    requires r > Base(s) && r != 0x7F && (diff || s.expMore == 0)
    ensures ExpPostScale(s.expMore, r, diff) == Base(s) - r
  {
  }

  lemma DifferenceRange(s: Selection)
    requires Ordered(s)
    ensures SumOf(s, true) < Pow2(W105)
  {
    ScaledLessRange(s);
  }

  lemma SubnormalSumRange(s: Selection, diff: bool)
    requires FiniteSelection(s) && s.expMore == 0
    ensures SumOf(s, diff) < Pow2(W105)
  {
    PowAround52();
    ShlMono(s.mantMore, P52, W52);
    ShlOfPow(W52, W52);
    ScaledLessRange(s);
    assert Pow2(W105) == 2 * Pow2(W104);
  }

  // ---------- alignment shift above 52: low bits are lost ----------

  /** The part of the smaller operand that survives the alignment. */
  ghost function Kept(s: Selection): nat
    requires s.preShift > W52
  {
    Shr(s.mantLess, s.preShift - W52)
  }

  /** The part that falls off. */
  ghost function Lost(s: Selection): nat
    requires s.preShift > W52
  {
    Low(s.mantLess, s.preShift - W52)
  }

  /** The exact sum with all its fraction bits. */
  ghost function FullSum(s: Selection, diff: bool): int {
    if diff then Shl(s.mantMore, s.preShift) - s.mantLess else Shl(s.mantMore, s.preShift) + s.mantLess
  }

  lemma KeptRange(s: Selection)
    requires FiniteSelection(s) && s.preShift > W52
    ensures ScaledLess(s) == Kept(s) < P52
    ensures s.mantLess == Shl(Kept(s), s.preShift - W52) + Lost(s) && Lost(s) < Pow2(s.preShift - W52)
  {
    var t := s.preShift - W52;
    ShrOfShl(s.mantLess, W52, s.preShift);
    SplitAt(s.mantLess, t);
    LowBound(s.mantLess, t);
    ShrLess(s.mantLess / 2, t - 1);
  }

  lemma FarIsExact(s: Selection, diff: bool)
    requires FiniteSelection(s) && s.preShift > W52
    ensures FullSum(s, diff) >= 0
    ensures Represents(ExactMagnitude(s, diff), 0, Base(s), s.preShift, FullSum(s, diff))
  {
    var k, b := s.preShift, Base(s);
    LessIsLess(s);
    ShlSwap(s.mantMore, b, k);
    ShlShl(s.mantLess, b - k, k);
    ShlCompare(Shl(s.mantMore, k), s.mantLess, b);
    if diff {
      ShlSub(MagMore(s), MagLess(s), k);
      ShlSub(Shl(s.mantMore, k), s.mantLess, b);
    } else {
      ShlAdd(MagMore(s), MagLess(s), k);
      ShlAdd(Shl(s.mantMore, k), s.mantLess, b);
    }
  }

  /** An apparent tie with lost bits, in terms of the operands. */
  lemma LostTie(l: nat, t: nat)
    requires l < P53 && t >= 1
    ensures Shr(l, t) == P51 && Low(l, t) != 0 <==> t == 1 && l == P52 + 1
  {
    if t == 1 {
      assert Shr(l, 1) == Shr(l / 2, 0) && Low(l, 1) == l % 2;
    } else {
      assert Shr(l, t) == Shr(l / 2 / 2, t - 2);
      ShrLess(l / 2 / 2, t - 2);
    }
  }

  lemma LostQuarter(l: nat, t: nat)
    requires l < P53 && t >= 1
    ensures Shr(l, t) == P50 && Low(l, t) != 0 <==>
            (t == 1 && l == P51 + 1) || (t == 2 && P52 < l < P52 + 4)
  {
    if t == 1 {
      assert Shr(l, 1) == Shr(l / 2, 0) && Low(l, 1) == l % 2;
    } else if t == 2 {
      assert Shr(l, 2) == Shr(l / 2, 1) == Shr(l / 2 / 2, 0);
      assert Low(l, 2) == l % 2 + 2 * Low(l / 2, 1) && Low(l / 2, 1) == l / 2 % 2;
    } else {
      assert Shr(l, t) == Shr(l / 2, t - 1) == Shr(l / 2 / 2, t - 2) == Shr(l / 2 / 2 / 2, t - 3);
      ShrLess(l / 2 / 2 / 2, t - 3);
    }
  }

  /** A sum that already has its leading one in bit 104 is packed with the exponent of the larger operand. */
  lemma AlreadyNormal(s: Selection, diff: bool, sum: nat)
    requires FiniteSelection(s) && s.expMore > 0 && Pow2(W104) <= sum < Pow2(W105)
    ensures sum < Pow2(W106)
    ensures ResultMagnitude(s, sum, diff) == PackedMagnitude(Base(s) + 1, sum) && !ResultZero(s, sum, diff)
  {
    LeadingShiftAt(sum, W104);
    assert Aligned(sum) == Shl(sum, 0) == sum;
  }

  lemma FarSumParts(s: Selection, sum: nat, z: nat, t: nat)
    requires FiniteSelection(s) && s.preShift == W52 + t && t > 0
    requires sum == SumOf(s, false) && z == FullSum(s, false)
    ensures sum == Shr(z, t) && Low(z, t) == Lost(s)
    ensures Shr(sum, W52) == s.mantMore && Low(sum, W52) == Kept(s)
    ensures Pow2(W104) <= sum < Pow2(W105)
  {
    KeptRange(s);
    TopSignificand(s.mantMore);
    WideRange(s.mantMore);
    ShlShl(s.mantMore, W52, t);
    ShlAdd(Shl(s.mantMore, W52), Kept(s), t);
    SplitUnique(z, t, sum, Lost(s));
    PowAround52();
    SplitUnique(sum, W52, s.mantMore, Kept(s));
  }

  lemma FarSum(s: Selection, n: nat, sum: nat)
    requires FiniteSelection(s) && s.preShift > W52 && sum == SumOf(s, false) && n == ExactMagnitude(s, false)
    ensures !ResultZero(s, sum, false)
    ensures RoundsTo(n, 1, ResultMagnitude(s, sum, false)) <==> !LosesTie(s, false)
  {
    FarSumRounds(s, n, sum, s.preShift - W52);
    LostTie(s.mantLess, s.preShift - W52);
    ShiftNames(s.preShift);
  }

  lemma FarSumRounds(s: Selection, n: nat, sum: nat, t: nat)
    requires FiniteSelection(s) && s.preShift == W52 + t && t > 0 && sum == SumOf(s, false)
    requires n == ExactMagnitude(s, false)
    ensures !ResultZero(s, sum, false)
    ensures RoundsTo(n, 1, ResultMagnitude(s, sum, false)) <==> !(Kept(s) == P51 && Lost(s) != 0 && s.mantMore % 2 == 0)
  {
    FarIsExact(s, false);
    FarSumParts(s, sum, FullSum(s, false), t);
    AlreadyNormal(s, false, sum);
    RoundPacked(n, Base(s), t, FullSum(s, false), sum);
  }

  lemma ShiftNames(k: nat)
    ensures k == W52 + 1 <==> k == 53
    ensures k == W52 + 2 <==> k == 54
  {
    WidthValues();
  }

  /** The rounded difference, when the lost part made the computed one too large. */
  lemma RoundDifference(n: nat, e: nat, j: nat, z: nat, v: nat, lost: nat)
    requires Represents(n, 0, e, W52 + j, z) && Pow2(W104) <= v < Pow2(W105) && 0 < e && e + 1 < EXP_MAX
    requires Shl(v, j) == z + lost && (lost < Pow2(j) || (lost < 2 * Pow2(j) && v % 2 == 0))
    ensures RoundsTo(n, 1, PackedMagnitude(e + 1, v)) <==>
            !(lost != 0 && Low(v, W52) == P51 && Shr(v, W52) % 2 == 1)
  {
    if lost == 0 {
      SplitUnique(z, j, v, 0);
      RoundPacked(n, e, j, z, v);
    } else {
      RoundPackedAbove(n, e, j, z, v, lost);
    }
  }

  lemma FarExcess(s: Selection, sum: nat, t: nat)
    requires FiniteSelection(s) && s.preShift == W52 + t && t > 0 && sum == SumOf(s, true)
    ensures FullSum(s, true) >= 0 && Shl(sum, t) == FullSum(s, true) + Lost(s) && Lost(s) < Pow2(t)
  {
    KeptRange(s);
    FarIsExact(s, true);
    ScaledLessRange(s);
    ShlShl(s.mantMore, W52, t);
    ShlSub(Shl(s.mantMore, W52), Kept(s), t);
  }

  /** Subtraction that leaves the leading one in place. */
  lemma FarDifferenceHigh(s: Selection, n: nat, sum: nat)
    requires FiniteSelection(s) && s.preShift > W52 && sum == SumOf(s, true) && n == ExactMagnitude(s, true)
    requires s.mantMore > P52 || Kept(s) == 0
    ensures !ResultZero(s, sum, true)
    ensures RoundsTo(n, 1, ResultMagnitude(s, sum, true)) <==>
            !(Kept(s) == P51 && Lost(s) != 0 && s.mantMore % 2 == 0)
  {
    var t := s.preShift - W52;
    FarExcess(s, sum, t);
    FarIsExact(s, true);
    HighDifference(s, sum);
    AlreadyNormal(s, true, sum);
    RoundDifference(n, Base(s), t, FullSum(s, true), sum, Lost(s));
  }

  lemma HighDifference(s: Selection, sum: nat)
    requires FiniteSelection(s) && s.preShift > W52 && sum == SumOf(s, true)
    requires s.mantMore > P52 || Kept(s) == 0
    ensures Pow2(W104) <= sum < Pow2(W105)
    ensures Low(sum, W52) == P51 && Shr(sum, W52) % 2 == 1 <==> Kept(s) == P51 && s.mantMore % 2 == 0
  {
    KeptRange(s);
    WideRange(s.mantMore);
    PowAround52();
    if Kept(s) > 0 {
      WideRange(s.mantMore - 1);
      ShlPred(s.mantMore, W52);
      SplitUnique(sum, W52, s.mantMore - 1, P52 - Kept(s));
      OtherParity(s.mantMore);
    } else {
      SplitUnique(sum, W52, s.mantMore, 0);
    }
  }

  lemma OtherParity(m: nat)
    requires m > 0
    ensures (m - 1) % 2 == 1 <==> m % 2 == 0
  {
  }

  lemma RoundPackedAbove(n: nat, e: nat, j: nat, z: nat, v: nat, delta: nat)
    requires Represents(n, 0, e, W52 + j, z) && Excess(j, z, v, delta) && Pow2(W104) <= v < Pow2(W105)
    requires 0 < e && e + 1 < EXP_MAX
    ensures RoundsTo(n, 1, PackedMagnitude(e + 1, v)) <==> !(Low(v, W52) == P51 && Shr(v, W52) % 2 == 1)
  {
    PackedNormal(e, v);
    RoundFromAbove(n, 0, e, j, z, v, delta);
  }

  /** Subtraction from a power of two: the difference drops below it and is shifted up by one. */
  lemma FarDifferenceLow(s: Selection, n: nat, sum: nat)
    requires FiniteSelection(s) && s.preShift > W52 && sum == SumOf(s, true) && n == ExactMagnitude(s, true)
    requires s.mantMore == P52 && Kept(s) > 0
    ensures !ResultZero(s, sum, true)
    ensures RoundsTo(n, 1, ResultMagnitude(s, sum, true)) <==> !(Kept(s) == P50 && Lost(s) != 0)
  {
    var t := s.preShift - W52;
    FarExcess(s, sum, t);
    FarIsExact(s, true);
    LowDifference(s, sum, 2 * sum);
    RoundHalved(n, Base(s), t, FullSum(s, true), sum, 2 * sum, Lost(s));
  }

  lemma RoundHalved(n: nat, b: nat, t: nat, z: nat, sum: nat, v: nat, lost: nat)
    requires Represents(n, 0, b, W52 + t, z) && t > 0 && 1 < b < EXP_MAX
    requires v == 2 * sum && Pow2(W104) <= v < Pow2(W105)
    requires Shl(sum, t) == z + lost && lost < Pow2(t)
    ensures RoundsTo(n, 1, PackedMagnitude(b, v)) <==> !(lost != 0 && Low(v, W52) == P51 && Shr(v, W52) % 2 == 1)
  {
    HalvedParts(n, b, t - 1, z, sum, v, lost);
    RoundDifference(n, b - 1, t - 1, z, v, lost);
  }

  lemma HalvedParts(n: nat, b: nat, j: nat, z: nat, sum: nat, v: nat, lost: nat)
    requires Represents(n, 0, b, W52 + j + 1, z) && b > 0 && v == 2 * sum
    requires Shl(sum, j + 1) == z + lost && lost < Pow2(j + 1)
    ensures Represents(n, 0, b - 1, W52 + j, z) && Shl(v, j) == z + lost && lost < 2 * Pow2(j) && v % 2 == 0
  {
    ShlOnceMore(sum, v, j + 1);
    HalveScale(n, b, W52 + j + 1, z);
  }

  lemma ShlOnceMore(sum: nat, v: nat, t: nat)
    requires v == 2 * sum && t > 0
    ensures Shl(v, t - 1) == Shl(sum, t)
  {
    ShlShl(sum, 1, t - 1);
    assert Shl(sum, 1) == 2 * Shl(sum, 0) == v;
  }

  lemma HalveScale(n: nat, b: nat, w: nat, z: nat)
    requires b > 0 && w > 0 && Represents(n, 0, b, w, z)
    ensures Represents(n, 0, b - 1, w - 1, z)
  {
  }

  lemma LowDifference(s: Selection, sum: nat, v: nat)
    requires FiniteSelection(s) && s.preShift > W52 && sum == SumOf(s, true)
    requires s.mantMore == P52 && Kept(s) > 0 && v == 2 * sum
    ensures Pow2(W104) <= v < Pow2(W105)
    ensures ResultMagnitude(s, sum, true) == PackedMagnitude(Base(s), v) && !ResultZero(s, sum, true)
    ensures Low(v, W52) == P51 && Shr(v, W52) % 2 == 1 <==> Kept(s) == P50
  {
    KeptRange(s);
    PowAround52();
    ShlOfPow(W52, W52);
    BelowPower(sum, Kept(s));
    TwiceBelow(v, Kept(s));
    ShiftedOnce(s, sum, v);
  }

  lemma ShiftedOnce(s: Selection, sum: nat, v: nat)
    requires s.expMore > 1 && v == 2 * sum && 0 < sum < Pow2(W106) && LeadingShift(sum) == 1
    ensures ResultMagnitude(s, sum, true) == PackedMagnitude(s.expMore - 1, v) && !ResultZero(s, sum, true)
  {
    assert Aligned(sum) == Shl(sum, 1) == 2 * Shl(sum, 0) == v;
  }

  lemma BelowPower(sum: nat, kept: nat)
    requires 0 < kept < P52 && sum == Pow2(W104) - kept
    ensures sum < Pow2(W106) && LeadingShift(sum) == 1 && Pow2(W104) <= 2 * sum < Pow2(W105)
  {
    PowAround52();
    Pow2Mono(W52, W104 - 2);
    assert Pow2(W104) == 2 * Pow2(W104 - 1) && Pow2(W104 - 1) == 2 * Pow2(W104 - 2);
    LeadingShiftAt(sum, W104 - 1);
  }

  lemma TopSignificands()
    ensures Shl(P53 - 1, W52) + P52 == 2 * Pow2(W104) && Shl(P53 - 2, W52) + 2 * P52 == 2 * Pow2(W104)
  {
    PowAround52();
    ShlOfPow(W53, W52);
    ShlPred(P53, W52);
    ShlPred(P53 - 1, W52);
    assert Pow2(W105) == 2 * Pow2(W104);
  }

  lemma TwiceBelow(v: nat, kept: nat)
    requires 0 < kept < P52 && v == 2 * (Pow2(W104) - kept)
    ensures Low(v, W52) == P51 && Shr(v, W52) % 2 == 1 <==> kept == P50
  {
    TopSignificands();
    PowAround52();
    if 2 * kept <= P52 {
      SplitUnique(v, W52, P53 - 1, P52 - 2 * kept);
    } else {
      SplitUnique(v, W52, P53 - 2, 2 * P52 - 2 * kept);
    }
  }

  lemma FarDifference(s: Selection, n: nat, sum: nat)
    requires FiniteSelection(s) && s.preShift > W52 && sum == SumOf(s, true) && n == ExactMagnitude(s, true)
    ensures !ResultZero(s, sum, true)
    ensures RoundsTo(n, 1, ResultMagnitude(s, sum, true)) <==> !LosesTie(s, true)
  {
    var t := s.preShift - W52;
    LostTie(s.mantLess, t);
    LostQuarter(s.mantLess, t);
    if s.mantMore > P52 || Kept(s) == 0 {
      FarDifferenceHigh(s, n, sum);
    } else {
      FarDifferenceLow(s, n, sum);
    }
    ShiftNames(s.preShift);
  }

  // ---------- the theorem ----------

  lemma MagnitudeCorrect(s: Selection, diff: bool)
    requires FiniteSelection(s)
    ensures var n, sum := ExactMagnitude(s, diff), SumOf(s, diff);
            && (RoundsTo(n, 1, ResultMagnitude(s, sum, diff)) <==> !LosesTie(s, diff))
            && (ResultZero(s, sum, diff) <==> n == 0)
  {
    var n, sum := ExactMagnitude(s, diff), SumOf(s, diff);
    if s.preShift <= W52 {
      NearCase(s, diff, sum, n);
      WidthValues();
    } else {
      FarNonZero(s, diff);
      if diff {
        FarDifference(s, n, sum);
      } else {
        FarSum(s, n, sum);
      }
    }
  }

  lemma FarNonZero(s: Selection, diff: bool)
    requires FiniteSelection(s) && s.preShift > W52
    ensures ExactMagnitude(s, diff) > 0
  {
    var b, k := Base(s) - s.preShift, s.preShift;
    ShlShl(s.mantMore, k, b);
    ShlMono(P52, s.mantMore, k);
    ShlShl(P52, 1, k - 1);
    assert Shl(P52, 1) == P53;
    ShlGrows(P53, k - 1);
    ShlMono(s.mantLess, Shl(s.mantMore, k), b);
  }

  /** FADD.D (signOp = 0) and FSUB.D (signOp = 1) on every pair of finite operands: subnormals, signed
      zeros, cancellation and overflow included.  The result is the exact sum rounded to nearest even
      if and only if the operands are outside the family `LosesTie`. */
  lemma AddSubRounding(A: F64, B: F64, signOp: bit)
    requires A.Finite() && B.Finite()
    ensures CorrectlyRounded(ExactSum(A, B, signOp), And(A.sign, Xor(B.sign, signOp)), AddSubWord(A, B, signOp))
            <==> !LosesTie(Select(A, B, signOp), Diff(A, B, signOp))
  {
    var s, diff := Select(A, B, signOp), Diff(A, B, signOp);
    var sum := SumOf(s, diff);
    var e := ExpPostScale(s.expMore, LeadingShift(sum), diff);
    SelectedOperands(A, B, signOp);
    MagnitudeCorrect(s, diff);
    PackedIsMagnitude(A, B, signOp, s.signOpMore, e, PostScaled(sum, e));
    ZeroSigns(A, B, signOp);
  }

  /** An exact zero comes from two zeros or from opposite numbers. */
  lemma ZeroSigns(A: F64, B: F64, signOp: bit)
    requires A.Finite() && B.Finite()
    ensures A.Sig() == 0 && B.Sig() == 0 ==> ExactSum(A, B, signOp) == 0
    ensures ExactSum(A, B, signOp) == 0 && !(A.Sig() == 0 && B.Sig() == 0) ==> Diff(A, B, signOp)
  {
    ShlCompare(A.Sig(), 0, A.Exp1() - 1);
    ShlCompare(B.Sig(), 0, B.Exp1() - 1);
    ShlPow(0, A.Exp1() - 1);
    ShlPow(0, B.Exp1() - 1);
  }

  /** 2^53 + (1 + 2^-52) lies above the middle between 2^53 and 2^53 + 2, and is rounded down all the same. */
  lemma LostTieExample()
    ensures var A, B := F64(0, 1023 + 53, 0), F64(0, 1023, 1);
            A.Finite() && B.Finite() && !CorrectlyRounded(ExactSum(A, B, 0), 0, AddSubWord(A, B, 0))
  {
    var A, B := F64(0, 1023 + 53, 0), F64(0, 1023, 1);
    assert LosesTie(Select(A, B, 0), Diff(A, B, 0));
    AddSubRounding(A, B, 0);
  }

  // ---------- comparison, minimum and maximum ----------

  predicate Zero(f: F64, sign: bit) {
    f.exp == 0 && f.mant == 0 && f.sign == sign
  }

  predicate Zeros(A: F64, B: F64) {
    (Zero(A, 0) && Zero(B, 1)) || (Zero(A, 1) && Zero(B, 0))
  }

  /** What the flags say for every pair of patterns: the order of the numbers, a NaN read as one more number beyond
      infinity, and -0 below +0. */
  lemma CompareFlags(A: F64, B: F64)
    requires A.Valid() && B.Valid()
    ensures var s := Select(A, B, 1);
            && (s.flEqual == 1 <==> A.Number() == B.Number() && !Zeros(A, B))
            && (s.flMore == 1 <==> A.Number() > B.Number() || (Zero(A, 0) && Zero(B, 1)))
            && (s.flLess == 1 <==> A.Number() < B.Number() || (Zero(A, 1) && Zero(B, 0)))
  {
    var s := Select(A, B, 1);
    FlagsByMagnitude(A, B);
    FlagsByNumber(A, B, s.flEqual, s.flMore, s.flLess);
  }

  lemma FlagsByNumber(A: F64, B: F64, eq: bit, more: bit, less: bit)
    requires A.Valid() && B.Valid() && Flagged(eq, more, less, A.sign, A.Magnitude(), B.sign, B.Magnitude())
    ensures eq == 1 <==> A.Number() == B.Number() && !Zeros(A, B)
    ensures more == 1 <==> A.Number() > B.Number() || (Zero(A, 0) && Zero(B, 1))
    ensures less == 1 <==> A.Number() < B.Number() || (Zero(A, 1) && Zero(B, 0))
  {
    ZeroByMagnitude(A);
    ZeroByMagnitude(B);
    FlagsBySign(eq, more, less, A.sign, A.Magnitude(), B.sign, B.Magnitude(), A.Number(), B.Number());
  }

  /** The flags as a function of signs and magnitudes. */
  predicate Flagged(eq: bit, more: bit, less: bit, s: bit, a: nat, t: bit, b: nat) {
    && (eq == 1 <==> a == b && s == t)
    && (more == 1 <==> if a > b then s == 0 else if a < b then t == 1 else s == 0 && t == 1)
    && (less == 1 <==> if a > b then s == 1 else if a < b then t == 0 else s == 1 && t == 0)
  }

  lemma FlagsByMagnitude(A: F64, B: F64)
    requires A.Valid() && B.Valid()
    ensures var s := Select(A, B, 1);
            Flagged(s.flEqual, s.flMore, s.flLess, A.sign, A.Magnitude(), B.sign, B.Magnitude())
  {
    MagnitudeOrder(A, B);
  }

  lemma FlagsBySign(eq: bit, more: bit, less: bit, s: bit, a: nat, t: bit, b: nat, x: int, y: int)
    requires Flagged(eq, more, less, s, a, t, b)
    requires x == (if s == 1 then 0 - a else a) && y == (if t == 1 then 0 - b else b)
    ensures eq == 1 <==> x == y && !(a == b == 0 && s != t)
    ensures more == 1 <==> x > y || (a == b == 0 && s == 0 && t == 1)
    ensures less == 1 <==> x < y || (a == b == 0 && s == 1 && t == 0)
  {
  }

  lemma ZeroByMagnitude(f: F64)
    requires f.Valid()
    ensures f.Magnitude() == 0 <==> Zero(f, f.sign)
  {
    ZeroMagnitude(f);
  }

  predicate Numbers(A: F64, B: F64) {
    !A.IsNaN() && !B.IsNaN()
  }

  /** The integer 0 or 1 that a comparison delivers is the one for a condition. */
  predicate Delivers(r: F64, condition: bool) {
    r == F64(0, 0, if condition then 1 else 0)
  }

  /** FEQ.D is right for all operands but zeros of different sign and a NaN with itself. */
  lemma FeqExact(A: F64, B: F64)
    requires A.Valid() && B.Valid()
    ensures Delivers(AddSubCompareWord(0, 1, 1, 0, 0, A, B), Numbers(A, B) && A.Number() == B.Number())
            <==> !Zeros(A, B) && !(A.IsNaN() && A == B)
  {
    CompareFlags(A, B);
    SameNumber(A, B);
  }

  /** FLT.D is right but for -0 < +0 and for a NaN whose pattern reads as the smaller or larger number it takes. */
  lemma FltExact(A: F64, B: F64)
    requires A.Valid() && B.Valid()
    ensures Delivers(AddSubCompareWord(0, 1, 0, 0, 1, A, B), Numbers(A, B) && A.Number() < B.Number())
            <==> !(Zero(A, 1) && Zero(B, 0)) && !(!Numbers(A, B) && A.Number() < B.Number())
  {
    CompareFlags(A, B);
    ZeroIsNumber(A);
  }

  /** FLE.D is right but for +0 <= -0 and, again, for some operands that are NaN. */
  lemma FleExact(A: F64, B: F64)
    requires A.Valid() && B.Valid()
    ensures Delivers(AddSubCompareWord(0, 1, 1, 0, 1, A, B), Numbers(A, B) && A.Number() <= B.Number())
            <==> !(Zero(A, 0) && Zero(B, 1)) && !(!Numbers(A, B) && A.Number() <= B.Number())
  {
    FleWord(A, B);
    FleNumbers(A, B, AddSubCompareWord(0, 1, 1, 0, 1, A, B), Select(A, B, 1));
  }

  lemma FleNumbers(A: F64, B: F64, w: F64, s: Selection)
    requires A.Valid() && B.Valid() && s == Select(A, B, 1)
    requires w == F64(0, 0, if s.flEqual == 1 || s.flLess == 1 then 1 else 0)
    ensures Delivers(w, Numbers(A, B) && A.Number() <= B.Number())
            <==> !(Zero(A, 0) && Zero(B, 1)) && !(!Numbers(A, B) && A.Number() <= B.Number())
  {
    CompareFlags(A, B);
    ZeroIsNumber(A);
    ZeroIsNumber(B);
    FleByNumber(A, B, s, A.Number(), B.Number(), w);
  }

  lemma FleWord(A: F64, B: F64)
    requires A.Valid() && B.Valid()
    ensures var s := Select(A, B, 1);
            AddSubCompareWord(0, 1, 1, 0, 1, A, B) == F64(0, 0, if s.flEqual == 1 || s.flLess == 1 then 1 else 0)
  {
  }

  lemma FleByNumber(A: F64, B: F64, s: Selection, x: int, y: int, w: F64)
    requires s.flEqual == 1 <==> x == y && !Zeros(A, B)
    requires s.flLess == 1 <==> x < y || (Zero(A, 1) && Zero(B, 0))
    requires Zeros(A, B) ==> x == y == 0
    requires w == F64(0, 0, if s.flEqual == 1 || s.flLess == 1 then 1 else 0)
    ensures Delivers(w, Numbers(A, B) && x <= y) <==> !(Zero(A, 0) && Zero(B, 1)) && !(!Numbers(A, B) && x <= y)
  {
  }

  lemma ZeroIsNumber(f: F64)
    ensures Zero(f, 0) || Zero(f, 1) ==> f.Number() == 0
  {
    ZeroMagnitude(f);
  }

  /** Patterns with the same number are equal, or zeros. */
  lemma SameNumber(A: F64, B: F64)
    requires A.Valid() && B.Valid()
    ensures A.Number() == B.Number() ==> A == B || Zeros(A, B)
    ensures Zeros(A, B) ==> A.Number() == B.Number()
  {
    MagnitudeOrder(A, B);
    ZeroMagnitude(A);
    ZeroMagnitude(B);
  }

  lemma ZeroMagnitude(f: F64)
    ensures f.Magnitude() == 0 <==> f.Sig() == 0
  {
    ShlCompare(f.Sig(), 0, f.Exp1() - 1);
    ShlPow(0, f.Exp1() - 1);
  }

  lemma MagnitudeOrder(A: F64, B: F64)
    requires A.Valid() && B.Valid()
    ensures ExpDif(A, B) > 0 ==> A.Magnitude() > B.Magnitude()
    ensures ExpDif(A, B) < 0 ==> A.Magnitude() < B.Magnitude()
    ensures ExpDif(A, B) == 0 ==> (A.Magnitude() < B.Magnitude() <==> A.Sig() < B.Sig())
    ensures ExpDif(A, B) == 0 ==> (A.Magnitude() == B.Magnitude() <==> A.Sig() == B.Sig())
  {
    assert ExpDif(A, B) == A.Exp1() - B.Exp1();
    if ExpDif(A, B) > 0 {
      LargerExponent(A, B);
    } else if ExpDif(A, B) < 0 {
      LargerExponent(B, A);
    } else {
      ShlCompare(A.Sig(), B.Sig(), A.Exp1() - 1);
    }
  }

  lemma LargerExponent(A: F64, B: F64)
    requires A.Valid() && B.Valid() && A.Exp1() > B.Exp1()
    ensures A.Magnitude() > B.Magnitude()
  {
    var k, b := A.Exp1() - B.Exp1(), B.Exp1() - 1;
    ShlShl(A.Sig(), k, b);
    ShlMono(P52, A.Sig(), k);
    ShlShl(P52, 1, k - 1);
    assert Shl(P52, 1) == 2 * Shl(P52, 0) == P53;
    ShlGrows(P53, k - 1);
    ShlMono(B.Sig(), Shl(A.Sig(), k), b);
  }

  const CANONICAL_NAN: F64 := F64(0, EXP_MAX, P51)

  /** The order of FMAX.D and FMIN.D, in which -0 is below +0. */
  predicate Below(A: F64, B: F64) {
    A.Number() < B.Number() || (Zero(A, 1) && Zero(B, 0))
  }

  /** FMAX of section 11.6 of the RISC-V Unprivileged ISA manual: the number beside a NaN, the canonical NaN for two
      of them, and otherwise the larger operand. */
  function Maximum(A: F64, B: F64): F64 {
    if A.IsNaN() && B.IsNaN() then CANONICAL_NAN
    else if A.IsNaN() then B
    else if B.IsNaN() then A
    else if Below(B, A) then A else B
  }

  function Minimum(A: F64, B: F64): F64 {
    if A.IsNaN() && B.IsNaN() then CANONICAL_NAN
    else if A.IsNaN() then B
    else if B.IsNaN() then A
    else if Below(A, B) then A else B
  }

  /** What the unit returns: the second operand as soon as one is special. */
  lemma MaxIs(A: F64, B: F64)
    requires A.Valid() && B.Valid()
    ensures AddSubCompareWord(0, 0, 0, 1, 0, A, B) == if A.Finite() && B.Finite() && Below(B, A) then A else B
    ensures AddSubCompareWord(0, 0, 0, 0, 1, A, B) == if A.Finite() && B.Finite() && Below(A, B) then A else B
  {
    MaxWord(A, B);
    CompareFlags(A, B);
  }

  lemma MaxWord(A: F64, B: F64)
    requires A.Valid() && B.Valid()
    ensures var s := Select(A, B, 1);
            && AddSubCompareWord(0, 0, 0, 1, 0, A, B) == (if A.Finite() && B.Finite() && s.flMore == 1 then A else B)
            && AddSubCompareWord(0, 0, 0, 0, 1, A, B) == (if A.Finite() && B.Finite() && s.flLess == 1 then A else B)
  {
  }

  lemma BelowIsStrict(A: F64, B: F64)
    requires A.Valid() && B.Valid()
    ensures Below(A, B) ==> A != B
    ensures !(A.Finite() && B.Finite()) ==> (Below(A, B) <==> A.Number() < B.Number())
  {
  }

  /** An infinite operand or a NaN makes both instructions return the second operand. */
  lemma MaxExact(A: F64, B: F64)
    requires A.Valid() && B.Valid()
    ensures AddSubCompareWord(0, 0, 0, 1, 0, A, B) == Maximum(A, B) <==>
            if B.IsNaN() then A.IsNaN() && B == CANONICAL_NAN
            else A.IsNaN() || (A.Finite() && B.Finite()) || B.Number() >= A.Number()
  {
    MaxIs(A, B);
    BelowIsStrict(B, A);
  }

  lemma MinExact(A: F64, B: F64)
    requires A.Valid() && B.Valid()
    ensures AddSubCompareWord(0, 0, 0, 0, 1, A, B) == Minimum(A, B) <==>
            if B.IsNaN() then A.IsNaN() && B == CANONICAL_NAN
            else A.IsNaN() || (A.Finite() && B.Finite()) || B.Number() <= A.Number()
  {
    MaxIs(A, B);
    BelowIsStrict(A, B);
  }

  /** The maximum of infinity and 1 comes out as 1, the minimum of minus infinity and 1 as well. */
  lemma InfinityExamples()
    ensures var inf, minusInf, one := F64(0, EXP_MAX, 0), F64(1, EXP_MAX, 0), F64(0, 1023, 0);
            && AddSubCompareWord(0, 0, 0, 1, 0, inf, one) == one && Maximum(inf, one) == inf
            && AddSubCompareWord(0, 0, 0, 0, 1, minusInf, one) == one && Minimum(minusInf, one) == minusInf
  {
    var inf, one := F64(0, EXP_MAX, 0), F64(0, 1023, 0);
    MaxIs(inf, one);
    MaxIs(F64(1, EXP_MAX, 0), one);
    MagnitudeOrder(inf, one);
  }

  /** +0 = -0 and +0 <= -0 come out as false, -0 < +0 as true. */
  lemma ZeroExamples()
    ensures var plus, minus := F64(0, 0, 0), F64(1, 0, 0);
            && plus.Number() == minus.Number() == 0
            && Delivers(AddSubCompareWord(0, 1, 1, 0, 0, plus, minus), false)
            && Delivers(AddSubCompareWord(0, 1, 1, 0, 1, plus, minus), false)
            && Delivers(AddSubCompareWord(0, 1, 0, 0, 1, minus, plus), true)
  {
    var plus, minus := F64(0, 0, 0), F64(1, 0, 0);
    ZeroIsNumber(plus);
    ZeroIsNumber(minus);
    CompareFlags(plus, minus);
    CompareFlags(minus, plus);
  }

  // ---------- infinities ----------

  /** The sum of operands of which one is infinite or a NaN: a NaN if one is, or if infinities cancel. */
  predicate SpecialSum(A: F64, B: F64, signOp: bit, r: F64) {
    if A.IsNaN() || B.IsNaN() || (A.exp == EXP_MAX && B.exp == EXP_MAX && A.sign != Xor(B.sign, signOp)) then r.IsNaN()
    else if A.exp == EXP_MAX then r == A
    else r == F64(Xor(B.sign, signOp), EXP_MAX, 0)
  }

  /** FADD.D and FSUB.D on operands of which one is not finite are right exactly for a NaN and for two infinities of
      the same sign; infinity plus 1 comes out as a NaN, and infinity minus minus infinity too. */
  lemma AddSubSpecial(A: F64, B: F64, signOp: bit)
    requires A.Valid() && B.Valid() && !(A.Finite() && B.Finite())
    ensures SpecialSum(A, B, signOp, AddSubWord(A, B, signOp)) <==>
            A.IsNaN() || B.IsNaN() || (A.exp == B.exp && A.sign == B.sign)
  {
    QuietIsNotZero(A.mant);
    QuietIsNotZero(B.mant);
  }

  /** Infinity plus or minus any finite number comes out as a NaN. */
  lemma InfinityPlusFinite(A: F64, B: F64, signOp: bit)
    requires A.exp == EXP_MAX && A.mant == 0 && B.Finite()
    ensures AddSubWord(A, B, signOp).IsNaN() && SpecialSum(A, B, signOp, A)
  {
    QuietIsNotZero(A.mant);
  }
}
