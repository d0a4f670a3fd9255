/** Conversion between integers and doubles: `Int2Double` (FCVT.D.L, .LU, .W, .WU) and `Double2Int`
    (FCVT.L.D, .LU.D, .W.D, .WU.D). */
module FpuConvert {
  import opened Bits
  import opened Ieee754
  import opened FpuRounding

  /** The number a conversion source register stands for. */
  function Source(signEna: bool, w32: bool, v: nat): int {
    if w32 then
      var l := v % 0x1_0000_0000;
      if signEna && l >= P31 then l - P32 else l
    else if signEna then ToInt64(v) else v
  }

  // ---------- integer to double ----------

  /** Left shift that brings the leading one of a 64-bit value to bit 63. */
  ghost function Shift64(v: nat): (s: nat)
    requires v < Pow2(W64)
    ensures s <= 63 && (v > 0 ==> s <= W63)
  {
    WidthValues();
    if v == 0 then 63 else
      assert Msb(v) <= W63 by { if Msb(v) >= W64 { Pow2Mono(W64, Msb(v)); } }
      W63 - Msb(v)
  }

  method LeadingOne64(absA: nat) returns (rbLShift: nat)
    requires absA < Pow2(W64)
    ensures rbLShift == Shift64(absA)
  {
    rbLShift := 63;
    for i := 0 to 64
      invariant rbLShift == 63
      invariant ClearFrom(absA, i)
    {
      ScanStep(absA, i);
      if Bit(absA, 63 - i) == 1 {
        rbLShift := i;
        return;
      }
    }
    WidthValues();
  }

  ghost predicate ClearFrom(v: nat, i: nat) {
    i <= W64 && v < Pow2(W64 - i)
  }

  lemma ScanStep(v: nat, i: nat)
    requires v < Pow2(W64) && ClearFrom(v, i) && i < 64
    ensures Bit(v, 63 - i) == 1 ==> Shift64(v) == i
    ensures Bit(v, 63 - i) == 0 ==> ClearFrom(v, i + 1)
  {
    WidthValues();
    var p := W63 - i;
    LeadingBit(v, p);
    if v >= Pow2(p) {
      MsbUnique(v, p);
    }
  }

  /** Exponent, significand and rounding decision for a magnitude. */
  ghost function RoundUp11(v: nat): bit {
    if Low(v, 11) > 0x400 || (Low(v, 11) == 0x400 && Shr(v, 11) % 2 == 1) then 1 else 0
  }

  ghost function Int2DoubleWord(sign: bit, absA: nat): F64
    requires absA < Pow2(W64)
  {
    var r := Shift64(absA);
    var v := Shl(absA, r);
    var q, rnd := Shr(v, 11), RoundUp11(v);
    var exp := if absA == 0 then 0 else 1023 + 63 - r;
    F64(sign, exp + (if q == 0x1F_FFFF_FFFF_FFFF && rnd == 1 then 1 else 0), (q + rnd) % 0x10_0000_0000_0000)
  }

  lemma SourceRange(signEna: bool, w32: bool, v: nat)
    requires v < P64
    ensures Abs(Source(signEna, w32, v)) < Pow2(W64)
  {
    PowWords();
  }

  /** Sign extension of a 32-bit source and the magnitude of the two's complement number. */
  method Magnitude(signEna: bool, w32: bool, A: nat) returns (negative: bool, absA: nat)
    requires A < P64
    ensures absA == Abs(Source(signEna, w32, A)) && (negative <==> Source(signEna, w32, A) < 0)
  {
    var tmpA := A;
    if w32 {
      tmpA := A % 0x1_0000_0000;
      if signEna && tmpA >= P31 {
        tmpA := tmpA + 0xFFFF_FFFF * 0x1_0000_0000;
      }
    }
    negative := signEna && tmpA >= P63;
    absA := if negative then P64 - tmpA else tmpA;
  }

  /** Normalize, round and pack a magnitude. */
  method PackInteger(sign: bit, absA: nat) returns (fres: F64)
    requires absA < Pow2(W64)
    ensures fres == Int2DoubleWord(sign, absA)
  {
    var rbLShift := LeadingOne64(absA);
    var mantAlign := Shl(absA, rbLShift);
    var mantShort := Shr(mantAlign, 11);
    var expAlign := if absA == 0 then 0 else 1023 + 63 - rbLShift;
    var mantEven := Bit(mantAlign, 11);
    var mant05 := Low(mantAlign, 11) == 0x400;
    var rndBit: bit := if Bit(mantAlign, 10) == 1 && !(mant05 && mantEven == 0) then 1 else 0;
    RoundingBits(mantAlign);
    fres := F64(sign, expAlign + (if mantShort == 0x1F_FFFF_FFFF_FFFF && rndBit == 1 then 1 else 0),
                (mantShort + rndBit) % 0x10_0000_0000_0000);
  }

  method Int2Double(signEna: bool, w32: bool, A: nat) returns (fres: F64)
    requires A < P64
    ensures Abs(Source(signEna, w32, A)) < Pow2(W64)
    ensures fres == Int2DoubleWord(if Source(signEna, w32, A) < 0 then 1 else 0, Abs(Source(signEna, w32, A)))
  {
    SourceRange(signEna, w32, A);
    var negative, absA := Magnitude(signEna, w32, A);
    fres := PackInteger(if negative then 1 else 0, absA);
  }

  lemma RoundingBits(v: nat)
    ensures Bit(v, 10) == 1 <==> Low(v, 11) >= 0x400
    ensures Bit(v, 11) == Shr(v, 11) % 2
  {
    Pow2Table();
    LowStep(v, 10);
    LowBound(v, 10);
    BitOfShr(v, 11, 0);
  }

  lemma Normalized(absA: nat)
    requires 0 < absA < Pow2(W64)
    ensures P52 <= Shr(Shl(absA, Shift64(absA)), 11) < P53
  {
    TopAligned(absA, Msb(absA), Shift64(absA));
    PowWords();
    Shr11(Shl(absA, Shift64(absA)));
  }

  lemma TopAligned(a: nat, m: nat, r: nat)
    requires Pow2(m) <= a < Pow2(m + 1) && m + r == W63
    ensures Pow2(W63) <= Shl(a, r) < Pow2(W64)
  {
    ShlMono(Pow2(m), a, r);
    ShlMono(a, Pow2(m + 1), r);
    ShlOfPow(m, r);
    ShlOfPow(m + 1, r);
    assert m + 1 + r == W64;
  }

  lemma Shr11(v: nat)
    requires P63 <= v < P64
    ensures P52 <= Shr(v, 11) < P53
  {
    ShrPow(v, 11);
    Pow2Table();
  }

  lemma Fraction11(v: nat)
    ensures Low(v, 11) < 2048
    ensures RoundUp11(v) == 1 <==> 2 * Low(v, 11) > Pow2(11) || (2 * Low(v, 11) == Pow2(11) && Shr(v, 11) % 2 == 1)
  {
    LowBound(v, 11);
    Pow2Table();
  }

  lemma IntRepresents(absA: nat)
    requires 0 < absA < Pow2(W64)
    ensures Represents(Shl(absA, UNIT), 0, 1085 - Shift64(absA), 11, Shl(absA, Shift64(absA)))
  {
    var r := Shift64(absA);
    ShlShl(absA, UNIT, 11);
    ShlShl(absA, r, 1085 - r);
    WidthValues();
  }

  /** Every integer is converted to the nearest double, ties to even; zero becomes +0. */
  lemma Int2DoubleRounds(x: int)
    requires Abs(x) < Pow2(W64)
    ensures var f := Int2DoubleWord(if x < 0 then 1 else 0, Abs(x));
            f.Finite() && f.sign == (if x < 0 then 1 else 0) && RoundsTo(Shl(Abs(x), UNIT), 1, f.Code())
  {
    var a, sign := Abs(x), if x < 0 then 1 else 0;
    if a == 0 {
      ZeroWord(sign);
      ZeroRounds();
    } else {
      MagnitudeRounds(a, sign);
    }
  }

  lemma MagnitudeRounds(a: nat, sign: bit)
    requires 0 < a < Pow2(W64)
    ensures Int2DoubleWord(sign, a).Finite() && RoundsTo(Shl(a, UNIT), 1, Int2DoubleWord(sign, a).Code())
  {
    var r := Shift64(a);
    var v := Shl(a, r);
    IntCode(a, sign);
    Normalized(a);
    IntRepresents(a);
    Fraction11(v);
    RoundExact(Shl(a, UNIT), 0, 1085 - r, 11, v);
  }

  lemma ZeroWord(sign: bit)
    ensures 0 < Pow2(W64) && Int2DoubleWord(sign, 0) == F64(sign, 0, 0)
  {
    ZeroParts();
  }

  lemma ZeroParts()
    ensures 0 < Pow2(W64) && Shl(0, Shift64(0)) == 0 && Shr(0, 11) == 0 && RoundUp11(0) == 0
  {
    ShlPow(0, Shift64(0));
    ShrLess(0, 11);
    LowBound(0, 11);
  }

  lemma ZeroRounds()
    ensures RoundsTo(Shl(0, UNIT), 1, 0)
  {
    ShlPow(0, UNIT);
    MidpointsDecide(0, 1, 0);
  }

  lemma IntCode(a: nat, sign: bit)
    requires 0 < a < Pow2(W64)
    ensures var f, r := Int2DoubleWord(sign, a), Shift64(a);
            var v := Shl(a, r);
            f.Finite() && f.Code() == CodeOf(1085 - r, Shr(v, 11)) + RoundUp11(v)
  {
    Normalized(a);
    var r := Shift64(a);
    PackedCode(1085 - r, Shr(Shl(a, r), 11), RoundUp11(Shl(a, r)));
  }

  // ---------- the four instructions ----------

  /** The double nearest to an integer, ties to even. */
  ghost predicate Nearest(x: int, f: F64) {
    f.Finite() && f.sign == (if x < 0 then 1 else 0) && RoundsTo(Shl(Abs(x), UNIT), 1, f.Code())
  }

  /** FCVT.D.L converts the signed 64-bit number x that the register holds. */
  method FcvtDL(A: nat, ghost x: int) returns (fres: F64)
    requires A < P64
    requires -0x8000_0000_0000_0000 <= x < 0x8000_0000_0000_0000 && (A - x) % 0x1_0000_0000_0000_0000 == 0
    ensures Nearest(x, fres)
  {
    Congruent64(A, x);
    fres := Int2Double(true, false, A);
    Int2DoubleRounds(x);
  }

  method FcvtDLU(A: nat, ghost x: int) returns (fres: F64)
    requires A < P64
    requires 0 <= x < 0x1_0000_0000_0000_0000 && (A - x) % 0x1_0000_0000_0000_0000 == 0
    ensures Nearest(x, fres)
  {
    Congruent64(A, x);
    fres := Int2Double(false, false, A);
    Int2DoubleRounds(x);
  }

  /** FCVT.D.W converts the signed number x in the low 32 bits of the register, whatever the upper ones are. */
  method FcvtDW(A: nat, ghost x: int) returns (fres: F64)
    requires A < P64 && -0x8000_0000 <= x < 0x8000_0000 && (A - x) % 0x1_0000_0000 == 0
    ensures Nearest(x, fres)
  {
    Congruent32(A, x);
    fres := Int2Double(true, true, A);
    Int2DoubleRounds(x);
  }

  method FcvtDWU(A: nat, ghost x: int) returns (fres: F64)
    requires A < P64 && 0 <= x < 0x1_0000_0000 && (A - x) % 0x1_0000_0000 == 0
    ensures Nearest(x, fres)
  {
    Congruent32(A, x);
    fres := Int2Double(false, true, A);
    Int2DoubleRounds(x);
  }

  lemma Congruent64(A: nat, x: int)
    requires A < P64 && (A - x) % 0x1_0000_0000_0000_0000 == 0
    ensures 0 <= x < P64 ==> A == x
    ensures -0x8000_0000_0000_0000 <= x < 0 ==> A == x + P64
    ensures -0x8000_0000_0000_0000 <= x < P64 ==> Abs(x) < Pow2(W64)
  {
    PowWords();
  }

  lemma Congruent32(A: nat, x: int)
    requires A < P64 && (A - x) % 0x1_0000_0000 == 0
    ensures 0 <= x < P32 ==> A % 0x1_0000_0000 == x
    ensures -0x8000_0000 <= x < 0 ==> A % 0x1_0000_0000 == x + P32
    ensures -0x8000_0000 <= x < P32 ==> Abs(x) < Pow2(W64)
  {
    PowWords();
    var k := (A - x) / 0x1_0000_0000;
    assert A == k * 0x1_0000_0000 + x;
  }

  // ---------- double to integer ----------

  function ExpMax(signEna: bool, w32: bool, sign: bit): nat {
    if w32 then (if signEna then 1023 + 30 else 1023 + 62)
    else if signEna || sign == 1 then 1023 + 62 else 1023 + 63
  }

  /** The integer part of a magnitude. */
  ghost function Truncated(A: F64): nat {
    Shr(A.Magnitude(), UNIT)
  }

  /** In range: truncation toward zero, in two's complement, of which FCVT.WU.D keeps the low word. Out of range,
      infinity and NaN: the smallest integer of the format, or zero for FCVT.WU.D. */
  ghost function Converted(signEna: bool, w32: bool, A: F64): nat {
    if A.exp > ExpMax(signEna, w32, A.sign) then
      if w32 then (if signEna then P64 - P31 else 0) else P63
    else
      var x := Wrap64(if A.sign == 1 then 0 - Truncated(A) else Truncated(A));
      if !signEna && w32 then x % 0x1_0000_0000 else x
  }

  /** Range checks and the truncating shift. */
  method IntegerPart(signEna: bool, w32: bool, A: F64) returns (mantShort: nat, ovr: bit, und: bit)
    requires A.Valid()
    ensures ovr == 1 <==> A.exp > ExpMax(signEna, w32, A.sign)
    ensures und == 1 <==> A.exp < 1023
    ensures mantShort == if ovr == 1 then 0 else Truncated(A)
    ensures mantShort < P64 && (und == 1 ==> mantShort == 0)
    ensures (signEna || A.sign == 1 || w32) ==> mantShort < P63
    ensures signEna && w32 ==> mantShort < P31
    ensures ovr == 0 && und == 0 ==> mantShort > 0
  {
    var mantPreScale := Shl(A.Sig(), 11);
    var expMax := ExpMax(signEna, w32, A.sign);
    if A.exp > expMax {
      ovr, und, mantShort := 1, 0, 0;
    } else if A.exp < 1023 {
      ovr, und, mantShort := 0, 1, 0;
      TruncatedSmall(A);
    } else {
      ovr, und := 0, 0;
      mantShort := Shr(mantPreScale, 1086 - A.exp);
      TruncatedLarge(A, expMax);
    }
  }

  method Double2Int(signEna: bool, w32: bool, A: F64) returns (fres: nat, ovr: bit, und: bit)
    requires A.Valid()
    ensures ovr == 1 <==> A.exp > ExpMax(signEna, w32, A.sign)
    ensures und == 1 <==> A.exp < 1023
    ensures fres == Converted(signEna, w32, A)
  {
    var mantShort;
    mantShort, ovr, und := IntegerPart(signEna, w32, A);
    var resSign := (A.sign == 1 || ovr == 1) && und == 0;
    fres := if A.sign == 1 then (P64 - mantShort) % 0x1_0000_0000_0000_0000 else mantShort;
    if signEna {
      if resSign {
        if w32 {
          fres := SetHigh33(fres);
        } else if fres < P63 {
          fres := fres + P63;
        }
      }
    } else if w32 {
      fres := fres % 0x1_0000_0000;
    } else if ovr == 1 && fres < P63 {
      fres := fres + P63;
    }
  }

  /** v | 0xFFFFFFFF80000000 */
  function SetHigh33(v: nat): nat {
    0xFFFF_FFFF_8000_0000 + v % 0x8000_0000
  }

  lemma TruncatedSmall(A: F64)
    requires A.Valid() && A.exp < 1023
    ensures Truncated(A) == 0
  {
    PowAround52();
    var k := A.Exp1() - 1;
    ShlMono(A.Sig(), P53, k);
    ShlOfPow(W53, k);
    Pow2Mono(W53 + k, UNIT);
    ShrLess(A.Magnitude(), UNIT);
  }

  /** The scaled shift of the unit computes the integer part, which is below 2^(exp - 1022). */
  lemma TruncatedLarge(A: F64, expMax: nat)
    requires A.Valid() && 1023 <= A.exp <= expMax <= 1086
    ensures Shr(Shl(A.Sig(), 11), 1086 - A.exp) == Truncated(A)
    ensures 0 < Truncated(A) && (expMax <= 1085 ==> Truncated(A) < P63) && (expMax <= 1053 ==> Truncated(A) < P31)
    ensures Truncated(A) < P64
  {
    var m, k := A.Sig(), A.exp - 1;
    SameShift(m, A.exp);
    ShlMono(m, P53, k);
    ShlMono(P52, m, k);
    PowAround52();
    ShlOfPow(W53, k);
    ShlOfPow(W52, k);
    AtLeastOne(A.Magnitude(), k);
    TruncatedBound(A.Magnitude(), k, expMax);
  }

  lemma SameShift(m: nat, exp: nat)
    requires 1023 <= exp <= 1086
    ensures Shr(Shl(m, 11), 1086 - exp) == Shr(Shl(m, exp - 1), UNIT)
  {
    WidthValues();
    ShrOfShl(m, exp - 1, UNIT);
    ShrOfShl(m, 11, 1086 - exp);
  }

  lemma AtLeastOne(x: nat, k: nat)
    requires x >= Pow2(W52 + k) && k >= 1022
    ensures Shr(x, UNIT) >= 1
  {
    ShrAtLeast(x, UNIT, 1);
    ShlOfPow(0, UNIT);
    Pow2Mono(UNIT, W52 + k);
  }

  lemma TruncatedBound(x: nat, k: nat, expMax: nat)
    requires x < Pow2(W53 + k) && k + 1 <= expMax <= 1086
    ensures Shr(x, UNIT) < P64
    ensures expMax <= 1085 ==> Shr(x, UNIT) < P63
    ensures expMax <= 1053 ==> Shr(x, UNIT) < P31
  {
    PowWords();
    assert Pow2(W32) == 2 * Pow2(W32 - 1);
    BoundAt(x, k, W64);
    BoundAt(x, k, W63);
    BoundAt(x, k, W32 - 1);
    WidthValues();
  }

  lemma BoundAt(x: nat, k: nat, w: nat)
    requires x < Pow2(W53 + k)
    ensures W53 + k <= w + UNIT ==> Shr(x, UNIT) < Pow2(w)
  {
    if W53 + k <= w + UNIT {
      Pow2Mono(W53 + k, w + UNIT);
      ShlOfPow(w, UNIT);
      ShrAtLeast(x, UNIT, Pow2(w));
    }
  }

  // ---------- what the instructions should return ----------

  function Lowest(signEna: bool, w32: bool): int {
    if !signEna then 0 else if w32 then -0x8000_0000 else -0x8000_0000_0000_0000
  }

  function Highest(signEna: bool, w32: bool): int {
    if signEna then (if w32 then 0x7FFF_FFFF else 0x7FFF_FFFF_FFFF_FFFF)
    else if w32 then 0xFFFF_FFFF else 0xFFFF_FFFF_FFFF_FFFF
  }

  function Clip(x: int, low: int, high: int): int {
    if x < low then low else if x > high then high else x
  }

  /** Section 11.7 of the RISC-V Unprivileged ISA manual, rounding toward zero: the integer part clipped to the
      range of the format, its upper end for a NaN; 32-bit results are sign-extended. */
  ghost function Fcvt(signEna: bool, w32: bool, A: F64): nat {
    var low, high := Lowest(signEna, w32), Highest(signEna, w32);
    var x := if A.IsNaN() then high
             else Clip(if A.sign == 1 then 0 - Truncated(A) else Truncated(A), low, high);
    Wrap64(if w32 && x >= 0x8000_0000 then x - 0x1_0000_0000 else x)
  }

  /** The integer part has at most w bits exactly if the exponent is below 1023 + w. */
  lemma TruncatedAgainst(A: F64, w: nat)
    requires A.Valid()
    ensures Truncated(A) < Pow2(w) <==> A.exp < 1023 + w
  {
    var k := A.Exp1() - 1;
    PowAround52();
    ShrAtLeast(A.Magnitude(), UNIT, Pow2(w));
    ShlOfPow(w, UNIT);
    if A.exp < 1023 + w {
      ShlMono(A.Sig(), P53, k);
      ShlOfPow(W53, k);
      Pow2Mono(W53 + k, w + UNIT);
    } else {
      ShlCompare(A.Sig(), P52, k);
      ShlOfPow(W52, k);
      Pow2Mono(w + UNIT, W52 + k);
    }
  }

  /** The widths that matter. */
  lemma TruncatedRanges(A: F64)
    requires A.Valid()
    ensures Truncated(A) < 1 <==> A.exp < 1023
    ensures Truncated(A) < P31 <==> A.exp < 1054
    ensures Truncated(A) < P32 <==> A.exp < 1055
    ensures Truncated(A) < P63 <==> A.exp < 1086
    ensures Truncated(A) < P64 <==> A.exp < 1087
  {
    PowWords();
    assert Pow2(W32) == 2 * Pow2(W32 - 1);
    TruncatedAgainst(A, 0);
    TruncatedAgainst(A, W32 - 1);
    TruncatedAgainst(A, W32);
    TruncatedAgainst(A, W63);
    TruncatedAgainst(A, W64);
    WidthValues();
  }

  /** FCVT.L.D takes everything out of range for the smallest integer, which is right below the range. */
  lemma FcvtLExact(A: F64)
    requires A.Valid()
    ensures Converted(true, false, A) == Fcvt(true, false, A) <==> A.exp <= 1085 || (A.sign == 1 && !A.IsNaN())
  {
    TruncatedRanges(A);
  }

  lemma FcvtWExact(A: F64)
    requires A.Valid()
    ensures Converted(true, true, A) == Fcvt(true, true, A) <==> A.exp <= 1053 || (A.sign == 1 && !A.IsNaN())
  {
    TruncatedRanges(A);
  }

  /** FCVT.LU.D wraps negative numbers around and returns 2^63 for those that are too large. */
  lemma FcvtLUExact(A: F64)
    requires A.Valid()
    ensures Converted(false, false, A) == Fcvt(false, false, A) <==> A.exp <= if A.sign == 1 then 1022 else 1086
  {
    TruncatedRanges(A);
  }

  /** FCVT.WU.D keeps the low word of what is below 2^63 and does not extend its sign. */
  lemma FcvtWUExact(A: F64)
    requires A.Valid()
    ensures Converted(false, true, A) == Fcvt(false, true, A) <==>
            if A.sign == 0 then A.exp <= 1053
            else if A.exp <= 1085 then Truncated(A) % 0x1_0000_0000 == 0
            else !A.IsNaN()
  {
    TruncatedRanges(A);
    LowWordOf(Truncated(A));
  }

  lemma LowWordOf(x: nat)
    ensures x < P32 ==> Wrap64(x) % 0x1_0000_0000 == x
    ensures x < P63 ==> (Wrap64(0 - x) % 0x1_0000_0000 == 0 <==> x % 0x1_0000_0000 == 0)
  {
    WrapLow(x);
    NegatedLow(x);
  }

  lemma WrapLow(x: nat)
    ensures Wrap64(0 - x) % 0x1_0000_0000 == (0 - x) % 0x1_0000_0000
  {
    var q := (0 - x) / 0x1_0000_0000_0000_0000;
    assert 0 - x == q * 0x1_0000_0000 * 0x1_0000_0000 + Wrap64(0 - x);
    SameRemainder(0 - x, Wrap64(0 - x), q * 0x1_0000_0000);
  }

  lemma SameRemainder(x: int, y: int, k: int)
    requires x == k * 0x1_0000_0000 + y
    ensures x % 0x1_0000_0000 == y % 0x1_0000_0000
  {
  }

  lemma NegatedLow(x: nat)
    ensures (0 - x) % 0x1_0000_0000 == 0 <==> x % 0x1_0000_0000 == 0
  {
  }

  /** FCVT.LU.D of -1 gives 2^64 - 1 instead of 0, FCVT.L.D of infinity -2^63 instead of 2^63 - 1. */
  lemma FcvtExamples()
    ensures var minusOne, inf := F64(1, 1023, 0), F64(0, EXP_MAX, 0);
            && Converted(false, false, minusOne) != Fcvt(false, false, minusOne)
            && Converted(true, false, inf) == P63 != Fcvt(true, false, inf)
  {
    FcvtLUExact(F64(1, 1023, 0));
    FcvtLExact(F64(0, EXP_MAX, 0));
  }

  // ---------- round trip ----------

  /** What FCVT.L.D returns, read as a signed number. */
  ghost function ToSigned(A: F64): int {
    if A.exp > 1023 + 62 then -0x8000_0000_0000_0000
    else if A.sign == 1 then 0 - Truncated(A) else Truncated(A)
  }

  lemma ToSignedIs(A: F64)
    requires A.Valid()
    ensures ToSigned(A) == ToInt64(Converted(true, false, A))
  {
    TruncatedRanges(A);
  }

  /** The magnitude keeps all its bits through the conversion to double. */
  ghost predicate Exact(a: nat)
    requires a < Pow2(W64)
  {
    Low(Shl(a, Shift64(a)), 11) == 0
  }

  /** Integer part of the double that a converts to. */
  lemma ConvertedMagnitude(a: nat, sign: bit)
    requires 0 < a < Pow2(W64)
    ensures var f, r := Int2DoubleWord(sign, a), Shift64(a);
            var v := Shl(a, r);
            f.Magnitude() == Shl(Shr(v, 11) + RoundUp11(v), 1085 - r)
  {
    var f, r := Int2DoubleWord(sign, a), Shift64(a);
    var v := Shl(a, r);
    Normalized(a);
    IntCode(a, sign);
    CodeOfFields(f);
    MagForm(1085 - r, Shr(v, 11) + RoundUp11(v));
    assert CodeOf(1085 - r, Shr(v, 11)) + RoundUp11(v) == CodeOf(1085 - r, Shr(v, 11) + RoundUp11(v));
  }

  lemma ExactTruncates(a: nat, sign: bit)
    requires 0 < a < Pow2(W64) && Exact(a)
    ensures Truncated(Int2DoubleWord(sign, a)) == a
  {
    var r := Shift64(a);
    var v := Shl(a, r);
    ConvertedMagnitude(a, sign);
    SplitAt(v, 11);
    ShlShl(Shr(v, 11), 11, UNIT);
    ShlShl(a, r, UNIT);
    WidthValues();
    ShlShl(Shr(v, 11), 1085 - r, r);
    assert Shl(Shl(Shr(v, 11), 1085 - r), r) == Shl(Shl(a, UNIT), r) by {
      ShlSwap(a, r, UNIT);
    }
    ShlCompare(Shl(Shr(v, 11), 1085 - r), Shl(a, UNIT), r);
    ShrOfShl(a, UNIT, UNIT);
  }

  /** A magnitude with eleven leading zeros is exact. */
  lemma WideShiftIsExact(a: nat)
    requires 0 < a < Pow2(W64) && Shift64(a) >= 11
    ensures Exact(a)
  {
    var r := Shift64(a);
    ShlShl(a, r - 11, 11);
    LowBound(Shl(a, r - 11), 0);
    SplitUnique(Shl(a, r), 11, Shl(a, r - 11), 0);
  }

  lemma InexactDiffers(a: nat, sign: bit)
    requires 0 < a < Pow2(W64) && !Exact(a)
    ensures Truncated(Int2DoubleWord(sign, a)) != a
  {
    var r := Shift64(a);
    if r >= 11 {
      WideShiftIsExact(a);
    } else {
      var q := Shr(Shl(a, r), 11) + RoundUp11(Shl(a, r));
      ConvertedMagnitude(a, sign);
      WidthValues();
      ShrOfShl(q, 1085 - r, UNIT);
      assert Truncated(Int2DoubleWord(sign, a)) == Shl(q, 11 - r);
      ShiftedIsExact(a, q, r);
    }
  }

  lemma ShiftedIsExact(a: nat, q: nat, r: nat)
    requires 0 < a < Pow2(W64) && r == Shift64(a) < 11
    ensures Shl(q, 11 - r) == a ==> Exact(a)
  {
    ShlShl(q, 11 - r, r);
    LowBound(q, 0);
    if Shl(q, 11 - r) == a {
      SplitUnique(Shl(a, r), 11, q, 0);
    }
  }

  lemma ConvertedExponent(a: nat, sign: bit)
    requires 0 < a < Pow2(W64)
    ensures Int2DoubleWord(sign, a).exp > 1085 <==> Truncated(Int2DoubleWord(sign, a)) >= P63
  {
    var f := Int2DoubleWord(sign, a);
    IntCode(a, sign);
    if f.exp <= 1085 {
      if f.exp < 1023 {
        TruncatedSmall(f);
      } else {
        TruncatedLarge(f, 1085);
      }
    } else {
      var k := f.exp - 1;
      PowAround52();
      ShlMono(P52, f.Sig(), k);
      ShlOfPow(W52, k);
      PowWords();
      ShlOfPow(W63, UNIT);
      WidthValues();
      Pow2Mono(W63 + UNIT, W52 + k);
      ShrAtLeast(f.Magnitude(), UNIT, P63);
    }
  }

  /** FCVT.D.L followed by FCVT.L.D gives back every signed 64-bit integer whose magnitude has at most
      53 significant bits, and no other. */
  lemma RoundTrip(x: int)
    requires -0x8000_0000_0000_0000 <= x < 0x8000_0000_0000_0000
    ensures Abs(x) < Pow2(W64)
    ensures ToInt64(Converted(true, false, Int2DoubleWord(if x < 0 then 1 else 0, Abs(x)))) == x <==> Exact(Abs(x))
  {
    PowWords();
    var a, sign: bit := Abs(x), if x < 0 then 1 else 0;
    SignedRoundTrip(x, a, sign);
    Int2DoubleRounds(x);
    ToSignedIs(Int2DoubleWord(sign, a));
  }

  lemma SignedRoundTrip(x: int, a: nat, sign: bit)
    requires -0x8000_0000_0000_0000 <= x < 0x8000_0000_0000_0000
    requires a == Abs(x) && sign == (if x < 0 then 1 else 0) && a < Pow2(W64)
    ensures ToSigned(Int2DoubleWord(sign, a)) == x <==> Exact(a)
  {
    PowWords();
    if a == 0 {
      ZeroWord(sign);
      ShlPow(0, Shift64(0));
      LowBound(0, 11);
      TruncatedSmall(F64(sign, 0, 0));
    } else {
      ConvertedExponent(a, sign);
      IntCode(a, sign);
      if Exact(a) {
        ExactTruncates(a, sign);
      } else {
        InexactDiffers(a, sign);
        MinimumIsExact();
      }
    }
  }

  lemma MinimumIsExact()
    ensures 0 < P63 < Pow2(W64) && Exact(P63)
  {
    var a := P63;
    PowWords();
    MsbUnique(a, W63);
    Pow2Table();
    Pow2Add(W52, 11);
    ShlOfPow(W52, 11);
    SplitUnique(a, 11, P52, 0);
  }

  /** In particular every integer up to 2^53 in magnitude survives. */
  lemma SmallIsExact(a: nat)
    requires a <= P53
    ensures a < Pow2(W64) && Exact(a)
  {
    PowWords();
    PowAround52();
    if a == 0 {
      ShlPow(0, Shift64(0));
      LowBound(0, 11);
    } else if a == P53 {
      WidthValues();
      MsbUnique(a, W53);
      TrailingZeros(a, P52, 1);
    } else {
      assert Msb(a) <= W52 by { if Msb(a) >= W53 { Pow2Mono(W53, Msb(a)); } }
      WidthValues();
      TrailingZeros(a, a, 0);
    }
  }

  lemma TrailingZeros(a: nat, h: nat, z: nat)
    requires 0 < a < Pow2(W64) && a == Shl(h, z) && Shift64(a) + z >= 11
    ensures Exact(a)
  {
    var r := Shift64(a);
    ShlShl(h, z, r);
    ShlShl(h, z + r - 11, 11);
    Pow2Table();
    SplitUnique(Shl(a, r), 11, Shl(h, z + r - 11), 0);
  }
}
