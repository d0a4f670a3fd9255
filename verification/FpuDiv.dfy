/** FDIV.D: the divider, the exponent path and the rounding stage, and how far the result is the exact
    quotient rounded to nearest even. */
module FpuDiv {
  import opened Bits
  import opened Ieee754
  import opened FpuPipeline
  import opened FpuRounding
  import opened RippleAdder
  import opened FpuAddSub
  import FpuDivider

  // ---------- rounding a quotient ----------

  /** The exact number n / D seen through a quotient: X / d, scaled by 2^E, with w fraction bits. */
  ghost predicate Ratio(n: nat, D: nat, w: nat, X: nat, E: nat, d: nat, b: nat) {
    d > 0 && D == Shl(d, b) && Shl(n, w) == Shl(X, E + b)
  }

  /** Comparing the exact number with x * 2^E is comparing X with x * 2^w * d. */
  lemma CompareRatio(n: nat, D: nat, w: nat, X: nat, E: nat, d: nat, b: nat, x: nat, k: nat)
    requires Ratio(n, D, w, X, E, d, b)
    ensures k * n < Shl(x, E) * D <==> k * X < Shl(x, w) * d
    ensures k * n == Shl(x, E) * D <==> k * X == Shl(x, w) * d
  {
    ScaledProduct(x, E, d, b, D);
    TimesShifted(x, d, w);
    CompareAt(n, w, X, E + b, x * d, k, Shl(x, E) * D, Shl(x, w) * d);
  }

  lemma CompareAt(n: nat, w: nat, X: nat, s: nat, t: nat, k: nat, y: nat, z: nat)
    requires Shl(n, w) == Shl(X, s) && y == Shl(t, s) && z == Shl(t, w)
    ensures k * n < y <==> k * X < z
    ensures k * n == y <==> k * X == z
  {
    CompareScaled(n, 0, s, w, X, t, k);
  }

  lemma TimesShifted(x: nat, d: nat, l: nat)
    ensures Shl(x * d, l) == Shl(x, l) * d
  {
    ShlTimes(d, x, l);
    MulCommute(x, d);
  }

  lemma ScaledProduct(x: nat, E: nat, d: nat, b: nat, D: nat)
    requires D == Shl(d, b)
    ensures Shl(x, E) * D == Shl(x * d, E + b)
  {
    TimesShifted(x, d, E);
    ShlTimes(Shl(x, E), d, b);
    MulCommute(Shl(x, E), D);
    ShlShl(x * d, E, b);
  }

  /** The two codes next to the number, and the middle between them, in the scale of D. */
  lemma CodesAt(E: nat, q: nat, c: nat, D: nat)
    requires q < P53 && (E == 0 || q >= P52) && c == CodeOf(E, q)
    ensures Scaled(c, D) == Shl(q, E) * D && Scaled(c + 1, D) == Shl(q + 1, E) * D
    ensures Mid2(c, D) == Shl(2 * q + 1, E) * D
    ensures c % 2 == q % 2
  {
    MagForm(E, q);
    MagForm(E, q + 1);
    assert CodeOf(E, q + 1) == c + 1;
    CodeParity(E, q);
    ShlAdd(q, q + 1, E);
    Distributes(Shl(q, E), Shl(q + 1, E), D);
    MulSame(Mag(c), Shl(q, E), D);
    MulSame(Mag(c + 1), Shl(q + 1, E), D);
  }

  lemma Distributes(x: int, y: int, d: int)
    ensures (x + y) * d == x * d + y * d
  {
  }

  /** Keeping the significand q is right when the number is below the middle, or at it with q even. */
  lemma KeepRatio(n: nat, D: nat, w: nat, X: nat, E: nat, d: nat, b: nat, q: nat)
    requires Ratio(n, D, w, X, E, d, b) && D > 0 && Shl(q, w) * d <= X
    requires q < P53 && (E == 0 || q >= P52) && CodeOf(E, q) < INF
    ensures RoundsTo(n, D, CodeOf(E, q)) <==>
            2 * X < Shl(2 * q + 1, w) * d || (2 * X == Shl(2 * q + 1, w) * d && q % 2 == 0)
  {
    CodesAt(E, q, CodeOf(E, q), D);
    CompareRatio(n, D, w, X, E, d, b, q, 1);
    CompareRatio(n, D, w, X, E, d, b, 2 * q + 1, 2);
    RoundKeep(n, D, CodeOf(E, q));
  }

  /** Rounding up is right when the number is above the middle, or at it with q odd. */
  lemma StepRatio(n: nat, D: nat, w: nat, X: nat, E: nat, d: nat, b: nat, q: nat)
    requires Ratio(n, D, w, X, E, d, b) && D > 0 && X < Shl(q + 1, w) * d
    requires q < P53 && (E == 0 || q >= P52) && CodeOf(E, q) < INF
    ensures RoundsTo(n, D, CodeOf(E, q) + 1) <==>
            2 * X > Shl(2 * q + 1, w) * d || (2 * X == Shl(2 * q + 1, w) * d && q % 2 == 1)
  {
    CodesAt(E, q, CodeOf(E, q), D);
    CompareRatio(n, D, w, X, E, d, b, q + 1, 1);
    CompareRatio(n, D, w, X, E, d, b, 2 * q + 1, 2);
    RoundStep(n, D, CodeOf(E, q));
  }

  /** Where X lies relative to a significand and to the middle above it, by quotient and remainder. */
  lemma QuotientSide(X: nat, d: nat, z: nat, rho: nat, w: nat)
    requires X == z * d + rho && rho < d && w > 0
    ensures var q := Shr(z, w);
            && Shl(q, w) * d <= X < Shl(q + 1, w) * d
            && (2 * X < Shl(2 * q + 1, w) * d <==> 2 * Low(z, w) < Pow2(w))
            && (2 * X == Shl(2 * q + 1, w) * d <==> 2 * Low(z, w) == Pow2(w) && rho == 0)
  {
    var q, f, p := Shr(z, w), Low(z, w), Pow2(w);
    Neighbours(z, w);
    SideOf(X, d, Shl(q, w), Shl(q + 1, w), Shl(2 * q + 1, w), f, p, rho, z);
  }

  lemma Neighbours(z: nat, w: nat)
    requires w > 0
    ensures var q, p := Shr(z, w), Pow2(w);
            && z == Shl(q, w) + Low(z, w) && Low(z, w) < p && p % 2 == 0
            && Shl(q + 1, w) == Shl(q, w) + p && Shl(2 * q + 1, w) == Shl(q, w) + Shl(q, w) + p
  {
    var q := Shr(z, w);
    SplitAt(z, w);
    LowBound(z, w);
    ShlAdd(q, 1, w);
    ShlAdd(q, q + 1, w);
    ShlOfPow(0, w);
    assert Pow2(w) == 2 * Pow2(w - 1);
  }

  lemma SideOf(X: nat, d: nat, s: nat, up: nat, mid: nat, f: nat, p: nat, rho: nat, z: nat)
    requires z == s + f && f < p && p % 2 == 0 && X == z * d + rho && rho < d && up == s + p && mid == s + s + p
    ensures s * d <= X < up * d
    ensures 2 * X < mid * d <==> 2 * f < p
    ensures 2 * X == mid * d <==> 2 * f == p && rho == 0
  {
    Distributes(s, f, d);
    Distributes(s, p, d);
    Distributes(s + s, p, d);
    Distributes(s, s, d);
    Distributes(f, f, d);
    MulMono(f + 1, p, d);
    Distributes(f, 1, d);
    if 2 * f < p {
      MulMono(2 * f + 2, p, d);
      Distributes(2 * f, 2, d);
    } else if 2 * f > p {
      MulMono(p + 1, 2 * f, d);
      Distributes(p, 1, d);
    } else {
      MulSame(2 * f, p, d);
    }
  }

  /** The rounding decision by quotient z and remainder rho. */
  lemma RoundRatio(n: nat, D: nat, w: nat, X: nat, E: nat, d: nat, b: nat, z: nat, rho: nat)
    requires Ratio(n, D, w, X, E, d, b) && D > 0 && X == z * d + rho && rho < d && w > 0
    requires Shr(z, w) < P53 && (E == 0 || Shr(z, w) >= P52) && CodeOf(E, Shr(z, w)) < INF
    ensures RoundsTo(n, D, CodeOf(E, Shr(z, w))) <==>
            2 * Low(z, w) < Pow2(w) || (2 * Low(z, w) == Pow2(w) && rho == 0 && Shr(z, w) % 2 == 0)
    ensures RoundsTo(n, D, CodeOf(E, Shr(z, w)) + 1) <==>
            2 * Low(z, w) > Pow2(w) || (2 * Low(z, w) == Pow2(w) && (rho > 0 || Shr(z, w) % 2 == 1))
  {
    QuotientSide(X, d, z, rho, w);
    KeepRatio(n, D, w, X, E, d, b, Shr(z, w));
    StepRatio(n, D, w, X, E, d, b, Shr(z, w));
  }

  // ---------- the quotient bits at the rounding stage ----------

  /** The quotient Q moved by m places, as alignment and the shift of a subnormal result leave it. */
  ghost function Placed(Q: nat, m: int): nat {
    if m >= 0 then Shl(Q, m) else Shr(Q, -m)
  }

  /** What the 52 bits below the significand say about the bits of Q. */
  lemma PlacedFraction(Q: nat, m: int, v: nat, w: nat)
    requires m < W52 && w == W52 - m && v == Placed(Q, m)
    ensures Shr(Q, w) == Shr(v, W52)
    ensures 2 * Low(Q, w) < Pow2(w) <==> Low(v, W52) < P51
    ensures 2 * Low(Q, w) == Pow2(w) <==> Low(v, W52) == P51 && (m < 0 ==> Low(Q, -m) == 0)
  {
    if m < 0 {
      TruncatedFraction(Q, -m);
    } else {
      ShiftedFraction(Q, m, v, w);
    }
  }

  lemma ShiftedFraction(Q: nat, m: nat, v: nat, w: nat)
    requires m < W52 && w == W52 - m && v == Shl(Q, m)
    ensures Shr(Q, w) == Shr(v, W52)
    ensures 2 * Low(Q, w) < Pow2(w) <==> Low(v, W52) < P51
    ensures 2 * Low(Q, w) == Pow2(w) <==> Low(v, W52) == P51
  {
    ShiftedParts(Q, m, v, w);
    ShiftedHalf(Low(Q, w), m, w);
  }

  lemma ShiftedParts(Q: nat, m: nat, v: nat, w: nat)
    requires m < W52 && w == W52 - m && v == Shl(Q, m)
    ensures Shr(v, W52) == Shr(Q, w) && Low(v, W52) == Shl(Low(Q, w), m)
  {
    var q, f := Shr(Q, w), Low(Q, w);
    SplitAt(Q, w);
    LowBound(Q, w);
    ShlAdd(Shl(q, w), f, m);
    ShlShl(q, w, m);
    ShlOfPow(w, m);
    ShlCompare(f, Pow2(w), m);
    SplitUnique(v, W52, q, Shl(f, m));
  }

  lemma ShiftedHalf(f: nat, m: nat, w: nat)
    requires m < W52 && w == W52 - m
    ensures 2 * f < Pow2(w) <==> Shl(f, m) < P51
    ensures 2 * f == Pow2(w) <==> Shl(f, m) == P51
  {
    PowAround52();
    ShlOfPow(w, m);
    ShlAdd(f, f, m);
    ShlCompare(2 * f, Pow2(w), m);
  }

  /** Fewer than 52 places to the left: wrong only for an apparent tie that something was lost from. */
  lemma RoundPlaced(n: nat, D: nat, X: nat, E: nat, d: nat, b: nat, Q: nat, r: nat, m: int, v: nat)
    requires m < W52 && Ratio(n, D, W52 - m, X, E, d, b) && D > 0 && X == Q * d + r && r < d && v == Placed(Q, m)
    requires Shr(v, W52) < P53 && (E == 0 || Shr(v, W52) >= P52) && CodeOf(E, Shr(v, W52)) < INF
    ensures RoundsTo(n, D, CodeOf(E, Shr(v, W52)) + RoundUp(v)) <==>
            !(Low(v, W52) == P51 && Shr(v, W52) % 2 == 0 && (r != 0 || (m < 0 && Low(Q, -m) != 0)))
  {
    PlacedFraction(Q, m, v, W52 - m);
    RoundRatio(n, D, W52 - m, X, E, d, b, Q, r);
  }

  /** A quotient of at most 53 bits has no fraction bits left: it is truncated. */
  lemma RoundInteger(n: nat, D: nat, X: nat, E: nat, d: nat, b: nat, Q: nat, r: nat)
    requires Ratio(n, D, 0, X, E, d, b) && D > 0 && X == Q * d + r && r < d
    requires Q < P53 && (E == 0 || Q >= P52) && CodeOf(E, Q) < INF
    ensures RoundsTo(n, D, CodeOf(E, Q)) <==> 2 * r < d || (2 * r == d && Q % 2 == 0)
  {
    IntegerSide(X, d, Q, r);
    KeepInteger(n, D, X, E, d, b, Q);
  }

  lemma KeepInteger(n: nat, D: nat, X: nat, E: nat, d: nat, b: nat, q: nat)
    requires Ratio(n, D, 0, X, E, d, b) && D > 0 && q * d <= X
    requires q < P53 && (E == 0 || q >= P52) && CodeOf(E, q) < INF
    ensures RoundsTo(n, D, CodeOf(E, q)) <==>
            2 * X < (2 * q + 1) * d || (2 * X == (2 * q + 1) * d && q % 2 == 0)
  {
    MulSame(Shl(q, 0), q, d);
    MulSame(Shl(2 * q + 1, 0), 2 * q + 1, d);
    KeepRatio(n, D, 0, X, E, d, b, q);
  }

  lemma IntegerSide(X: nat, d: nat, Q: nat, r: nat)
    requires X == Q * d + r
    ensures Q * d <= X && (2 * X < (2 * Q + 1) * d <==> 2 * r < d) && (2 * X == (2 * Q + 1) * d <==> 2 * r == d)
  {
    Distributes(2 * Q, 1, d);
    Distributes(Q, Q, d);
  }

  /** A quotient of 52 bits gets a zero appended. */
  lemma RoundDoubled(n: nat, D: nat, X: nat, E: nat, d: nat, b: nat, Q: nat, r: nat)
    requires Ratio(n, D, 0, 2 * X, E, d, b) && D > 0 && X == Q * d + r && r < d
    requires 2 * Q < P53 && (E == 0 || 2 * Q >= P52) && CodeOf(E, 2 * Q) < INF
    ensures RoundsTo(n, D, CodeOf(E, 2 * Q)) <==> 4 * r <= d
  {
    var q, Y := 2 * Q, 2 * X;
    DoubledSide(X, d, Q, r, q);
    KeepInteger(n, D, Y, E, d, b, q);
  }

  lemma DoubledSide(X: nat, d: nat, Q: nat, r: nat, q: nat)
    requires X == Q * d + r && q == 2 * Q
    ensures q * d <= 2 * X
    ensures 2 * (2 * X) < (2 * q + 1) * d <==> 4 * r < d
    ensures 2 * (2 * X) == (2 * q + 1) * d <==> 4 * r == d
  {
    Distributes(Q, Q, d);
    Distributes(q, q, d);
    Distributes(2 * q, 1, d);
  }

  // ---------- the divider unit ----------

  /** Left shift that normalizes a significand. */
  ghost function PreShift(s: nat): (p: nat)
    requires 0 < s < P53
    ensures p <= W52 && p == W52 - Msb(s)
  {
    assert Msb(s) <= W52 by {
      PowAround52();
      if Msb(s) > W52 {
        Pow2Mono(W53, Msb(s));
      }
    }
    W52 - Msb(s)
  }

  lemma PreShiftRange(s: nat)
    requires 0 < s < P53
    ensures P52 <= Shl(s, PreShift(s)) < P53
  {
    var m, p := Msb(s), PreShift(s);
    PowAround52();
    ShlMono(Pow2(m), s, p);
    ShlMono(s, Pow2(m + 1), p);
    ShlOfPow(m, p);
    ShlOfPow(m + 1, p);
    assert m + 1 + p == W53;
  }

  /** Exponent of the aligned quotient; at most zero when the result is subnormal. */
  function ExpAlign(A: F64, B: F64, pre: int, shift: int): int {
    var expAB := A.exp - B.exp + 1023;
    if B.exp == 0 && A.exp != 0 then expAB + (pre - shift - 1)
    else if B.exp != 0 && A.exp == 0 then expAB + (pre - shift + 1)
    else expAB + (pre - shift)
  }

  function PostShift(e: int): nat {
    if e <= 0 then 0 - e + 1 else 0
  }

  /** Result multiplexers. */
  function PackDiv(A: F64, B: F64, e: int, mantShort: nat, rnd: bit): F64 {
    var zeroA := A.exp == 0 && A.mant == 0;
    var zeroB := B.exp == 0 && B.mant == 0;
    var nanA := A.exp == EXP_MAX;
    var nanB := B.exp == EXP_MAX;
    var infA := nanA && A.mant == 0;
    var infB := nanB && B.mant == 0;
    var overflow := e / 4096 % 2 == 0 && e / 2048 % 2 == 1;
    var underflow := e / 4096 % 2 == 1 && e / 2048 % 2 == 1;
    var sign: bit :=
      if infA && infB then 1
      else if nanA && !infA then A.sign
      else if nanB && !infB then B.sign
      else if zeroA && zeroB then 1
      else Xor(A.sign, B.sign);
    var exp :=
      if nanB && !infB then EXP_MAX
      else if (underflow || zeroA) && !zeroB then 0
      else if overflow || zeroB then EXP_MAX
      else if nanA then EXP_MAX
      else if infB || e < 0 then 0
      else (e + if mantShort == 0x1F_FFFF_FFFF_FFFF && rnd == 1 then 1 else 0) % 2048;
    var mant :=
      if (zeroA && zeroB) || (infA && infB) then P51
      else if nanA && !infA then QuietBit(A.mant)
      else if nanB && !infB then QuietBit(B.mant)
      else if overflow || e == EXP_MAX || infA || infB then 0
      else (mantShort + rnd) % 0x10_0000_0000_0000;
    F64(sign, exp, mant)
  }

  ghost function Divisor(B: F64): (d: nat)
    requires B.Valid() && B.Sig() > 0
    ensures P52 <= d < P53
  {
    PreShiftRange(B.Sig());
    Shl(B.Sig(), PreShift(B.Sig()))
  }

  ghost function QuotientOf(a: nat, d: nat): (q: nat)
    requires a < P53 && P52 <= d < P53
    ensures q < Pow2(W105) && (q > 0 <==> a > 0)
  {
    FpuDivider.QuotRange(a, d);
    WidthValues();
    Shl(a, W104) / d
  }

  ghost function Quotient(A: F64, B: F64): nat
    requires A.Valid() && B.Valid() && B.Sig() > 0
  {
    QuotientOf(A.Sig(), Divisor(B))
  }

  ghost function Residue(A: F64, B: F64): nat
    requires A.Valid() && B.Valid() && B.Sig() > 0
  {
    Shl(A.Sig(), W104) % Divisor(B)
  }

  /** Left shift that brings the leading one of the quotient to bit 104. */
  ghost function LeftShift(q: nat): (l: nat)
    requires q < Pow2(W105)
    ensures l <= W104
  {
    if q == 0 then 0
    else
      assert Msb(q) <= W104 by {
        if Msb(q) >= W105 {
          Pow2Mono(W105, Msb(q));
        }
      }
      W104 - Msb(q)
  }

  ghost function DivExp(A: F64, B: F64): int
    requires A.Valid() && B.Valid() && B.Sig() > 0
  {
    ExpAlign(A, B, PreShift(B.Sig()), LeftShift(Quotient(A, B)))
  }

  ghost function DivScaled(A: F64, B: F64): nat
    requires A.Valid() && B.Valid() && B.Sig() > 0
  {
    Shr(Shl(Quotient(A, B), LeftShift(Quotient(A, B))), PostShift(DivExp(A, B)))
  }

  /** The divider on whole numbers. */
  ghost function DivWord(A: F64, B: F64): F64
    requires A.Valid() && B.Valid() && B.Sig() > 0
  {
    var v := DivScaled(A, B);
    PackDiv(A, B, DivExp(A, B), Shr(v, W52), RoundUp(v))
  }

  method Normalize(mantB: nat) returns (divisor: nat, preShift: nat)
    requires mantB < P53
    ensures divisor < P53 && preShift <= 52
    ensures mantB > 0 ==> preShift == PreShift(mantB) && divisor == Shl(mantB, preShift)
    ensures mantB == 0 ==> preShift == 52 && divisor == 0
  {
    WidthValues();
    PowAround52();
    preShift := 0;
    while preShift < 52 && Bit(mantB, 52 - preShift) == 0
      invariant preShift <= 52 && mantB < Pow2(53 - preShift)
      decreases 52 - preShift
    {
      LeadingBit(mantB, 52 - preShift);
      preShift := preShift + 1;
    }
    divisor := Shl(mantB, preShift);
    Normalized(mantB, 52 - preShift, preShift);
    if mantB == 0 {
      BitAbove(0, 0, 52 - preShift);
      ShlPow(0, preShift);
    }
  }

  lemma Normalized(s: nat, m: nat, p: nat)
    requires s < P53 && m + p == W52 && s < Pow2(m + 1) && (m == 0 || Bit(s, m) == 1)
    ensures Shl(s, p) < P53
    ensures s > 0 ==> p == PreShift(s)
  {
    PowAround52();
    ShlMono(s, Pow2(m + 1), p);
    ShlOfPow(m + 1, p);
    assert m + 1 + p == W53;
    LeadingBit(s, m);
    if s > 0 {
      MsbUnique(s, m);
    }
  }

  /** The quotient bits moved up so that the leading one is at bit 104. */
  method AlignQuotient(result: array<bit>, l: nat) returns (align: array<bit>)
    requires result.Length == 106
    ensures align.Length == 105
    ensures Shl(Value(result[..105]), l) < Pow2(W105) ==> Value(align[..]) == Shl(Value(result[..105]), l)
  {
    ghost var q := Value(result[..105]);
    align := new bit[105];
    for i := 0 to 105
      invariant forall j :: 0 <= j < i ==> align[j] == Bit(Shl(q, l), j)
    {
      BitOfShl(q, l, i);
      if i - l >= 0 {
        ArrayBit(result[..105], i - l);
        align[i] := result[i - l];
      } else {
        align[i] := 0;
      }
    }
    WidthValues();
    if Shl(q, l) < Pow2(W105) {
      ValueIs(align[..], Shl(q, l));
    }
  }

  lemma AlignedQuotient(q: nat)
    requires q < Pow2(W105)
    ensures Shl(q, LeftShift(q)) < Pow2(W105)
    ensures q > 0 ==> Shl(q, LeftShift(q)) >= Pow2(W104)
  {
    if q > 0 {
      AlignedBelow(q, Msb(q), LeftShift(q));
    }
  }

  /** The divider and the alignment of its quotient. */
  method DivideAligned(a: nat, divisor: nat) returns (mantAlign: array<bit>, lshift: nat)
    requires a < P53 && divisor < P53
    ensures mantAlign.Length == 105
    ensures divisor >= P52 ==>
              && lshift == LeftShift(QuotientOf(a, divisor))
              && Value(mantAlign[..]) == Shl(QuotientOf(a, divisor), lshift)
    ensures divisor == 0 ==> lshift == 0 && Value(mantAlign[..]) == Pow2(W105) - 1
  {
    var idivResult, idivLShift, _, _ := FpuDivider.IDiv53(a, divisor);
    lshift := idivLShift;
    mantAlign := AlignQuotient(idivResult, lshift);
    if divisor >= P52 {
      WidthValues();
      AlignedQuotient(QuotientOf(a, divisor));
    }
  }

  /** The division-by-zero flag is raised for a divisor of +0 alone. */
  predicate RaisesDZ(B: F64) {
    B == F64(0, 0, 0)
  }

  /** It is raised rightly, for a finite number divided by zero, exactly outside these cases: -0 as a divisor of such
      a number, and +0 as a divisor of zero, infinity or a NaN. */
  lemma FlagExact(A: F64, B: F64)
    requires A.Valid() && B.Valid()
    ensures (RaisesDZ(B) <==> A.Finite() && A.Sig() > 0 && B.Sig() == 0) <==>
            (B.Sig() == 0 ==> (B.sign == 0 <==> A.Finite() && A.Sig() > 0))
  {
  }

  /** The result for a zero divisor: the dividend if it is not a number, the default NaN for 0 / 0, and
      otherwise infinity with the product of the signs. */
  function DividedByZero(A: F64, B: F64): F64 {
    if A.exp == EXP_MAX && A.mant != 0 then F64(A.sign, EXP_MAX, QuietBit(A.mant))
    else if A.Sig() == 0 then F64(1, EXP_MAX, P51)
    else F64(Xor(A.sign, B.sign), EXP_MAX, 0)
  }

  method FDiv(A: F64, B: F64) returns (dest: F64, dz: bool)
    requires A.Valid() && B.Valid()
    ensures B.Sig() > 0 ==> dest == DivWord(A, B)
    ensures B.Sig() == 0 ==> dest == DividedByZero(A, B)
    ensures dz <==> RaisesDZ(B)
  {
    var divisor, preShift := Normalize(B.Sig());
    var mantAlign, idivLShift := DivideAligned(A.Sig(), divisor);
    var expAlign := ExpAlign(A, B, preShift, idivLShift);
    var mantPostScale := ShiftRightBits(mantAlign, PostShift(expAlign));
    FitsIn105(mantPostScale);
    var mantShort, rndBit := RoundBits(mantPostScale);
    dest := PackDiv(A, B, expAlign, mantShort, rndBit);
    dz := B.exp == 0 && B.mant == 0 && B.sign == 0;
    if B.Sig() > 0 {
      PreShiftRange(B.Sig());
    } else {
      PackedByZero(A, B, expAlign, Value(mantPostScale[..]));
    }
  }

  /** The quotient of ones carries into the exponent and leaves the fraction of an infinity. */
  lemma PackedByZero(A: F64, B: F64, e: int, v: nat)
    requires A.Valid() && B.Valid() && B.Sig() == 0 && e == ExpAlign(A, B, 52, 0)
    requires v == Shr(Pow2(W105) - 1, PostShift(e))
    ensures PackDiv(A, B, e, Shr(v, W52), RoundUp(v)) == DividedByZero(A, B)
  {
    assert v == Pow2(W105) - 1;
    OnesRound(v);
  }

  lemma OnesRound(v: nat)
    requires v == Pow2(W105) - 1
    ensures Shr(v, W52) == P53 - 1 && RoundUp(v) == 1
  {
    PowAround52();
    ShlOfPow(W53, W52);
    ShlPred(P53, W52);
    SplitUnique(v, W52, P53 - 1, P52 - 1);
  }

  lemma FitsIn105(a: array<bit>)
    requires a.Length == 105
    ensures Value(a[..]) < Pow2(W105)
  {
    ValueBound(a[..], a.Length);
    WidthValues();
  }

  // ---------- the exact quotient ----------

  /** r is the exact quotient rounded to nearest even, with the product of the signs. */
  ghost predicate DivCorrect(A: F64, B: F64, r: F64)
    requires A.Valid() && B.Valid()
  {
    && r.Valid()
    && RoundsTo(Shl(A.Magnitude(), UNIT), B.Magnitude(), r.Code())
    && r.sign == Xor(A.sign, B.sign)
  }

  /** Net number of places the quotient bits are moved before rounding. */
  ghost function Places(A: F64, B: F64): int
    requires A.Valid() && B.Valid() && B.Sig() > 0
  {
    LeftShift(Quotient(A, B)) - PostShift(DivExp(A, B))
  }

  /** The quotients that are rounded wrongly: those of `RoundsWrong`, and a subnormal significand that is
      rounded up to 2^52, because the carry is lost. */
  ghost predicate DivRoundsWrong(A: F64, B: F64)
    requires A.Valid() && B.Valid() && B.Sig() > 0
  {
    var Q, r, d, m := Quotient(A, B), Residue(A, B), Divisor(B), Places(A, B);
    var e, v := DivExp(A, B), DivScaled(A, B);
    e < EXP_MAX && (RoundsWrong(Q, r, d, m, v) || (e <= 0 && Shr(v, W52) == P52 - 1 && RoundUp(v) == 1))
  }

  /** Scaling both sides of a fraction does not change how it rounds. */
  lemma ScaledRounding(n: nat, D: nat, p: nat, c: nat)
    requires D > 0 && c <= INF
    ensures Shl(D, p) > 0
    ensures RoundsTo(Shl(n, p), Shl(D, p), c) <==> RoundsTo(n, D, c)
  {
    ShlCompare(0, D, p);
    ShlPow(0, p);
    MidpointsDecide(n, D, c);
    MidpointsDecide(Shl(n, p), Shl(D, p), c);
    BetweenScaled(n, D, p, c);
  }

  lemma BetweenScaled(n: nat, D: nat, p: nat, c: nat)
    requires c <= INF
    ensures BetweenMidpoints(Shl(n, p), Shl(D, p), c) <==> BetweenMidpoints(n, D, c)
  {
    ShlAdd(n, n, p);
    SideScaled(n, D, p, c);
    if c > 0 {
      SideScaled(n, D, p, c - 1);
    }
  }

  lemma SideScaled(n: nat, D: nat, p: nat, c: nat)
    ensures 2 * Shl(n, p) < Mid2(c, Shl(D, p)) <==> 2 * n < Mid2(c, D)
    ensures 2 * Shl(n, p) == Mid2(c, Shl(D, p)) <==> 2 * n == Mid2(c, D)
  {
    ShlAdd(n, n, p);
    MidScaled(c, D, p);
    ShlCompare(2 * n, Mid2(c, D), p);
  }

  lemma MidScaled(c: nat, D: nat, p: nat)
    ensures Mid2(c, Shl(D, p)) == Shl(Mid2(c, D), p)
  {
    ShlTimes(Mag(c), D, p);
    ShlTimes(Mag(c + 1), D, p);
    ShlAdd(Scaled(c, D), Scaled(c + 1, D), p);
    assert Shl(D, p) * Mag(c) == Mag(c) * Shl(D, p);
    assert Shl(D, p) * Mag(c + 1) == Mag(c + 1) * Shl(D, p);
  }

  lemma DivExpIs(A: F64, B: F64)
    requires A.Finite() && B.Finite() && B.Sig() > 0
    ensures DivExp(A, B) == A.Exp1() - B.Exp1() + 1023 + PreShift(B.Sig()) - LeftShift(Quotient(A, B))
    ensures -2048 <= DivExp(A, B) < 4096
  {
    WidthValues();
  }

  /** The exact quotient in terms of the dividend fed to the divider: numerator and denominator times 2^pre. */
  lemma Numerator(a: nat, ea: nat, u: nat, pre: nat)
    ensures Shl(Shl(Shl(a, ea), u), pre) == Shl(a, ea + u + pre)
  {
    ShlShl(a, ea, u);
    ShlShl(a, ea + u, pre);
  }

  lemma Denominator(sb: nat, eb: nat, pre: nat)
    ensures Shl(Shl(sb, eb), pre) == Shl(Shl(sb, pre), eb)
  {
    ShlSwap(sb, eb, pre);
  }

  lemma SameExponent(a: nat, s: nat, w: nat, t: nat)
    requires s + w == W104 + t
    ensures Shl(Shl(a, s), w) == Shl(Shl(a, W104), t)
  {
    ShlShl(a, s, w);
    ShlShl(a, W104, t);
  }

  /** One place too many for the significand: the dividend counts twice. */
  lemma DoubledDividend(a: nat, s: nat, t: nat)
    requires s == W104 + 1 + t
    ensures Shl(Shl(a, s), 0) == Shl(2 * Shl(a, W104), t)
  {
    SameExponent(a, s, 0, t + 1);
    ShlShl(Shl(a, W104), 1, t);
    assert Shl(Shl(a, W104), 1) == 2 * Shl(Shl(a, W104), 0) == 2 * Shl(a, W104);
  }

  // ---------- the rounding stage on numbers ----------

  /** The exact number n / D and the quotient bits Q, residue r and placement m that stand for it. */
  ghost predicate Divided(n: nat, D: nat, X: nat, E: nat, d: nat, b: nat, Q: nat, r: nat, m: int) {
    && D > 0 && X == Q * d + r && r < d && m <= W53
    && (m <= W52 ==> Ratio(n, D, W52 - m, X, E, d, b))
    && (m == W53 ==> Ratio(n, D, 0, 2 * X, E, d, b))
  }

  /** With at least 54 quotient bits: an apparent tie with an even significand, although the residue or a bit
      shifted out is not zero. With 53 or 52 quotient bits, all that a dividend of at most 3 units leaves: the
      residue is above one half, or one quarter, of the divisor. */
  ghost predicate RoundsWrong(Q: nat, r: nat, d: nat, m: int, v: nat) {
    || (m < W52 && Low(v, W52) == P51 && Shr(v, W52) % 2 == 0 && (r != 0 || (m < 0 && Low(Q, -m) != 0)))
    || (m == W52 && (2 * r > d || (2 * r == d && Q % 2 == 1)))
    || (m == W53 && 4 * r > d)
  }

  /** Quotients of 53 and of 52 bits: the significand, and no fraction. */
  lemma NoFraction(Q: nat, m: nat, v: nat)
    requires W52 <= m <= W53 && v == Shl(Q, m)
    ensures Shr(v, W52) == (if m == W52 then Q else 2 * Q) && RoundUp(v) == 0
  {
    var q := if m == W52 then Q else 2 * Q;
    if m == W53 {
      ShlShl(Q, 1, W52);
      assert Shl(Q, 1) == 2 * Shl(Q, 0) == q;
    }
    PowAround52();
    SplitUnique(v, W52, q, 0);
  }

  lemma RoundDivided(n: nat, D: nat, X: nat, E: nat, d: nat, b: nat, Q: nat, r: nat, m: int, v: nat)
    requires Divided(n, D, X, E, d, b, Q, r, m) && v == Placed(Q, m)
    requires Shr(v, W52) < P53 && (E == 0 || Shr(v, W52) >= P52) && CodeOf(E, Shr(v, W52)) < INF
    ensures RoundsTo(n, D, CodeOf(E, Shr(v, W52)) + RoundUp(v)) <==> !RoundsWrong(Q, r, d, m, v)
  {
    if m < W52 {
      RoundPlaced(n, D, X, E, d, b, Q, r, m, v);
    } else {
      NoFraction(Q, m, v);
      if m == W52 {
        RoundInteger(n, D, X, E, d, b, Q, r);
      } else {
        RoundDoubled(n, D, X, E, d, b, Q, r);
      }
    }
  }

  /** The exact number is at least the kept significand. */
  lemma KeptBelow(n: nat, D: nat, X: nat, E: nat, d: nat, b: nat, Q: nat, r: nat, m: int, v: nat)
    requires Divided(n, D, X, E, d, b, Q, r, m) && v == Placed(Q, m)
    ensures Shl(Shr(v, W52), E) * D <= n
  {
    var q := Shr(v, W52);
    if m < W52 {
      PlacedFraction(Q, m, v, W52 - m);
      QuotientSide(X, d, Q, r, W52 - m);
      CompareRatio(n, D, W52 - m, X, E, d, b, q, 1);
    } else {
      NoFraction(Q, m, v);
      if m == W52 {
        CompareRatio(n, D, 0, X, E, d, b, q, 1);
      } else {
        DoubledSide(X, d, Q, r, q);
        CompareRatio(n, D, 0, 2 * X, E, d, b, q, 1);
      }
    }
  }

  /** A subnormal significand of 2^52 - 1 that is rounded up must not become zero. */
  lemma CarryLost(n: nat, D: nat)
    requires D > 0 && (P52 - 1) * D <= n
    ensures !RoundsTo(n, D, 0)
  {
    MidpointsDecide(n, D, 0);
    assert Mag(0) == 0 && Mag(1) == 1;
    MulMono(2, P52 - 1, D);
  }

  /** A number of at least 2^1024 overflows. */
  lemma Overflows(n: nat, D: nat, E: nat, q: nat, top: nat)
    requires D > 0 && q >= P52 && top == EXP_MAX - 1 <= E && Shl(q, E) * D <= n
    ensures RoundsTo(n, D, INF)
  {
    MagForm(top, P52);
    assert CodeOf(top, P52) == INF;
    ShlShl(P52, top, E - top);
    ShlGrows(Shl(P52, top), E - top);
    ShlMonotone(P52, q, E);
    MulMono(Shl(P52, top), Shl(q, E), D);
    MulSame(Mag(INF), Shl(P52, top), D);
    RoundOverflow(n, D);
  }

  lemma ShlMonotone(x: nat, y: nat, k: nat)
    requires x <= y
    ensures Shl(x, k) <= Shl(y, k)
  {
    ShlCompare(x, y, k);
  }

  // ---------- the theorem ----------

  /** The fields of a finite quotient. */
  lemma PackedQuotient(A: F64, B: F64, e: int, q: nat, rnd: bit)
    requires A.Finite() && B.Finite() && A.Sig() > 0 && B.Sig() > 0 && -2048 <= e < 4096
    ensures var r := PackDiv(A, B, e, q, rnd);
            && r.Valid() && r.sign == Xor(A.sign, B.sign)
            && (e >= EXP_MAX && (q == P53 - 1 ==> rnd == 0) ==> r.Code() == INF)
            && (1 <= e < EXP_MAX && P52 <= q < P53 ==> r.Code() == CodeOf(e - 1, q) + rnd)
            && (e <= 0 && q < P52 ==> r.Code() == (q + rnd) % 0x10_0000_0000_0000)
  {
    ExponentBits(e);
    if 1 <= e < EXP_MAX && P52 <= q < P53 {
      PackedCode(e - 1, q, rnd);
    }
  }

  lemma ExponentBits(e: int)
    requires -2048 <= e < 4096
    ensures e / 4096 % 2 == 0 && e / 2048 % 2 == 1 <==> e >= 2048
    ensures e / 4096 % 2 == 1 && e / 2048 % 2 == 1 <==> e < 0
  {
  }

  /** A nonzero dividend leaves at least 52 quotient bits. */
  lemma QuotientBits(a: nat, d: nat)
    requires 0 < a < P53 && P52 <= d < P53
    ensures QuotientOf(a, d) > 0 && LeftShift(QuotientOf(a, d)) <= W53
  {
    var k, Q := Pow2(W51), QuotientOf(a, d);
    PowAround52();
    Pow2Add(W51, W53);
    assert W51 + W53 == W104;
    ShlMonotone(1, a, W104);
    ShlOfPow(0, W104);
    MulMono(d, P53, k);
    assert d * k == k * d;
    DivLess(Shl(a, W104), d, k);
    if Msb(Q) < W51 {
      Pow2Mono(Msb(Q) + 1, W51);
    }
  }

  lemma DividedBy(A: F64, B: F64, E: nat, pre: nat)
    requires A.Finite() && B.Finite() && A.Sig() > 0 && B.Sig() > 0 && pre == PreShift(B.Sig())
    requires E == if DivExp(A, B) >= 1 then DivExp(A, B) - 1 else 0
    ensures Divided(Shl(Shl(A.Magnitude(), UNIT), pre), Shl(B.Magnitude(), pre), Shl(A.Sig(), W104), E,
                    Divisor(B), B.Exp1() - 1, Quotient(A, B), Residue(A, B), Places(A, B))
  {
    DivExpIs(A, B);
    QuotientBits(A.Sig(), Divisor(B));
    DivModDef(Shl(A.Sig(), W104), Divisor(B));
    DividedNumbers(A.Sig(), A.Exp1() - 1, B.Sig(), B.Exp1() - 1, pre, E, Places(A, B), Divisor(B),
                   Quotient(A, B), Residue(A, B));
  }

  lemma DividedNumbers(a: nat, ea: nat, sb: nat, eb: nat, pre: nat, E: nat, m: int, d: nat, Q: nat, r: nat)
    requires d == Shl(sb, pre) && Shl(a, W104) == Q * d + r && r < d && m <= W53
    requires E + m == ea - eb + 1022 + pre
    ensures Divided(Shl(Shl(Shl(a, ea), UNIT), pre), Shl(Shl(sb, eb), pre), Shl(a, W104), E, d, eb, Q, r, m)
  {
    Numerator(a, ea, UNIT, pre);
    Denominator(sb, eb, pre);
    ShlCompare(0, d, eb);
    ShlPow(0, eb);
    if m <= W52 {
      SameExponent(a, ea + UNIT + pre, W52 - m, E + eb);
    } else {
      DoubledDividend(a, ea + UNIT + pre, E + eb);
    }
  }

  /** The significand of a quotient is never all ones with a fraction of one half or more. */
  lemma NeverAllOnes(a: nat, d: nat, Q: nat, r: nat, l: nat, v: nat)
    requires Shl(a, W104) == Q * d + r && r < d < P53 && Q > 0 && Q < Pow2(W105) && l == LeftShift(Q) && v == Shl(Q, l)
    ensures v < Pow2(W105) - P51
  {
    ShiftedDividend(a, d, Q, r, l, v);
    BelowTwice(Shl(a, l), d);
    PowerSplit();
    RoomAbove(v, d, Pow2(W105), Shl(Shl(a, l), W104));
  }

  lemma ShiftedDividend(a: nat, d: nat, Q: nat, r: nat, l: nat, v: nat)
    requires Shl(a, W104) == Q * d + r && r < d && Q > 0 && Q < Pow2(W105) && l == LeftShift(Q) && v == Shl(Q, l)
    ensures v * d <= Shl(Shl(a, l), W104) < Pow2(W105) * d
  {
    var X := Shl(a, W104);
    ShlSwap(a, W104, l);
    Distributes(Q, 1, d);
    TimesShifted(Q, d, l);
    TimesShifted(Q + 1, d, l);
    ShlCompare(X, (Q + 1) * d, l);
    ShlMonotone(Q * d, X, l);
    TopOfQuotient(Q, l);
    MulMono(Shl(Q + 1, l), Pow2(W105), d);
  }

  lemma TopOfQuotient(Q: nat, l: nat)
    requires 0 < Q < Pow2(W105) && l == LeftShift(Q)
    ensures Shl(Q + 1, l) <= Pow2(W105)
  {
    ShlMonotone(Q + 1, Pow2(Msb(Q) + 1), l);
    ShlOfPow(Msb(Q) + 1, l);
    assert Msb(Q) + 1 + l == W105;
  }

  lemma RoomAbove(v: nat, d: nat, t: nat, y: nat)
    requires v * d <= y && y + P51 * P53 <= t * d && d < P53
    ensures v < t - P51
  {
    MulMono(d, P53 - 1, P51);
    assert d * P51 == P51 * d;
    if v >= t - P51 {
      MulMono(t - P51, v, d);
      Distributes(t - P51, P51, d);
    }
  }

  lemma BelowTwice(y: nat, d: nat)
    requires Shl(y, W104) < Pow2(W105) * d
    ensures Shl(y, W104) + Pow2(W104) <= Pow2(W105) * d
  {
    var p := Pow2(W104);
    ShlPow(y, W104);
    assert Pow2(W105) == 2 * p;
    assert (2 * p) * d == (2 * d) * p;
    if y >= 2 * d {
      MulMono(2 * d, y, p);
    }
    MulMono(y + 1, 2 * d, p);
    Distributes(y, 1, p);
  }

  lemma PowerSplit()
    ensures Pow2(W104) == P51 * P53
  {
    PowAround52();
    Pow2Add(W51, W53);
    assert W51 + W53 == W104;
  }

  /** The code that is packed for exponent e and rounded significand. */
  ghost predicate PackedAs(e: int, q: nat, rnd: bit, c: nat) {
    && (e >= EXP_MAX ==> c == INF)
    && (1 <= e < EXP_MAX ==> c == CodeOf(e - 1, q) + rnd)
    && (e <= 0 ==> c == (q + rnd) % 0x10_0000_0000_0000)
  }

  lemma CodeDecided(n: nat, D: nat, X: nat, E: nat, d: nat, b: nat, Q: nat, r: nat, m: int, v: nat, e: int, c: nat)
    requires Divided(n, D, X, E, d, b, Q, r, m) && v == Placed(Q, m) && E == (if e >= 1 then e - 1 else 0)
    requires Shr(v, W52) < P53 && (if e >= 1 then Shr(v, W52) >= P52 else Shr(v, W52) < P52)
    requires PackedAs(e, Shr(v, W52), RoundUp(v), c)
    ensures RoundsTo(n, D, c) <==>
            !(e < EXP_MAX && (RoundsWrong(Q, r, d, m, v) || (e <= 0 && Shr(v, W52) == P52 - 1 && RoundUp(v) == 1)))
  {
    KeptBelow(n, D, X, E, d, b, Q, r, m, v);
    if e >= EXP_MAX {
      Overflows(n, D, E, Shr(v, W52), EXP_MAX - 1);
    } else {
      RoundDivided(n, D, X, E, d, b, Q, r, m, v);
      if e <= 0 {
        FieldOf(Shr(v, W52), RoundUp(v));
        if Shr(v, W52) + RoundUp(v) == P52 {
          CarryLost(n, D);
        }
      }
    }
  }

  lemma DivNonZero(A: F64, B: F64)
    requires A.Finite() && B.Finite() && A.Sig() > 0 && B.Sig() > 0
    ensures DivCorrect(A, B, DivWord(A, B)) <==> !DivRoundsWrong(A, B)
  {
    var e, v, pre := DivExp(A, B), DivScaled(A, B), PreShift(B.Sig());
    var E: nat := if e >= 1 then e - 1 else 0;
    DivExpIs(A, B);
    PlacedQuotient(A, B);
    PackedQuotient(A, B, e, Shr(v, W52), RoundUp(v));
    var c := DivWord(A, B).Code();
    MagnitudePositive(B);
    ScaledRounding(Shl(A.Magnitude(), UNIT), B.Magnitude(), pre, c);
    DividedBy(A, B, E, pre);
    CodeDecided(Shl(Shl(A.Magnitude(), UNIT), pre), Shl(B.Magnitude(), pre), Shl(A.Sig(), W104), E, Divisor(B),
                B.Exp1() - 1, Quotient(A, B), Residue(A, B), Places(A, B), v, e, c);
  }

  lemma MagnitudePositive(B: F64)
    requires B.Sig() > 0
    ensures B.Magnitude() > 0
  {
    ShlCompare(0, B.Sig(), B.Exp1() - 1);
    ShlPow(0, B.Exp1() - 1);
  }

  /** The bits that reach the rounding stage, and the range of their significand. */
  lemma PlacedQuotient(A: F64, B: F64)
    requires A.Finite() && B.Finite() && A.Sig() > 0 && B.Sig() > 0
    ensures DivScaled(A, B) == Placed(Quotient(A, B), Places(A, B))
    ensures DivExp(A, B) >= 1 ==> P52 <= Shr(DivScaled(A, B), W52) < P53
    ensures DivExp(A, B) >= 1 && Shr(DivScaled(A, B), W52) == P53 - 1 ==> RoundUp(DivScaled(A, B)) == 0
    ensures DivExp(A, B) <= 0 ==> Shr(DivScaled(A, B), W52) < P52
  {
    var Q, d := Quotient(A, B), Divisor(B);
    var l, post, v := LeftShift(Q), PostShift(DivExp(A, B)), DivScaled(A, B);
    QuotientBits(A.Sig(), d);
    AlignedQuotient(Q);
    ShrOfShl(Q, l, post);
    if DivExp(A, B) >= 1 {
      DivModDef(Shl(A.Sig(), W104), d);
      NeverAllOnes(A.Sig(), d, Q, Residue(A, B), l, v);
      TopSignificand(v);
    } else {
      HalvedBelow(Shl(Q, l), post, v);
    }
  }

  lemma TopSignificand(v: nat)
    requires Pow2(W104) <= v < Pow2(W105) - P51
    ensures P52 <= Shr(v, W52) < P53
    ensures Shr(v, W52) == P53 - 1 ==> RoundUp(v) == 0
  {
    PowAround52();
    ShrAtLeast(v, W52, P52);
    ShrAtLeast(v, W52, P53);
    ShlOfPow(W52, W52);
    ShlOfPow(W53, W52);
    SplitAt(v, W52);
    ShlPred(P53, W52);
  }

  lemma HalvedBelow(x: nat, post: nat, v: nat)
    requires x < Pow2(W105) && post > 0 && v == Shr(x, post)
    ensures Shr(v, W52) < P52
  {
    PowAround52();
    ShrShr(x, 1, post - 1);
    assert Shr(x, 1) == Shr(x / 2, 0) == x / 2;
    assert Pow2(W105) == 2 * Pow2(W104);
    ShrLess(x / 2, post - 1);
    ShrAtLeast(v, W52, P52);
    ShlOfPow(W52, W52);
  }

  /** FDIV.D on every pair of finite operands with a divisor that is not zero: the result is the exact quotient
      rounded to nearest even if and only if the operands are outside the family `DivRoundsWrong`. */
  lemma DivRounding(A: F64, B: F64)
    requires A.Finite() && B.Finite() && B.Sig() > 0
    ensures DivCorrect(A, B, DivWord(A, B)) <==> !DivRoundsWrong(A, B)
  {
    if A.Sig() > 0 {
      DivNonZero(A, B);
    } else {
      ZeroDividend(A, B);
    }
  }

  lemma ZeroDividend(A: F64, B: F64)
    requires A.Finite() && B.Finite() && A.Sig() == 0 && B.Sig() > 0
    ensures DivCorrect(A, B, DivWord(A, B)) && !DivRoundsWrong(A, B)
  {
    ZeroQuotient(A, B);
    ShrLess(0, W52);
    LowBound(0, W52);
    DivExpIs(A, B);
    PackedZeroQuotient(A, B, DivExp(A, B));
    ShlPow(0, A.Exp1() - 1);
    ShlPow(0, UNIT);
    MagnitudePositive(B);
    MidpointsDecide(0, B.Magnitude(), 0);
  }

  lemma ZeroQuotient(A: F64, B: F64)
    requires A.Finite() && B.Finite() && A.Sig() == 0 && B.Sig() > 0
    ensures Quotient(A, B) == 0 && Residue(A, B) == 0 && DivScaled(A, B) == 0
    ensures Places(A, B) < 0 ==> Low(0, -Places(A, B)) == 0
    ensures Places(A, B) <= 0
  {
    ShlPow(0, W104);
    DivModUnique(0, Divisor(B), 0, 0);
    ShlPow(0, 0);
    ShrLess(0, PostShift(DivExp(A, B)));
    if Places(A, B) < 0 {
      LowBound(0, -Places(A, B));
    }
  }

  lemma PackedZeroQuotient(A: F64, B: F64, e: int)
    requires A.Finite() && B.Finite() && A.Sig() == 0 && B.Sig() > 0 && -2048 <= e < 4096
    ensures var r := PackDiv(A, B, e, 0, 0);
            r.Valid() && r.sign == Xor(A.sign, B.sign) && r.Code() == 0
  {
    ExponentBits(e);
  }

  // ---------- infinities ----------

  /** The quotient of operands of which one is infinite or a NaN, or the divisor zero. */
  predicate SpecialQuotient(A: F64, B: F64, r: F64) {
    if A.IsNaN() || B.IsNaN() || (A.exp == EXP_MAX && B.exp == EXP_MAX) || (A.Sig() == 0 && B.Sig() == 0)
    then r.IsNaN()
    else if A.exp == EXP_MAX || B.Sig() == 0 then r == F64(Xor(A.sign, B.sign), EXP_MAX, 0)
    else r == F64(Xor(A.sign, B.sign), 0, 0)
  }

  /** Here FDIV.D is always right. */
  lemma DivSpecial(A: F64, B: F64)
    requires A.Valid() && B.Valid() && B.Sig() > 0 && !(A.Finite() && B.Finite())
    ensures SpecialQuotient(A, B, DivWord(A, B))
  {
    var v, e := DivScaled(A, B), DivExp(A, B);
    SpecialExponent(A, B);
    PackedSpecial(A, B, e, Shr(v, W52), RoundUp(v));
  }

  lemma DivByZero(A: F64, B: F64)
    requires A.Valid() && B.Valid() && B.Sig() == 0
    ensures SpecialQuotient(A, B, DividedByZero(A, B))
  {
    QuietIsNotZero(A.mant);
  }

  lemma SpecialExponent(A: F64, B: F64)
    requires A.Valid() && B.Valid() && B.Sig() > 0 && !(A.Finite() && B.Finite())
    ensures -2048 <= DivExp(A, B) < 4096
    ensures A.exp == EXP_MAX ==> DivExp(A, B) >= 0
    ensures A.exp < EXP_MAX ==> DivExp(A, B) < 2048
  {
    WidthValues();
    if A.Sig() > 0 {
      QuotientBits(A.Sig(), Divisor(B));
    } else {
      ShlPow(0, W104);
      DivModUnique(0, Divisor(B), 0, 0);
    }
    if B.exp > 0 {
      NormalPreShift(B.Sig());
    }
  }

  lemma NormalPreShift(s: nat)
    requires P52 <= s < P53
    ensures PreShift(s) == 0
  {
    PowAround52();
    MsbUnique(s, W52);
  }

  lemma PackedSpecial(A: F64, B: F64, e: int, q: nat, rnd: bit)
    requires A.Valid() && B.Valid() && B.Sig() > 0 && !(A.Finite() && B.Finite()) && -2048 <= e < 4096
    requires A.exp == EXP_MAX ==> e >= 0
    requires A.exp < EXP_MAX ==> e < 2048
    ensures SpecialQuotient(A, B, PackDiv(A, B, e, q, rnd))
  {
    ExponentBits(e);
    QuietIsNotZero(A.mant);
    QuietIsNotZero(B.mant);
  }

  // ---------- what the exceptions look like ----------

  /** A normalized divisor and a quotient whose leading one is in place need no shifts. */
  lemma PlainQuotient(A: F64, B: F64, Q: nat, r: nat)
    requires A.Finite() && B.Finite() && A.exp > 0 && B.exp > 0
    requires Shl(A.Sig(), W104) == Q * B.Sig() + r && r < B.Sig() && Pow2(W104) <= Q < Pow2(W105)
    ensures PreShift(B.Sig()) == 0 && Divisor(B) == B.Sig() && Quotient(A, B) == Q && Residue(A, B) == r
    ensures LeftShift(Q) == 0 && DivExp(A, B) == A.exp - B.exp + 1023
    ensures DivScaled(A, B) == Shr(Q, PostShift(DivExp(A, B)))
  {
    PlainDivisor(B);
    DivModUnique(Shl(A.Sig(), W104), B.Sig(), Q, r);
    assert W104 + 1 == W105;
    MsbUnique(Q, W104);
    assert Shl(Q, 0) == Q;
  }

  lemma PlainDivisor(B: F64)
    requires B.Finite() && B.exp > 0
    ensures PreShift(B.Sig()) == 0 && Divisor(B) == B.Sig()
  {
    PowAround52();
    MsbUnique(B.Sig(), W52);
    assert Shl(B.Sig(), 0) == B.Sig();
  }

  /** 1.1666666666666672 / 1.0000000000000007, the patterns 0x3FF2AAAAAAAAAAAE and 0x3FF0000000000003: the quotient
      lies above the middle of two doubles by less than the divider resolves, and is rounded down. */
  lemma RoundedDownQuotient()
    ensures var A, B := F64(0, 1023, 0x2_AAAA_AAAA_AAAE), F64(0, 1023, 3);
            A.Finite() && B.Finite() && B.Sig() > 0 && DivRoundsWrong(A, B) && !DivCorrect(A, B, DivWord(A, B))
  {
    var A, B := F64(0, 1023, 0x2_AAAA_AAAA_AAAE), F64(0, 1023, 3);
    var q := 0x12_AAAA_AAAA_AAAA;
    var Q := q * P52 + P51;
    PowAround52();
    Pow2Add(W52, W52);
    ShlPow(A.Sig(), W104);
    assert Pow2(W105) == 2 * Pow2(W104);
    PlainQuotient(A, B, Q, P51);
    ShlPow(q, W52);
    SplitUnique(Q, W52, q, P51);
    assert Shr(Q, 0) == Q;
    DivRounding(A, B);
  }

  /** Half of the largest number below 2^-1021 should round to 2^-1022, the smallest normal number; dividing by 2
      returns zero. */
  lemma HalvedToZeroQuotient()
    ensures var A, B := F64(0, 1, P52 - 1), F64(0, 1024, 0);
            A.Finite() && B.Finite() && B.Sig() > 0 && DivRoundsWrong(A, B) && !DivCorrect(A, B, DivWord(A, B))
  {
    var A, B := F64(0, 1, P52 - 1), F64(0, 1024, 0);
    var Q := (P53 - 1) * P52;
    PowAround52();
    Pow2Add(W52, W52);
    ShlPow(A.Sig(), W104);
    assert Pow2(W105) == 2 * Pow2(W104);
    PlainQuotient(A, B, Q, 0);
    assert Shr(Q, 1) == Shr(Q / 2, 0) == Q / 2;
    ShlPow(P52 - 1, W52);
    SplitUnique(Q / 2, W52, P52 - 1, P51);
    DivRounding(A, B);
  }

  /** Only a dividend of at most three units leaves fewer than 54 quotient bits. */
  lemma ShortDividend(A: F64, B: F64)
    requires A.Finite() && B.Finite() && A.Sig() > 0 && B.Sig() > 0 && Places(A, B) >= W52
    ensures A.Sig() <= 3 && A.exp == 0
  {
    var a, d, Q := A.Sig(), Divisor(B), Quotient(A, B);
    QuotientBits(a, d);
    PowAround52();
    Pow2Mono(Msb(Q) + 1, W53);
    if a >= 4 {
      LongQuotient(a, d);
    }
  }

  lemma LongQuotient(a: nat, d: nat)
    requires 4 <= a < P53 && P52 <= d < P53
    ensures QuotientOf(a, d) >= P53
  {
    PowAround52();
    Pow2Add(W51, W53);
    assert W51 + W53 == W104;
    ShlPow(a, W104);
    MulMono(4, a, Pow2(W104));
    MulMono(d, P53, P53);
    assert d * P53 == P53 * d;
    DivLess(Shl(a, W104), d, P53);
  }

  /** A dividend with its leading one in place: one quotient bit more or less. */
  lemma NormalDividend(a: nat, d: nat)
    requires P52 <= a < P53 && P52 <= d < P53
    ensures LeftShift(QuotientOf(a, d)) == if a >= d then 0 else 1
  {
    var Q, p := QuotientOf(a, d), Pow2(W104 - 1);
    assert Pow2(W104) == 2 * p;
    ShlPow(a, W104);
    assert (2 * p) * d == p * (2 * d);
    MulCommute(a, 2 * p);
    assert a * (2 * p) == p * (2 * a);
    DivLess(Shl(a, W104), d, 2 * p);
    DivLess(Shl(a, W104), d, p);
    if a >= d {
      MulMono(2 * d, 2 * a, p);
      MsbUnique(Q, W104);
    } else {
      MulMono(d, 2 * a, p);
      MulStrict(2 * a, 2 * d, p);
      MsbUnique(Q, W104 - 1);
    }
  }

  /** A normal result of a normal dividend is wrong exactly when the quotient bits show a tie above an even
      significand although the division leaves a remainder. */
  lemma DivNormalExceptions(A: F64, B: F64, Q: nat, r: nat)
    requires A.Finite() && B.Finite() && A.exp > 0 && B.Sig() > 0 && 1 <= DivExp(A, B) < EXP_MAX
    requires Q == Quotient(A, B) && r == Residue(A, B)
    ensures A.Sig() >= Divisor(B) ==> (DivRoundsWrong(A, B) <==> Low(Q, W53) == P51 && r != 0)
    ensures A.Sig() < Divisor(B) ==> (DivRoundsWrong(A, B) <==> 2 * Low(Q, W52) == P51 && r != 0)
  {
    NormalDividend(A.Sig(), Divisor(B));
    EvenTie(DivScaled(A, B));
    assert Shl(Q, 0) == Q && Shl(Q, 1) == 2 * Shl(Q, 0);
    assert W52 + 1 == W53;
    LowOfDouble(Q);
  }

  lemma LowOfDouble(Q: nat)
    ensures Low(2 * Q, W53) == 2 * Low(Q, W52)
  {
    assert W52 + 1 == W53;
  }

  /** A subnormal result whose quotient bits move k places to the right is wrong exactly when the quotient lies
      above a tie by less than one unit of the kept fraction, or at least half of a last place below the
      smallest normal number. */
  lemma DivSubnormalExceptions(A: F64, B: F64, Q: nat, r: nat, k: nat)
    requires A.Finite() && B.Finite() && A.Sig() > 0 && B.Sig() > 0 && DivExp(A, B) <= 0
    requires Q == Quotient(A, B) && r == Residue(A, B) && k == -Places(A, B)
    ensures DivRoundsWrong(A, B) <==>
            || (Shl(P51, k) <= Low(Q, k + W53) < Shl(P51 + 1, k) && (r != 0 || Low(Q, k + W53) != Shl(P51, k)))
            || Q >= Shl(CarryLimit(), k)
  {
    var v := DivScaled(A, B);
    PlacedQuotient(A, B);
    assert v == Shr(Q, k);
    EvenTie(v);
    TieBand(Q, k);
    BelowNormal(v);
    CarriesOut(v);
    ShrAtLeast(Q, k, CarryLimit());
  }

  /** A quotient whose bits move m places to the left: nothing is cut off, so only the remainder can spoil a tie. */
  lemma DivShiftedExceptions(A: F64, B: F64, Q: nat, r: nat, m: nat)
    requires A.Finite() && B.Finite() && A.Sig() > 0 && B.Sig() > 0 && DivExp(A, B) < EXP_MAX
    requires Q == Quotient(A, B) && r == Residue(A, B) && m == Places(A, B) < W52
    ensures DivRoundsWrong(A, B) <==>
            || (Low(Q, W53 - m) == Pow2(W51 - m) && r != 0)
            || (DivExp(A, B) <= 0 && Shl(Q, m) >= CarryLimit())
  {
    var v := DivScaled(A, B);
    PlacedQuotient(A, B);
    EvenTie(v);
    ShiftedTie(Q, m);
    if DivExp(A, B) <= 0 {
      BelowNormal(v);
      CarriesOut(v);
    }
  }

  lemma ShiftedTie(Q: nat, m: nat)
    requires m < W52
    ensures Low(Shl(Q, m), W53) == P51 <==> Low(Q, W53 - m) == Pow2(W51 - m)
  {
    LowOfShl(Q, m, W53);
    PowAround52();
    ShlOfPow(W51 - m, m);
    ShlCompare(Low(Q, W53 - m), Pow2(W51 - m), m);
  }

  lemma {:induction false} LowOfShl(Q: nat, m: nat, n: nat)
    requires m <= n
    ensures Low(Shl(Q, m), n) == Shl(Low(Q, n - m), m)
  {
    if m > 0 {
      LowOfShl(Q, m - 1, n - 1);
    }
  }

  lemma BelowNormal(v: nat)
    requires Shr(v, W52) < P52
    ensures v < Pow2(W104)
  {
    PowAround52();
    ShrAtLeast(v, W52, P52);
    ShlOfPow(W52, W52);
  }

  /** The smallest subnormal divided by three times itself: the quotient has 52 bits, and the last place of
      one third is wrong. */
  lemma ShortDividendExample()
    ensures var A, B := F64(0, 0, 1), F64(0, 0, 3);
            A.Finite() && B.Finite() && B.Sig() > 0 && DivRoundsWrong(A, B) && !DivCorrect(A, B, DivWord(A, B))
  {
    var A, B := F64(0, 0, 1), F64(0, 0, 3);
    assert A.Sig() == 1 && B.Sig() == 3;
    OneThird(A, B, 3 * P51, 0xA_AAAA_AAAA_AAAA);
    DivRounding(A, B);
  }

  lemma OneThird(A: F64, B: F64, d: nat, Q: nat)
    requires A.Finite() && B.Finite() && A.exp == B.exp == 0 && A.Sig() == 1 && B.Sig() == 3
    requires d == 3 * P51 && Q == 0xA_AAAA_AAAA_AAAA
    ensures DivRoundsWrong(A, B)
  {
    PowAround52();
    Pow2Table();
    MsbUnique(B.Sig(), 1);
    ShlPow(3, W51);
    Pow2Add(W51, W53);
    ShlPow(1, W104);
    DivModUnique(Shl(1, W104), d, Q, P52);
    MsbUnique(Q, W51);
    DivExpIs(A, B);
  }
}
