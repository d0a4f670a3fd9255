/** Binary64 numbers and roundTiesToEven (section 4.3.1 of IEEE 754-2008), as an independent
    reference for the arithmetic units.

    A magnitude is identified by its code exp * 2^52 + mant.  Every finite magnitude is a whole
    multiple of 2^-1074; `Mag` is that multiple.  The code of infinity stands for 2^1024, the value
    the format would hold next, which is how the standard decides overflow. */
module Ieee754 {
  import opened Bits

  const EXP_MAX: nat := 0x7FF
  const INF: nat := 0x7FF * 0x10_0000_0000_0000

  /** One is 2^1074 = Pow2(UNIT) units. A product of two magnitudes is in units of 2^-2148, a quotient of two
      magnitudes is a plain number. */
  ghost const UNIT: nat := W52 + 1022

  datatype F64 = F64(sign: bit, exp: nat, mant: nat) {
    predicate Valid() { exp <= EXP_MAX && mant < P52 }
    predicate Finite() { exp < EXP_MAX && mant < P52 }
    predicate IsNaN() { exp == EXP_MAX && mant != 0 }
    /** Significand with its hidden bit. */
    function Sig(): nat { if exp == 0 then mant else P52 + mant }
    /** Exponent field, with subnormals sharing the field value of the smallest normals. */
    function Exp1(): (e: nat) ensures e >= 1 { if exp == 0 then 1 else exp }
    /** Magnitude in units of 2^-1074. */
    function Magnitude(): nat { Shl(Sig(), Exp1() - 1) }
    /** The number in units of 2^-1074. */
    function Number(): int { if sign == 1 then 0 - Magnitude() else Magnitude() }
    function Code(): nat { CodeOf(exp, mant) }
  }

  /** The code of significand q at exponent e, where e counts from the subnormal exponent. */
  function CodeOf(e: nat, q: nat): nat {
    e * 0x10_0000_0000_0000 + q
  }

  /** The magnitude with a given code; each binade repeats the one before it at twice the scale. */
  function Mag(c: nat): nat {
    if c < P53 then c else 2 * Mag(c - P52)
  }

  function Scaled(c: nat, d: nat): nat {
    Mag(c) * d
  }

  /** Distance between n / d and the number with code c, times d. */
  function Dist(n: nat, d: nat, c: nat): nat {
    if Scaled(c, d) >= n then Scaled(c, d) - n else n - Scaled(c, d)
  }

  /** c is the code of n / d (in units of 2^-1074) rounded to nearest, ties to even. */
  ghost predicate RoundsTo(n: nat, d: nat, c: nat) {
    && c <= INF
    && forall c' :: 0 <= c' <= INF ==>
                      && Dist(n, d, c) <= Dist(n, d, c')
                      && (c' != c && Dist(n, d, c) == Dist(n, d, c') ==> c % 2 == 0)
  }

  // ---------- the code order is the numeric order ----------

  lemma {:induction false} MagForm(e: nat, q: nat)
    requires q <= P53 && (e == 0 || q >= P52)
    ensures Mag(CodeOf(e, q)) == Shl(q, e)
  {
    if e == 0 {
      if q == P53 {
        assert Mag(P52) == P52;
      }
    } else {
      MagForm(e - 1, q);
      assert CodeOf(e, q) - P52 == CodeOf(e - 1, q);
    }
  }

  /** `Mag` of the code of a finite number is its significand scaled by its exponent. */
  lemma CodeOfFields(f: F64)
    requires f.Valid() && (f.exp < EXP_MAX || f.mant == 0)
    ensures f.Code() <= INF && Mag(f.Code()) == f.Magnitude()
  {
    if f.exp == 0 {
      MagForm(0, f.mant);
    } else {
      MagForm(f.exp - 1, P52 + f.mant);
    }
  }

  lemma {:induction false} MagStep(c: nat)
    ensures Mag(c) < Mag(c + 1)
  {
    if c >= P53 {
      MagStep(c - P52);
    }
  }

  lemma {:induction false} MagMono(c: nat, c': nat)
    requires c < c'
    ensures Mag(c) < Mag(c')
  {
    MagStep(c' - 1);
    if c < c' - 1 {
      MagMono(c, c' - 1);
    }
  }

  lemma MagScaledMono(c: nat, c': nat, d: nat)
    requires c <= c' && d > 0
    ensures Scaled(c, d) <= Scaled(c', d)
    ensures c < c' ==> Scaled(c, d) < Scaled(c', d)
  {
    if c < c' {
      MagMono(c, c');
      MulStrict(Mag(c), Mag(c'), d);
    }
  }

  // ---------- nearest-even by the two neighbouring midpoints ----------

  /** Twice the midpoint between codes c and c + 1, times d. */
  function Mid2(c: nat, d: nat): nat {
    Scaled(c, d) + Scaled(c + 1, d)
  }

  predicate BetweenMidpoints(n: nat, d: nat, c: nat) {
    && c <= INF
    && (c > 0 ==> Mid2(c - 1, d) <= 2 * n && (Mid2(c - 1, d) == 2 * n ==> c % 2 == 0))
    && (c < INF ==> 2 * n <= Mid2(c, d) && (2 * n == Mid2(c, d) ==> c % 2 == 0))
  }

  lemma BetweenIsNearest(n: nat, d: nat, c: nat)
    requires d > 0 && BetweenMidpoints(n, d, c)
    ensures RoundsTo(n, d, c)
  {
    forall c' | 0 <= c' <= INF && c' != c
      ensures Dist(n, d, c) <= Dist(n, d, c') && (Dist(n, d, c) == Dist(n, d, c') ==> c % 2 == 0)
    {
      if c < c' {
        MagScaledMono(c, c + 1, d);
        MagScaledMono(c + 1, c', d);
      } else {
        MagScaledMono(c - 1, c, d);
        MagScaledMono(c', c - 1, d);
      }
    }
  }

  lemma NearestIsBetween(n: nat, d: nat, c: nat)
    requires d > 0 && RoundsTo(n, d, c)
    ensures BetweenMidpoints(n, d, c)
  {
    if c > 0 {
      MagScaledMono(c - 1, c, d);
      assert Dist(n, d, c) <= Dist(n, d, c - 1);
    }
    if c < INF {
      MagScaledMono(c, c + 1, d);
      assert Dist(n, d, c) <= Dist(n, d, c + 1);
    }
  }

  lemma MidpointsDecide(n: nat, d: nat, c: nat)
    requires d > 0
    ensures RoundsTo(n, d, c) <==> BetweenMidpoints(n, d, c)
  {
    if BetweenMidpoints(n, d, c) {
      BetweenIsNearest(n, d, c);
    }
    if RoundsTo(n, d, c) {
      NearestIsBetween(n, d, c);
    }
  }

  lemma RoundingOrder(n: nat, d: nat, c: nat, c': nat)
    requires d > 0 && RoundsTo(n, d, c) && RoundsTo(n, d, c')
    ensures c >= c'
  {
    if c < c' {
      NearestIsBetween(n, d, c);
      NearestIsBetween(n, d, c');
      MagScaledMono(c, c' - 1, d);
      MagScaledMono(c + 1, c', d);
    }
  }

  /** There is only one correctly rounded result. */
  lemma RoundingUnique(n: nat, d: nat, c: nat, c': nat)
    requires d > 0 && RoundsTo(n, d, c) && RoundsTo(n, d, c')
    ensures c == c'
  {
    RoundingOrder(n, d, c, c');
    RoundingOrder(n, d, c', c);
  }

  // ---------- rounding a bracketed number ----------

  lemma KeepIsBetween(n: nat, d: nat, c: nat)
    requires d > 0 && c < INF && Scaled(c, d) <= n
    ensures BetweenMidpoints(n, d, c) <==> 2 * n < Mid2(c, d) || (2 * n == Mid2(c, d) && c % 2 == 0)
  {
    if c > 0 {
      MagScaledMono(c - 1, c, d);
    }
  }

  lemma StepIsBetween(n: nat, d: nat, c: nat)
    requires d > 0 && c < INF && n < Scaled(c + 1, d)
    ensures BetweenMidpoints(n, d, c + 1) <==> 2 * n > Mid2(c, d) || (2 * n == Mid2(c, d) && c % 2 == 1)
  {
    MagScaledMono(c + 1, c + 2, d);
  }

  /** The number n / 2^dd seen at exponent e lies at or above significand q and below q + 1. */
  predicate Brackets(n: nat, dd: nat, e: nat, q: nat) {
    && q < P53 && (e == 0 || q >= P52)
    && Shl(q, e + dd) <= n < Shl(q + 1, e + dd)
  }

  /** Twice the midpoint between significands q and q + 1 at exponent e, times 2^dd. */
  function HalfWay(dd: nat, e: nat, q: nat): nat {
    Shl(q, e + dd) + Shl(q + 1, e + dd)
  }

  lemma MagFormScaled(e: nat, q: nat, dd: nat)
    requires q <= P53 && (e == 0 || q >= P52)
    ensures Scaled(CodeOf(e, q), Pow2(dd)) == Shl(q, e + dd)
  {
    MagForm(e, q);
    MulSame(Mag(CodeOf(e, q)), Shl(q, e), Pow2(dd));
    ShlTimesPow(q, e, dd);
  }

  lemma BracketCode(n: nat, dd: nat, e: nat, q: nat, c: nat, d: nat)
    requires Brackets(n, dd, e, q) && c == CodeOf(e, q) && d == Pow2(dd)
    ensures Scaled(c, d) <= n < Scaled(c + 1, d)
    ensures Mid2(c, d) == HalfWay(dd, e, q)
  {
    assert CodeOf(e, q + 1) == c + 1;
    MagFormScaled(e, q, dd);
    MagFormScaled(e, q + 1, dd);
  }

  lemma CodeParity(e: nat, q: nat)
    ensures CodeOf(e, q) % 2 == q % 2
  {
  }

  lemma RoundKeep(n: nat, d: nat, c: nat)
    requires d > 0 && c < INF && Scaled(c, d) <= n
    ensures RoundsTo(n, d, c) <==> 2 * n < Mid2(c, d) || (2 * n == Mid2(c, d) && c % 2 == 0)
  {
    KeepIsBetween(n, d, c);
    MidpointsDecide(n, d, c);
  }

  lemma RoundStep(n: nat, d: nat, c: nat)
    requires d > 0 && c < INF && n < Scaled(c + 1, d)
    ensures RoundsTo(n, d, c + 1) <==> 2 * n > Mid2(c, d) || (2 * n == Mid2(c, d) && c % 2 == 1)
  {
    StepIsBetween(n, d, c);
    MidpointsDecide(n, d, c + 1);
  }

  /** Which of the two neighbouring significands is correct. */
  lemma RoundBracketed(n: nat, dd: nat, e: nat, q: nat)
    requires Brackets(n, dd, e, q) && CodeOf(e, q) < INF
    ensures RoundsTo(n, Pow2(dd), CodeOf(e, q)) <==>
            2 * n < HalfWay(dd, e, q) || (2 * n == HalfWay(dd, e, q) && q % 2 == 0)
    ensures RoundsTo(n, Pow2(dd), CodeOf(e, q) + 1) <==>
            2 * n > HalfWay(dd, e, q) || (2 * n == HalfWay(dd, e, q) && q % 2 == 1)
  {
    BracketCode(n, dd, e, q, CodeOf(e, q), Pow2(dd));
    CodeParity(e, q);
    RoundKeep(n, Pow2(dd), CodeOf(e, q));
    RoundStep(n, Pow2(dd), CodeOf(e, q));
  }

  /** Nothing below the bracket is correct. */
  lemma RoundBracketedAbove(n: nat, dd: nat, e: nat, q: nat, c: nat)
    requires Brackets(n, dd, e, q) && CodeOf(e, q) < INF && c < CodeOf(e, q)
    ensures !RoundsTo(n, Pow2(dd), c)
  {
    BracketCode(n, dd, e, q, CodeOf(e, q), Pow2(dd));
    MidpointsDecide(n, Pow2(dd), c);
    MagScaledMono(c, c + 1, Pow2(dd));
    MagScaledMono(c + 1, CodeOf(e, q), Pow2(dd));
  }

  /** Everything from 2^1024 on rounds to infinity. */
  lemma RoundOverflow(n: nat, d: nat)
    requires d > 0 && n >= Scaled(INF, d)
    ensures RoundsTo(n, d, INF)
  {
    MidpointsDecide(n, d, INF);
    MagScaledMono(INF - 1, INF, d);
  }
}
