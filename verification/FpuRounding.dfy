/** Why the rounding stage is right: what the kept significand, the fraction and the bits lost on the
    way say about the exact number. */
module FpuRounding {
  import opened Bits
  import opened Ieee754
  import opened FpuPipeline

  /** The exact number n / 2^dd equals z scaled by 2^e, with w fraction bits below the significand. */
  predicate Represents(n: nat, dd: nat, e: nat, w: nat, z: nat) {
    Shl(n, w) == Shl(z, e + dd)
  }

  lemma CompareScaled(n: nat, dd: nat, e: nat, w: nat, z: nat, x: nat, k: nat)
    requires Represents(n, dd, e, w, z)
    ensures k * n < Shl(x, e + dd) <==> k * z < Shl(x, w)
    ensures k * n == Shl(x, e + dd) <==> k * z == Shl(x, w)
  {
    ShlTimes(k, n, w);
    ShlTimes(k, z, e + dd);
    MulSame(Shl(n, w), Shl(z, e + dd), k);
    ShlSwap(x, e + dd, w);
    ShlCompare(k * n, Shl(x, e + dd), w);
    ShlCompare(k * z, Shl(x, w), e + dd);
  }

  /** The kept significand brackets the number. */
  lemma BracketFrom(n: nat, dd: nat, e: nat, w: nat, z: nat)
    requires Represents(n, dd, e, w, z)
    requires Shr(z, w) < P53 && (e == 0 || Shr(z, w) >= P52)
    ensures Brackets(n, dd, e, Shr(z, w))
  {
    var q := Shr(z, w);
    SplitAt(z, w);
    LowBound(z, w);
    CompareScaled(n, dd, e, w, z, q, 1);
    CompareScaled(n, dd, e, w, z, q + 1, 1);
    ShlAdd(q, 1, w);
    ShlOfPow(0, w);
  }

  /** The fraction says on which side of the middle the number is. */
  lemma SideFrom(n: nat, dd: nat, e: nat, w: nat, z: nat)
    requires Represents(n, dd, e, w, z)
    ensures 2 * n < HalfWay(dd, e, Shr(z, w)) <==> 2 * Low(z, w) < Pow2(w)
    ensures 2 * n == HalfWay(dd, e, Shr(z, w)) <==> 2 * Low(z, w) == Pow2(w)
  {
    var q := Shr(z, w);
    SplitAt(z, w);
    CompareScaled(n, dd, e, w, z, 2 * q + 1, 2);
    ShlAdd(q, q + 1, e + dd);
    ShlAdd(q, q + 1, w);
    ShlAdd(q, 1, w);
    ShlOfPow(0, w);
  }

  /** The rounding decision on the exact number. */
  lemma RoundExact(n: nat, dd: nat, e: nat, w: nat, z: nat)
    requires Represents(n, dd, e, w, z)
    requires Shr(z, w) < P53 && (e == 0 || Shr(z, w) >= P52) && CodeOf(e, Shr(z, w)) < INF
    ensures RoundsTo(n, Pow2(dd), CodeOf(e, Shr(z, w))) <==>
            2 * Low(z, w) < Pow2(w) || (2 * Low(z, w) == Pow2(w) && Shr(z, w) % 2 == 0)
    ensures RoundsTo(n, Pow2(dd), CodeOf(e, Shr(z, w)) + 1) <==>
            2 * Low(z, w) > Pow2(w) || (2 * Low(z, w) == Pow2(w) && Shr(z, w) % 2 == 1)
  {
    BracketFrom(n, dd, e, w, z);
    SideFrom(n, dd, e, w, z);
    RoundBracketed(n, dd, e, Shr(z, w));
  }

  lemma RoundUpExact(n: nat, dd: nat, e: nat, w: nat, z: nat, c: nat)
    requires Represents(n, dd, e, w, z) && 2 * Low(z, w) > Pow2(w)
    requires Shr(z, w) < P53 && (e == 0 || Shr(z, w) >= P52) && c == CodeOf(e, Shr(z, w)) + 1 <= INF
    ensures RoundsTo(n, Pow2(dd), c)
  {
    BracketFrom(n, dd, e, w, z);
    SideFrom(n, dd, e, w, z);
    RoundBracketed(n, dd, e, Shr(z, w));
  }

  /** The same fraction with j more bits. */
  lemma TruncatedFraction(z: nat, j: nat)
    ensures Shr(z, W52 + j) == Shr(Shr(z, j), W52)
    ensures 2 * Low(z, W52 + j) < Pow2(W52 + j) <==> Low(Shr(z, j), W52) < P51
    ensures 2 * Low(z, W52 + j) == Pow2(W52 + j) <==> Low(Shr(z, j), W52) == P51 && Low(z, j) == 0
  {
    ShrShr(z, j, W52);
    LowSplit(z, j, W52);
    LowBound(z, j);
    PowAround52();
    ShlOfPow(W52, j);
    FractionSide(Low(Shr(z, j), W52), j, Low(z, j));
  }

  /** Rounding after j low bits of z have been cut off goes wrong only when the cut turned a number
      just above the middle into an apparent tie that is resolved downwards. */
  lemma RoundTruncated(n: nat, dd: nat, e: nat, j: nat, z: nat, v: nat)
    requires Represents(n, dd, e, W52 + j, z) && v == Shr(z, j)
    requires Shr(v, W52) < P53 && (e == 0 || Shr(v, W52) >= P52)
    requires CodeOf(e, Shr(v, W52)) < INF
    ensures RoundsTo(n, Pow2(dd), CodeOf(e, Shr(v, W52)) + RoundUp(v)) <==>
            !(Low(v, W52) == P51 && Low(z, j) != 0 && Shr(v, W52) % 2 == 0)
  {
    TruncatedFraction(z, j);
    RoundExact(n, dd, e, W52 + j, z);
  }

  lemma RoundTruncatedUnit(n: nat, e: nat, j: nat, z: nat, v: nat)
    requires Represents(n, 0, e, W52 + j, z) && v == Shr(z, j)
    requires Shr(v, W52) < P53 && (e == 0 || Shr(v, W52) >= P52)
    requires CodeOf(e, Shr(v, W52)) < INF
    ensures RoundsTo(n, 1, CodeOf(e, Shr(v, W52)) + RoundUp(v)) <==>
            !(Low(v, W52) == P51 && Low(z, j) != 0 && Shr(v, W52) % 2 == 0)
  {
    RoundTruncated(n, 0, e, j, z, v);
  }

  /** Where a fraction with j more bits lies relative to one half. */
  lemma FractionSide(f: nat, j: nat, l: nat)
    requires l < Pow2(j)
    ensures var x := Shl(f, j) + l;
            && (2 * x < Shl(P52, j) <==> f < P51)
            && (2 * x == Shl(P52, j) <==> f == P51 && l == 0)
  {
    ShlAdd(P51, P51, j);
    if f < P51 {
      ShlMono(f, P51, j);
    } else if f > P51 {
      ShlMono(P51, f, j);
    }
  }

  /** Rounding when v lies above the exact number by less than a unit, or by less than two units of an
      even v: wrong only for an apparent tie that is resolved upwards. */
  lemma RoundFromAbove(n: nat, dd: nat, e: nat, j: nat, z: nat, v: nat, delta: nat)
    requires Represents(n, dd, e, W52 + j, z) && Excess(j, z, v, delta)
    requires e > 0 && P52 <= Shr(v, W52) < P53 && CodeOf(e, Shr(v, W52)) < INF
    ensures RoundsTo(n, Pow2(dd), CodeOf(e, Shr(v, W52)) + RoundUp(v)) <==>
            !(Low(v, W52) == P51 && Shr(v, W52) % 2 == 1)
  {
    if Low(v, W52) > 0 {
      ExcessFraction(j, z, v, delta);
      RoundExact(n, dd, e, W52 + j, z);
    } else {
      ExcessBoundary(n, dd, e, j, z, v, delta);
    }
  }

  predicate Excess(j: nat, z: nat, v: nat, delta: nat) {
    && Shl(v, j) == z + delta && 0 < delta
    && (delta < Pow2(j) || (delta < 2 * Pow2(j) && v % 2 == 0))
  }

  lemma ExcessFraction(j: nat, z: nat, v: nat, delta: nat)
    requires Excess(j, z, v, delta) && Low(v, W52) > 0
    ensures Shr(z, W52 + j) == Shr(v, W52)
    ensures 2 * Low(z, W52 + j) < Pow2(W52 + j) <==> Low(v, W52) <= P51
    ensures 2 * Low(z, W52 + j) != Pow2(W52 + j)
  {
    var q, f, w := Shr(v, W52), Low(v, W52), W52 + j;
    SplitAt(v, W52);
    LowBound(v, W52);
    ShlAdd(Shl(q, W52), f, j);
    ShlShl(q, W52, j);
    assert v % 2 == f % 2;
    PowAround52();
    ShlOfPow(W52, j);
    FractionBelow(f, j, delta);
    SplitUnique(z, w, q, Shl(f, j) - delta);
  }

  lemma FractionBelow(f: nat, j: nat, delta: nat)
    requires 0 < f < P52 && 0 < delta
    requires delta < Pow2(j) || (delta < 2 * Pow2(j) && f % 2 == 0)
    ensures var x := Shl(f, j) - delta;
            && 0 <= x < Shl(P52, j)
            && (2 * x < Shl(P52, j) <==> f <= P51)
            && 2 * x != Shl(P52, j)
  {
    ShlAdd(P51, P51, j);
    ShlMono(f, P52, j);
    ShlGap(0, f, j);
    ShlPow(0, j);
    ShlGap(P51, f, j);
    if f <= P51 {
      ShlMono(f, P51, j);
    }
  }

  /** Different numbers stay a unit apart, and two units if both are even. */
  lemma ShlGap(a: nat, b: nat, j: nat)
    requires a % 2 == 0
    ensures a < b ==> Shl(a, j) + (if b % 2 == 0 then 2 * Pow2(j) else Pow2(j)) <= Shl(b, j)
    ensures a == b ==> Shl(a, j) == Shl(b, j)
  {
    if a < b {
      ShlMono(a, b, j);
      if b % 2 == 0 {
        ShlMono(a, a + 1, j);
        ShlMono(a + 1, b, j);
      }
    }
  }

  /** v is exactly a significand boundary and the number is a little below it. */
  lemma ExcessBoundary(n: nat, dd: nat, e: nat, j: nat, z: nat, v: nat, delta: nat)
    requires Represents(n, dd, e, W52 + j, z) && Excess(j, z, v, delta) && Low(v, W52) == 0
    requires e > 0 && P52 <= Shr(v, W52) < P53 && CodeOf(e, Shr(v, W52)) < INF
    ensures RoundsTo(n, Pow2(dd), CodeOf(e, Shr(v, W52)))
  {
    var q, w := Shr(v, W52), W52 + j;
    SplitAt(v, W52);
    ShlShl(q, W52, j);
    SmallExcess(j, delta);
    if q > P52 {
      JustBelow(n, dd, e, w, z, q, delta);
    } else {
      ShlAdd(P52, P52, w);
      HalfScale(n, dd, e, w, z);
      JustBelow(n, dd, e - 1, w, 2 * z, P53, 2 * delta);
      assert CodeOf(e - 1, P53) == CodeOf(e, P52);
    }
  }

  lemma JustBelow(n: nat, dd: nat, e: nat, w: nat, z: nat, q: nat, delta: nat)
    requires Represents(n, dd, e, w, z) && z + delta == Shl(q, w) && 0 < delta && 2 * delta < Pow2(w)
    requires P52 < q <= P53 && CodeOf(e, q) < INF
    ensures RoundsTo(n, Pow2(dd), CodeOf(e, q))
  {
    ShlAdd(q - 1, 1, w);
    ShlOfPow(0, w);
    SplitUnique(z, w, q - 1, Pow2(w) - delta);
    RoundUpExact(n, dd, e, w, z, CodeOf(e, q));
  }

  lemma SmallExcess(j: nat, delta: nat)
    requires delta < 2 * Pow2(j)
    ensures 4 * delta < Pow2(W52 + j)
  {
    Pow2Mono(j + 3, W52 + j);
    assert Pow2(j + 3) == 2 * Pow2(j + 2) && Pow2(j + 2) == 2 * Pow2(j + 1) && Pow2(j + 1) == 2 * Pow2(j);
  }

  lemma HalfScale(n: nat, dd: nat, e: nat, w: nat, z: nat)
    requires e > 0 && Represents(n, dd, e, w, z)
    ensures Represents(n, dd, e - 1, w, 2 * z)
  {
    ShlShl(z, 1, e - 1 + dd);
    assert Shl(z, 1) == 2 * z;
  }

  /** The fields of the result encode the significand plus the rounding increment. */
  lemma PackedCode(e: nat, q: nat, rnd: bit)
    requires P52 <= q < P53 && e + 1 < EXP_MAX
    ensures var carry := if q == 0x1F_FFFF_FFFF_FFFF && rnd == 1 then 1 else 0;
            CodeOf((e + 1 + carry) % 2048, (q + rnd) % 0x10_0000_0000_0000) == CodeOf(e, q) + rnd
  {
  }

  /** A subnormal significand that is rounded up to 2^52 leaves a zero field. */
  lemma FieldOf(q: nat, rnd: bit)
    requires q < P52
    ensures (q + rnd) % 0x10_0000_0000_0000 == if q + rnd == P52 then 0 else q + rnd
  {
  }

  // ---------- the exceptional patterns on the bits before alignment ----------

  /** An apparent tie above an even significand. */
  lemma EvenTie(v: nat)
    ensures Low(v, W52) == P51 && Shr(v, W52) % 2 == 0 <==> Low(v, W53) == P51
  {
    assert W52 + 1 == W53;
    LowStep(v, W52);
    BitOfShr(v, W52, 0);
    LowBound(v, W52);
    PowAround52();
  }

  /** Cutting off j bits leaves such a tie exactly when the low bits lie in a band of width 2^j. */
  lemma TieBand(z: nat, j: nat)
    ensures Low(Shr(z, j), W53) == P51 <==> Shl(P51, j) <= Low(z, j + W53) < Shl(P51 + 1, j)
    ensures Low(Shr(z, j), W53) == P51 ==> (Low(z, j) == 0 <==> Low(z, j + W53) == Shl(P51, j))
  {
    LowSplit(z, j, W53);
    LowBound(z, j);
    BandOf(Low(Shr(z, j), W53), Low(z, j), j, P51);
  }

  lemma BandOf(y: nat, low: nat, j: nat, t: nat)
    requires low < Pow2(j)
    ensures y == t <==> Shl(t, j) <= Shl(y, j) + low < Shl(t + 1, j)
  {
    ShlAdd(y, 1, j);
    ShlOfPow(0, j);
    ShlCompare(y, t, j);
    ShlCompare(y, t + 1, j);
    ShlCompare(t, y + 1, j);
  }

  /** Half of a last place below the smallest normal number, as a scaled significand. */
  ghost function CarryLimit(): (t: nat)
    ensures t + P51 == Pow2(W104)
  {
    PowAround52();
    Pow2Mono(W51, W104);
    Pow2(W104) - P51
  }

  /** A subnormal significand is rounded up to 2^52. */
  lemma CarriesOut(v: nat)
    requires v < Pow2(W104)
    ensures Shr(v, W52) == P52 - 1 && RoundUp(v) == 1 <==> v >= CarryLimit()
  {
    PowAround52();
    SplitAt(v, W52);
    LowBound(v, W52);
    TopQuotient(Shr(v, W52), Low(v, W52), v);
    OddRoundsUp(v);
  }

  lemma TopQuotient(q: nat, low: nat, v: nat)
    requires v == Shl(q, W52) + low && low < P52 && v < Pow2(W104)
    ensures v >= CarryLimit() <==> q == P52 - 1 && low >= P51
  {
    PowAround52();
    ShlOfPow(W52, W52);
    ShlPred(P52, W52);
    ShlPred(q + 1, W52);
    if q >= P52 {
      ShlCompare(q, P52, W52);
    } else if q < P52 - 1 {
      ShlCompare(P52 - 1, q + 1, W52);
    }
  }

  lemma OddRoundsUp(v: nat)
    ensures Shr(v, W52) == P52 - 1 ==> (RoundUp(v) == 1 <==> Low(v, W52) >= P51)
  {
  }
}
