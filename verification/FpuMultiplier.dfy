/** The 53 x 53 multiplier: every nibble of B selects a multiple of A, the fourteen partial products
    are accumulated in a low part of 57 bits and a high part, and a priority encoder locates the
    leading one of the 106-bit product. */
module FpuMultiplier {
  import opened Bits
  import opened Ieee754
  import opened FpuPipeline

  const P57: nat := 0x200_0000_0000_0000

  function Nibble(b: nat, i: nat): nat {
    Low(Shr(b, 4 * i), 4)
  }

  lemma NibbleRange(b: nat, i: nat)
    ensures Nibble(b, i) < 16
  {
    LowBound(Shr(b, 4 * i), 4);
    Pow2Table();
  }

  /** What the first loop adds up: the partial products below bit 57. */
  function LowSum(a: nat, b: nat, i: nat): nat {
    if i == 0 then 0 else LowSum(a, b, i - 1) + Low(Shl(a * Nibble(b, i - 1), 4 * (i - 1)), 57)
  }

  /** What the second loop adds up: the partial products from bit 57 on. */
  function HighSum(a: nat, b: nat, i: nat): nat
    requires i <= 14
  {
    if i == 0 then 0 else HighSum(a, b, i - 1) + Shr(a * Nibble(b, i - 1), 57 - 4 * (i - 1))
  }

  /** Splitting one partial product at bit 57. */
  lemma SplitAt57(x: nat, i: nat)
    requires i < 14
    ensures Shl(x, 4 * i) == Low(Shl(x, 4 * i), 57) + Shl(Shr(x, 57 - 4 * i), 57)
  {
    SplitAt(Shl(x, 4 * i), 57);
    ShrOfShl(x, 4 * i, 57);
  }

  lemma NibbleStep(a: nat, b: nat, i: nat)
    ensures a * Low(b, 4 * (i + 1)) == a * Low(b, 4 * i) + Shl(a * Nibble(b, i), 4 * i)
  {
    LowSplit(b, 4 * i, 4);
    assert 4 * (i + 1) == 4 * i + 4;
    ShlTimes(a, Nibble(b, i), 4 * i);
    Distribute(a, Low(b, 4 * i), Shl(Nibble(b, i), 4 * i), Low(b, 4 * (i + 1)));
  }

  lemma Distribute(a: int, x: int, y: int, z: int)
    requires z == x + y
    ensures a * z == a * x + y * a
  {
  }

  lemma {:induction false} SumsCompose(a: nat, b: nat, i: nat)
    requires i <= 14
    ensures LowSum(a, b, i) + Shl(HighSum(a, b, i), 57) == a * Low(b, 4 * i)
  {
    if i == 0 {
      ShlPow(0, 57);
    } else {
      SumsCompose(a, b, i - 1);
      SumsNext(a, b, i - 1);
    }
  }

  lemma SumsNext(a: nat, b: nat, k: nat)
    requires k < 14 && LowSum(a, b, k) + Shl(HighSum(a, b, k), 57) == a * Low(b, 4 * k)
    ensures LowSum(a, b, k + 1) + Shl(HighSum(a, b, k + 1), 57) == a * Low(b, 4 * (k + 1))
  {
    NibbleStep(a, b, k);
    SumsStep(LowSum(a, b, k), HighSum(a, b, k), a * Nibble(b, k), k, a * Low(b, 4 * k));
  }

  lemma SumsStep(low: nat, high: nat, x: nat, k: nat, sum: nat)
    requires k < 14 && low + Shl(high, 57) == sum
    ensures low + Low(Shl(x, 4 * k), 57) + Shl(high + Shr(x, 57 - 4 * k), 57) == sum + Shl(x, 4 * k)
  {
    SplitAt57(x, k);
    ShlAdd(high, Shr(x, 57 - 4 * k), 57);
  }

  lemma {:induction false} LowSumRange(a: nat, b: nat, i: nat)
    ensures LowSum(a, b, i) <= i * P57
  {
    if i > 0 {
      LowSumRange(a, b, i - 1);
      Low57(Shl(a * Nibble(b, i - 1), 4 * (i - 1)));
    }
  }

  lemma Low57(x: nat)
    ensures Low(x, 57) < P57
  {
    LowBound(x, W57);
    PowWords();
    WidthValues();
  }

  /** The number held by a low and a high 64-bit word. */
  function Join(lsb: nat, msb: nat): nat {
    lsb + 0x1_0000_0000_0000_0000 * msb
  }

  /** rbMux[k] is A * k, built from shifted copies of A. */
  method PartialProducts(A: nat, B: nat) returns (rbPart: array<nat>)
    ensures rbPart.Length == 14
    ensures forall i :: 0 <= i < 14 ==> rbPart[i] == A * Nibble(B, i)
  {
    var rbMux := [0, A, A * 2, A * 2 + A, A * 4, A * 4 + A, A * 4 + A * 2, A * 4 + A * 2 + A,
                  A * 8, A * 8 + A, A * 8 + A * 2, A * 8 + A * 2 + A, A * 8 + A * 4, A * 8 + A * 4 + A,
                  A * 8 + A * 4 + A * 2, A * 16 - A];
    assert forall k :: 0 <= k < 16 ==> rbMux[k] == A * k;
    rbPart := new nat[14];
    for i := 0 to 14
      invariant forall j :: 0 <= j < i ==> rbPart[j] == A * Nibble(B, j)
    {
      NibbleRange(B, i);
      rbPart[i] := rbMux[Low(Shr(B, 4 * i), 4)];
    }
  }

  method AccumulateLow(A: nat, B: nat, rbPart: array<nat>) returns (lSumLsb: nat, lCarryLsb: nat)
    requires rbPart.Length == 14
    requires forall i :: 0 <= i < 14 ==> rbPart[i] == A * Nibble(B, i)
    ensures lSumLsb == LowSum(A, B, 14)
    ensures lCarryLsb == Shr(lSumLsb, 57)
  {
    lSumLsb := 0;
    lCarryLsb := 0;
    SumFits(0, 0);
    ShrLess(0, 57);
    for i := 0 to 14
      invariant lSumLsb == LowSum(A, B, i)
      invariant lCarryLsb == Shr(lSumLsb, 57)
    {
      LowSumRange(A, B, i);
      LowSumRange(A, B, i + 1);
      LowLow(Shl(rbPart[i], 4 * i), 64, 57);
      SumFits(lSumLsb, i);
      lSumLsb := Low(lSumLsb, 61) + Low(Low(Shl(rbPart[i], 4 * i), 64), 57);
      SumFits(lSumLsb, i + 1);
      lCarryLsb := Low(Shr(lSumLsb, 57), 4);
    }
  }

  /** Fourteen 57-bit terms stay below 2^61, so neither mask loses anything. */
  lemma SumFits(sum: nat, i: nat)
    requires i <= 14 && sum <= i * P57
    ensures Low(sum, 61) == sum && Low(Shr(sum, 57), 4) == Shr(sum, 57)
  {
    PowWords();
    Pow2Table();
    WidthValues();
    Pow2Add(W57, 4);
    LowAll(sum, W57 + 4);
    ShrAtLeast(sum, W57, 16);
    ShlOfPow(4, W57);
    LowAll(Shr(sum, W57), 4);
  }

  /** The two accumulation loops and the reassembly into a 64-bit low word and a high word. */
  method Accumulate(A: nat, B: nat, rbPart: array<nat>) returns (lSumLsb: nat, lSumMsb: nat)
    requires B < P53 && rbPart.Length == 14
    requires forall i :: 0 <= i < 14 ==> rbPart[i] == A * Nibble(B, i)
    ensures lSumLsb < P64 && Join(lSumLsb, lSumMsb) == A * B
  {
    var lCarryLsb;
    lSumLsb, lCarryLsb := AccumulateLow(A, B, rbPart);
    ghost var low := lSumLsb;
    SplitAt(low, 57);
    lSumMsb := lCarryLsb;
    lSumLsb := Low(lSumLsb, 57);
    for i := 0 to 14
      invariant lSumMsb == lCarryLsb + HighSum(A, B, i)
    {
      lSumMsb := lSumMsb + Shr(rbPart[i], 57 - 4 * i);
    }
    FullProduct(A, B);
    ShlAdd(lCarryLsb, HighSum(A, B, 14), 57);
    Low57(low);
    Reassemble(lSumLsb, lSumMsb);
    lSumLsb := lSumLsb + Low(Shl(lSumMsb, 57), 64);
    lSumMsb := Shr(lSumMsb, 7);
  }

  lemma FullProduct(a: nat, b: nat)
    requires b < P53
    ensures LowSum(a, b, 14) + Shl(HighSum(a, b, 14), 57) == a * b
  {
    SumsCompose(a, b, 14);
    PowAround52();
    Pow2Mono(W53, W56);
    WidthValues();
    LowAll(b, W56);
  }

  lemma Reassemble(lo: nat, hi: nat)
    requires lo < P57
    ensures lo + Low(Shl(hi, 57), 64) < P64
    ensures Join(lo + Low(Shl(hi, 57), 64), Shr(hi, 7)) == lo + Shl(hi, 57)
  {
    PowWords();
    WidthValues();
    var x := Shl(hi, 57);
    SplitAt(x, 64);
    ShrOfShl(hi, 57, 64);
    ShlPow(Shr(hi, 7), W64);
    LowMultiple(hi);
  }

  lemma LowMultiple(hi: nat)
    ensures Low(Shl(hi, 57), 64) + P57 <= P64
  {
    PowWords();
    WidthValues();
    LowSplit(Shl(hi, 57), 57, 7);
    ShrOfShl(hi, 57, 57);
    SplitUnique(Shl(hi, 57), 57, hi, 0);
    LowBound(hi, 7);
    Pow2Table();
    assert Pow2(7) == 128;
    ShlMono(Low(hi, 7), 128, W57);
    ShlOfPow(7, W57);
    assert 7 + W57 == W64;
  }

  // ---------- the leading one ----------

  /** Bit p of the product, read from the word that holds it. */
  function WordsBit(lsb: nat, msb: nat, p: nat): bit {
    if p >= 64 then Bit(msb, p - 64) else Bit(lsb, p)
  }

  lemma WordBit(lsb: nat, msb: nat, p: nat)
    requires lsb < P64
    ensures WordsBit(lsb, msb, p) == Bit(Join(lsb, msb), p)
  {
    PowWords();
    WidthValues();
    var v := Join(lsb, msb);
    ShlPow(msb, W64);
    SplitUnique(v, W64, msb, lsb);
    if p >= 64 {
      BitOfShr(v, W64, p - 64);
    } else {
      BitOfLow(v, W64, p);
    }
  }

  lemma WordsLeading(lsb: nat, msb: nat, p: nat)
    requires lsb < P64 && Join(lsb, msb) < Pow2(p + 1)
    ensures WordsBit(lsb, msb, p) == 1 <==> Join(lsb, msb) >= Pow2(p)
  {
    WordBit(lsb, msb, p);
    LeadingBit(Join(lsb, msb), p);
  }

  /** No bit of v above 104 - r is set. */
  ghost predicate ClearAbove(v: nat, r: nat) {
    r <= W105 && v < Pow2(W105 - r)
  }

  lemma ScanTop(lsb: nat, msb: nat)
    requires lsb < P64 && Join(lsb, msb) < Pow2(W106)
    ensures WordsBit(lsb, msb, 105) == 1 ==> LeadingShift(Join(lsb, msb)) == 0x7F
    ensures WordsBit(lsb, msb, 105) == 0 ==> ClearAbove(Join(lsb, msb), 0)
  {
    WidthValues();
    WordsLeading(lsb, msb, W105);
  }

  lemma ScanStep(lsb: nat, msb: nat, r: nat)
    requires lsb < P64 && Join(lsb, msb) < Pow2(W106) && ClearAbove(Join(lsb, msb), r) && r <= 104
    ensures WordsBit(lsb, msb, 104 - r) == 1 ==> LeadingShift(Join(lsb, msb)) == r
    ensures WordsBit(lsb, msb, 104 - r) == 0 ==> ClearAbove(Join(lsb, msb), r + 1)
  {
    WidthValues();
    var p := W104 - r;
    WordsLeading(lsb, msb, p);
    if Join(lsb, msb) >= Pow2(p) {
      LeadingShiftAt(Join(lsb, msb), p);
    }
  }

  lemma ScanEnd(v: nat)
    requires v < Pow2(W106) && ClearAbove(v, 104)
    ensures LeadingShift(v) == 104
  {
    WidthValues();
    if v > 0 {
      LeadingShiftAt(v, 0);
    }
  }

  /** The priority chain over bits 105 .. 1 of the product. */
  method FindLeadingOne(lsb: nat, msb: nat) returns (rbLShift: nat)
    requires lsb < P64 && Join(lsb, msb) < Pow2(W106)
    ensures rbLShift == LeadingShift(Join(lsb, msb))
  {
    ScanTop(lsb, msb);
    if WordsBit(lsb, msb, 105) == 1 {
      return 0x7F;
    }
    rbLShift := 0;
    while rbLShift < 104
      invariant rbLShift <= 104
      invariant ClearAbove(Join(lsb, msb), rbLShift)
    {
      ScanStep(lsb, msb, rbLShift);
      if WordsBit(lsb, msb, 104 - rbLShift) == 1 {
        return;
      }
      rbLShift := rbLShift + 1;
    }
    ScanEnd(Join(lsb, msb));
  }

  lemma ProductRange(a: nat, b: nat)
    requires a < P53 && b < P53
    ensures a * b < Pow2(W106)
  {
    PowAround52();
    Pow2Add(W53, W53);
    MulMono(a, P53 - 1, b);
    MulMono(b, P53 - 1, P53 - 1);
  }

  /** The product of two 53-bit significands, bit by bit, and the position of its leading one. */
  method IMul53(A: nat, B: nat) returns (outResult: array<bit>, outShift: nat, outOverBit: bit)
    requires A < P53 && B < P53
    ensures outResult.Length == 106
    ensures Value(outResult[..]) == A * B
    ensures A * B < Pow2(W106) && outShift == LeadingShift(A * B)
    ensures outOverBit == 1 <==> A * B >= Pow2(W105)
  {
    var rbPart := PartialProducts(A, B);
    var lSumLsb, lSumMsb := Accumulate(A, B, rbPart);
    ProductRange(A, B);
    outShift := FindLeadingOne(lSumLsb, lSumMsb);
    outResult := FormOutput(lSumLsb, lSumMsb);
    outOverBit := Bit(lSumMsb, 41);
    OverBit(lSumLsb, lSumMsb);
  }

  lemma OverBit(lsb: nat, msb: nat)
    requires lsb < P64 && Join(lsb, msb) < Pow2(W106)
    ensures Bit(msb, 41) == 1 <==> Join(lsb, msb) >= Pow2(W105)
  {
    WidthValues();
    WordsLeading(lsb, msb, W105);
  }

  method FormOutput(lSumLsb: nat, lSumMsb: nat) returns (outResult: array<bit>)
    requires lSumLsb < P64 && Join(lSumLsb, lSumMsb) < Pow2(W106)
    ensures outResult.Length == 106
    ensures Value(outResult[..]) == Join(lSumLsb, lSumMsb)
  {
    outResult := new bit[106];
    for i := 0 to 64
      invariant forall j :: 0 <= j < i ==> outResult[j] == WordsBit(lSumLsb, lSumMsb, j)
    {
      outResult[i] := Bit(lSumLsb, i);
    }
    for i := 0 to 42
      invariant forall j :: 0 <= j < 64 + i ==> outResult[j] == WordsBit(lSumLsb, lSumMsb, j)
    {
      outResult[64 + i] := Bit(lSumMsb, i);
    }
    OutputValue(lSumLsb, lSumMsb, outResult[..]);
  }

  lemma OutputValue(lsb: nat, msb: nat, s: seq<bit>)
    requires lsb < P64 && Join(lsb, msb) < Pow2(W106) && |s| == 106
    requires forall j :: 0 <= j < 106 ==> s[j] == WordsBit(lsb, msb, j)
    ensures Value(s) == Join(lsb, msb)
  {
    forall j | 0 <= j < |s| ensures s[j] == Bit(Join(lsb, msb), j) {
      WordBit(lsb, msb, j);
    }
    WidthValues();
    ValueIs(s, Join(lsb, msb));
  }
}
