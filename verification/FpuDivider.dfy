/** The radix-4 long divider of the double-precision unit: `div_stage` retires eight quotient bits,
    `idiv53` chains fourteen stages into a 105-bit quotient. */
module FpuDivider {
  import opened Bits

  const P61: int := 0x2000_0000_0000_0000

  /** A subtraction result is taken as negative when its bit 61 is set. */
  predicate Negative(t: int) {
    (t / 0x2000_0000_0000_0000) % 2 == 1
  }

  lemma NegativeIsSign(t: int)
    requires -P61 <= t < P61
    ensures Negative(t) <==> t < 0
    ensures t >= 0 ==> t % 0x2000_0000_0000_0000 == t
  {
  }

  /** One group of three parallel subtractions: the digit is the largest multiple of `lo` that fits. */
  method Radix4Digit(dif: int, hi: int, lo: int) returns (digit: nat, rest: int)
    ensures digit <= 3
    ensures 0 <= dif < 4 * lo && hi == 2 * lo && 4 * lo <= P61 ==> dif == digit * lo + rest && 0 <= rest < lo
    ensures 0 <= dif < P61 && hi == lo == 0 ==> digit == 3 && rest == dif
  {
    var t3, t2, t1 := dif - (hi + lo), dif - hi, dif - lo;
    digit := if !Negative(t3) then 3 else if !Negative(t2) then 2 else if !Negative(t1) then 1 else 0;
    rest := (if digit == 3 then t3 else if digit == 2 then t2 else if digit == 1 then t1 else dif)
            % 0x2000_0000_0000_0000;
    if 0 <= dif < 4 * lo && hi == 2 * lo && 4 * lo <= P61 {
      NegativeIsSign(t3);
      NegativeIsSign(t2);
      NegativeIsSign(t1);
      NegativeIsSign(dif);
    } else if 0 <= dif < P61 && hi == lo == 0 {
      NegativeIsSign(t3);
    }
  }

  lemma DigitsCompose(x: int, d: int, g3: nat, g2: nat, g1: nat, g0: nat, r3: int, r2: int, r1: int, r0: int)
    requires d > 0
    requires x == g3 * (64 * d) + r3 && r3 == g2 * (16 * d) + r2 && r2 == g1 * (4 * d) + r1 && r1 == g0 * d + r0
    requires 0 <= r0 < d
    ensures x / d == 64 * g3 + 16 * g2 + 4 * g1 + g0 && x % d == r0
  {
    assert g3 * (64 * d) == (64 * g3) * d;
    assert g2 * (16 * d) == (16 * g2) * d;
    assert g1 * (4 * d) == (4 * g1) * d;
    var q := 64 * g3 + 16 * g2 + 4 * g1 + g0;
    assert q * d == (64 * g3) * d + (16 * g2) * d + (4 * g1) * d + g0 * d;
    DivModUnique(x, d, q, r0);
  }

  lemma LeadingDigit(g3: nat, g2: nat, g1: nat, g0: nat)
    requires g3 <= 3 && g2 <= 3 && g1 <= 3 && g0 <= 3
    requires g3 > 0 || g2 > 0 || g1 > 0 || g0 > 0
    ensures Msb(64 * g3 + 16 * g2 + 4 * g1 + g0) ==
            (if g3 >= 2 then 7 else if g3 == 1 then 6 else if g2 >= 2 then 5 else if g2 == 1 then 4
             else if g1 >= 2 then 3 else if g1 == 1 then 2 else if g0 >= 2 then 1 else 0)
  {
    Pow2Table();
    assert Pow2(7) == 128;
    var k := if g3 >= 2 then 7 else if g3 == 1 then 6 else if g2 >= 2 then 5 else if g2 == 1 then 4
             else if g1 >= 2 then 3 else if g1 == 1 then 2 else if g0 >= 2 then 1 else 0;
    MsbUnique(64 * g3 + 16 * g2 + 4 * g1 + g0, k);
  }

  /** The four groups of a stage, most significant digit first. */
  method StageDigits(inDivident: int, inDivisor: int) returns (g3: nat, g2: nat, g1: nat, g0: nat, dif: int)
    ensures g3 <= 3 && g2 <= 3 && g1 <= 3 && g0 <= 3
    ensures 0 < inDivisor < P53 && 0 <= inDivident < 256 * inDivisor ==>
              64 * g3 + 16 * g2 + 4 * g1 + g0 == inDivident / inDivisor && dif == inDivident % inDivisor
    ensures inDivisor == 0 ==> g3 == g2 == g1 == g0 == 3
  {
    var dividend := inDivident % 0x2000_0000_0000_0000;
    var r3, r2, r1;
    g3, r3 := Radix4Digit(dividend, 128 * inDivisor, 64 * inDivisor);
    g2, r2 := Radix4Digit(r3, 32 * inDivisor, 16 * inDivisor);
    g1, r1 := Radix4Digit(r2, 8 * inDivisor, 4 * inDivisor);
    g0, dif := Radix4Digit(r1, 2 * inDivisor, inDivisor);
    if 0 < inDivisor < P53 && 0 <= inDivident < 256 * inDivisor {
      assert dividend == inDivident;
      DigitsCompose(inDivident, inDivisor, g3, g2, g1, g0, r3, r2, r1, dif);
    }
  }

  /** Eight quotient bits; the multiplexer reports the entry of `inMuxInd` at the leading one. */
  method DivStage(inMuxEna: bool, inMuxInd: seq<int>, inDivident: int, inDivisor: int)
    returns (outDif: int, outBits: nat, outMuxInd: int, outMuxIndRdy: bool)
    requires |inMuxInd| == 8
    ensures outBits < 256
    ensures 0 < inDivisor < P53 && 0 <= inDivident < 256 * inDivisor ==>
              outBits == inDivident / inDivisor && outDif == inDivident % inDivisor
    ensures inDivisor == 0 ==> outBits == 255
    ensures outMuxIndRdy == (inMuxEna && outBits != 0)
    ensures outMuxIndRdy ==> Msb(outBits) < 8 && outMuxInd == inMuxInd[Msb(outBits)]
  {
    var g3, g2, g1, g0;
    g3, g2, g1, g0, outDif := StageDigits(inDivident, inDivisor);
    outBits := 64 * g3 + 16 * g2 + 4 * g1 + g0;
    outMuxInd :=
      if inMuxEna && g3 >= 2 then inMuxInd[7] else if inMuxEna && g3 == 1 then inMuxInd[6]
      else if inMuxEna && g2 >= 2 then inMuxInd[5] else if inMuxEna && g2 == 1 then inMuxInd[4]
      else if inMuxEna && g1 >= 2 then inMuxInd[3] else if inMuxEna && g1 == 1 then inMuxInd[2]
      else if inMuxEna && g0 >= 2 then inMuxInd[1] else inMuxInd[0];
    outMuxIndRdy := inMuxEna && outBits != 0;
    if outBits != 0 {
      LeadingDigit(g3, g2, g1, g0);
    }
  }

  // ---------- the quotient after j stages ----------

  function Quot(a: nat, d: nat, j: nat): nat
    requires d > 0
  {
    Shl(a, 8 * j) / d
  }

  function Resid(a: nat, d: nat, j: nat): (r: nat)
    requires d > 0
    ensures r < d
  {
    Shl(a, 8 * j) % d
  }

  lemma NextDigit(a: nat, d: nat, j: nat)
    requires d > 0
    ensures Quot(a, d, j + 1) == Quot(a, d, j) * 256 + Resid(a, d, j) * 256 / d
    ensures Resid(a, d, j + 1) == Resid(a, d, j) * 256 % d
    ensures 0 <= Resid(a, d, j) * 256 / d < 256
  {
    var n := Shl(a, 8 * j);
    ByteShift(a, j);
    DivModDef(n, d);
    DigitOf(n, d, n / d, n % d);
  }

  lemma ByteShift(v: nat, j: nat)
    ensures Shl(v, 8 * (j + 1)) == Shl(v, 8 * j) * 256
  {
    ShlShl(v, 8 * j, 8);
    ShlPow(Shl(v, 8 * j), 8);
    Pow2Table();
  }

  lemma DigitOf(n: nat, d: nat, q: nat, r: nat)
    requires d > 0 && n == q * d + r && r < d
    ensures n * 256 / d == q * 256 + r * 256 / d && n * 256 % d == r * 256 % d
    ensures 0 <= r * 256 / d < 256
  {
    assert n * 256 == (q * 256) * d + r * 256;
    QuotientShift(n * 256, r * 256, d, q * 256);
    DivLess(r * 256, d, 256);
    DivLess(r * 256, d, 0);
  }

  lemma QuotientShift(v: int, l: int, p: int, m: int)
    requires p > 0 && v == m * p + l
    ensures v / p == m + l / p && v % p == l % p
  {
    DivModDef(l, p);
    assert (m + l / p) * p == m * p + (l / p) * p;
    DivModUnique(v, p, m + l / p, l % p);
  }

  lemma QuotStep(a: nat, d: nat, j: nat)
    requires d > 0
    ensures Quot(a, d, j) == Shr(Quot(a, d, j + 1), 8)
    ensures Low(Quot(a, d, j + 1), 8) == Resid(a, d, j) * 256 / d
  {
    NextDigit(a, d, j);
    Pow2Table();
    AppendByte(Quot(a, d, j + 1), Quot(a, d, j), Resid(a, d, j) * 256 / d);
  }

  lemma AppendByte(v: nat, hi: nat, lo: nat)
    requires v == hi * 256 + lo && lo < 256
    ensures Shr(v, 8) == hi && Low(v, 8) == lo
  {
    Pow2Table();
    ShlPow(hi, 8);
    SplitUnique(v, 8, hi, lo);
  }

  /** Earlier quotients are prefixes of the last one. */
  lemma {:induction false} QuotPrefix(a: nat, d: nat, j: nat, k: nat)
    requires d > 0 && j <= k
    ensures Quot(a, d, j) == Shr(Quot(a, d, k), 8 * (k - j))
    decreases k - j
  {
    if j < k {
      QuotPrefix(a, d, j + 1, k);
      QuotStep(a, d, j);
      ShrShr(Quot(a, d, k), 8 * (k - (j + 1)), 8);
    }
  }

  /** The priority index the stages settle on: leading zeros counted from bit 8 * j. */
  ghost predicate ShiftAfter(a: nat, d: nat, j: nat, ready: bool, shift: int)
    requires d > 0
  {
    var q := Quot(a, d, j);
    && (ready <==> q > 0)
    && shift == (if q > 0 then 8 * j - Msb(q) else 0)
  }

  /** Index table of stage k: entry j is the number of zeros above bit j. */
  function StageIndex(k: nat): (t: seq<int>)
    ensures |t| == 8
  {
    seq(8, j => if k == 0 then 0 else 8 * k - j)
  }

  lemma ShiftStep(a: nat, d: nat, j: nat, ready: bool, shift: int, bits: nat, ready': bool, shift': int)
    requires d > 0 && ShiftAfter(a, d, j, ready, shift)
    requires bits == Resid(a, d, j) * 256 / d && bits < 256
    requires ready' == (ready || bits > 0)
    requires shift' == if !ready && bits > 0 then 8 * (j + 1) - Msb(bits) else shift
    ensures ShiftAfter(a, d, j + 1, ready', shift')
  {
    NextDigit(a, d, j);
    LeadingOneMoves(Quot(a, d, j), Quot(a, d, j + 1), bits);
  }

  /** Eight more quotient bits: the leading one moves up by eight, or is among them. */
  lemma LeadingOneMoves(q: nat, q': nat, bits: nat)
    requires q' == q * 256 + bits && bits < 256
    ensures q' > 0 <==> q > 0 || bits > 0
    ensures q > 0 ==> Msb(q') == Msb(q) + 8
    ensures q == 0 ==> q' == bits
  {
    if q > 0 {
      MsbByte(q', q, bits);
    }
  }

  lemma MsbByte(v: nat, hi: nat, lo: nat)
    requires hi > 0 && v == hi * 256 + lo && lo < 256
    ensures Msb(v) == Msb(hi) + 8
  {
    Pow2Table();
    ShlPow(hi, 8);
    MsbAppend(hi, 8, lo);
  }

  /** The quotient is in range, and is zero only for a zero dividend. */
  lemma QuotRange(a: nat, d: nat)
    requires 0 < d < P53 && a < 2 * d
    ensures Quot(a, d, 13) < Pow2(W105)
    ensures Quot(a, d, 13) > 0 <==> a > 0
    ensures Quot(a, d, 0) == a / d <= 1
  {
    WidthValues();
    PowAround52();
    var p := Pow2(W104);
    Pow2Mono(W53, W104);
    ShlPow(a, W104);
    assert Pow2(W105) == 2 * p;
    QuotBounds(a, d, p);
    DivLess(a, d, 2);
  }

  lemma QuotBounds(a: nat, d: nat, p: nat)
    requires 0 < d <= p && a < 2 * d
    ensures a * p / d < 2 * p
    ensures a * p / d > 0 <==> a > 0
  {
    MulStrict(a, 2 * d, p);
    assert (2 * d) * p == (2 * p) * d;
    DivLess(a * p, d, 2 * p);
    DivLess(a * p, d, 1);
    if a > 0 {
      MulMono(1, a, p);
    }
  }

  /** The quotient bytes, remainder and index after k stages. */
  ghost predicate StagesDone(a: nat, d: nat, k: nat, bytes: seq<nat>, dif: int, ready: bool, shift: int)
    requires d > 0 && k >= 1
  {
    && |bytes| == 14 && k <= 14
    && bytes[0] == Quot(a, d, 0)
    && (forall j :: 1 <= j < k ==> bytes[j] == Low(Quot(a, d, j), 8))
    && dif == Resid(a, d, k - 1)
    && ShiftAfter(a, d, k - 1, ready, shift)
  }

  /** The chain of fourteen stages, each fed the previous remainder shifted by a byte. */
  method Stages(inDivident: nat, inDivisor: nat) returns (wbBits: array<nat>, dif: int, lshift: int)
    requires inDivident < P53 && inDivisor < P53
    ensures wbBits.Length == 14 && 0 <= lshift <= 104
    ensures 0 < inDivisor && inDivident < 2 * inDivisor ==>
              exists ready :: StagesDone(inDivident, inDivisor, 14, wbBits[..], dif, ready, lshift)
    ensures inDivisor == 0 ==> lshift == 0 && forall j :: 0 <= j < 14 ==> wbBits[j] == 255
  {
    ghost var ok := 0 < inDivisor && inDivident < 2 * inDivisor;
    wbBits := new nat[14];
    var bits, ind, rdy;
    dif, bits, ind, rdy := DivStage(true, StageIndex(0), inDivident, inDivisor);
    wbBits[0] := bits;
    var shiftRdy := rdy;
    lshift := if rdy then ind else 0;
    if ok {
      StageZero(inDivident, inDivisor, bits, dif, shiftRdy, lshift);
    }
    for k := 1 to 14
      invariant 0 <= lshift <= 104
      invariant ok ==> StagesDone(inDivident, inDivisor, k, wbBits[..], dif, shiftRdy, lshift)
      invariant inDivisor == 0 ==> shiftRdy && lshift == 0 && forall j :: 0 <= j < k ==> wbBits[j] == 255
    {
      ghost var bytes0, dif0, rdy0, shift0 := wbBits[..], dif, shiftRdy, lshift;
      dif, bits, ind, rdy := DivStage(!shiftRdy, StageIndex(k), dif * 256, inDivisor);
      wbBits[k] := bits;
      lshift := if rdy then ind else lshift;
      shiftRdy := rdy || shiftRdy;
      if ok {
        assert wbBits[..] == bytes0[k := bits];
        NextStage(inDivident, inDivisor, k, bytes0, dif0, rdy0, shift0, bits, shiftRdy, lshift);
      }
    }
  }

  lemma NextStage(a: nat, d: nat, k: nat, bytes: seq<nat>, dif: int, ready: bool, shift: int,
                  bits: nat, ready': bool, shift': int)
    requires 0 < d && 1 <= k < 14 && StagesDone(a, d, k, bytes, dif, ready, shift)
    requires bits == dif * 256 / d && bits < 256
    requires ready' == (ready || bits > 0)
    requires shift' == if !ready && bits > 0 then 8 * k - Msb(bits) else shift
    ensures StagesDone(a, d, k + 1, bytes[k := bits], dif * 256 % d, ready', shift')
  {
    NextDigit(a, d, k - 1);
    QuotStep(a, d, k - 1);
    ShiftStep(a, d, k - 1, ready, shift, bits, ready', shift');
  }

  lemma StageZero(a: nat, d: nat, bits: nat, dif: int, ready: bool, shift: int)
    requires 0 < d < P53 && a < 2 * d && bits == a / d && dif == a % d
    requires ready == (bits != 0) && shift == 0
    ensures bits == Quot(a, d, 0) && dif == Resid(a, d, 0) && ShiftAfter(a, d, 0, ready, shift)
  {
    QuotRange(a, d);
    if bits > 0 {
      MsbUnique(bits, 0);
    }
  }

  /** The fourteen-stage divider. The quotient is exact for every dividend below twice the divisor,
      in particular for a 53-bit dividend and a normalized 53-bit divisor; division by zero gives all ones. */
  method IDiv53(inDivident: nat, inDivisor: nat)
    returns (outResult: array<bit>, outShift: int, outOverBit: bit, outZeroResid: bit)
    requires inDivident < P53 && inDivisor < P53
    ensures outResult.Length == 106 && 0 <= outShift <= 104
    ensures 0 < inDivisor && inDivident < 2 * inDivisor ==>
              && Value(outResult[..105]) == Shl(inDivident, 104) / inDivisor
              && (outZeroResid == 1 <==> Shl(inDivident, 104) % inDivisor == 0)
              && (inDivident > 0 ==>
                    Value(outResult[..105]) > 0 && outShift == 104 - Msb(Value(outResult[..105])))
              && (inDivident == 0 ==> outShift == 0)
              && outOverBit == 0
    ensures inDivisor == 0 ==> outShift == 0 && Value(outResult[..105]) == Pow2(W105) - 1
  {
    var wbBits, dif, lshift := Stages(inDivident, inDivisor);
    outResult := LayOut(wbBits);
    outShift := lshift;
    outOverBit := AsBit(lshift == 0x7F);
    outZeroResid := if dif != 0 then 0 else 1;
    if 0 < inDivisor && inDivident < 2 * inDivisor {
      QuotRange(inDivident, inDivisor);
      CollectBits(inDivident, inDivisor, wbBits[..], outResult[..105]);
    } else if inDivisor == 0 {
      OnesCollected(wbBits[..], outResult[..105]);
    }
  }

  /** Stage k supplies bits 8 * (13 - k) and up; the first stage only its lowest bit. */
  method LayOut(wbBits: array<nat>) returns (outResult: array<bit>)
    requires wbBits.Length == 14
    ensures outResult.Length == 106
    ensures forall k, j :: 1 <= k < 14 && 0 <= j < 8 ==> outResult[8 * (13 - k) + j] == Bit(wbBits[k], j)
    ensures outResult[104] == Bit(wbBits[0], 0)
  {
    outResult := new bit[106];
    for i := 0 to 8
      invariant forall k, j :: 1 <= k < 14 && 0 <= j < i ==> outResult[8 * (13 - k) + j] == Bit(wbBits[k], j)
    {
      for k := 1 to 14
        invariant forall k', j :: 1 <= k' < 14 && 0 <= j < i ==> outResult[8 * (13 - k') + j] == Bit(wbBits[k'], j)
        invariant forall k' :: 1 <= k' < k ==> outResult[8 * (13 - k') + i] == Bit(wbBits[k'], i)
      {
        outResult[8 * (13 - k) + i] := Bit(wbBits[k], i);
      }
    }
    outResult[104] := Bit(wbBits[0], 0);
  }

  /** The stage bytes, laid end to end, are the bits of the quotient. */
  lemma CollectBits(a: nat, d: nat, bytes: seq<nat>, s: seq<bit>)
    requires 0 < d && |bytes| == 14 && |s| == 105 && Quot(a, d, 13) < Pow2(W105)
    requires bytes[0] == Quot(a, d, 0)
    requires forall j :: 1 <= j < 14 ==> bytes[j] == Low(Quot(a, d, j), 8)
    requires forall k, j :: 1 <= k < 14 && 0 <= j < 8 ==> s[8 * (13 - k) + j] == Bit(bytes[k], j)
    requires s[104] == Bit(bytes[0], 0)
    ensures Value(s) == Quot(a, d, 13)
  {
    forall i | 0 <= i < |s| ensures s[i] == Bit(Quot(a, d, 13), i) {
      var k := 13 - i / 8;
      var j := i % 8;
      QuotientBit(a, d, k, j, i);
      if k >= 1 {
        assert s[8 * (13 - k) + j] == Bit(bytes[k], j);
      }
    }
    WidthValues();
    ValueIs(s, Quot(a, d, 13));
  }

  lemma QuotientBit(a: nat, d: nat, k: nat, j: nat, i: nat)
    requires d > 0 && k <= 13 && j < 8 && i == 8 * (13 - k) + j
    ensures Bit(Quot(a, d, 13), i) == Bit(Quot(a, d, k), j) == Bit(Low(Quot(a, d, k), 8), j)
  {
    QuotPrefix(a, d, k, 13);
    BitOfShr(Quot(a, d, 13), 8 * (13 - k), j);
    BitOfLow(Quot(a, d, k), 8, j);
  }

  /** Stages that deliver ones fill the result with ones. */
  lemma OnesCollected(bytes: seq<nat>, s: seq<bit>)
    requires |bytes| == 14 && |s| == 105 && forall j :: 0 <= j < 14 ==> bytes[j] == 255
    requires forall k, j :: 1 <= k < 14 && 0 <= j < 8 ==> s[8 * (13 - k) + j] == Bit(bytes[k], j)
    requires s[104] == Bit(bytes[0], 0)
    ensures Value(s) == Pow2(W105) - 1
  {
    forall i | 0 <= i < |s| ensures s[i] == 1 {
      var k, j := 13 - i / 8, i % 8;
      OneBits(bytes[k], j);
      if k >= 1 {
        assert s[8 * (13 - k) + j] == Bit(bytes[k], j);
      }
    }
    WidthValues();
    ValueOfOnes(s, W105);
  }

  lemma OneBits(v: nat, j: nat)
    requires v == 255 && j < 8
    ensures Bit(v, j) == 1
  {
    OnesBelow(v, 8, j);
  }

  lemma {:induction false} OnesBelow(v: nat, n: nat, j: nat)
    requires v + 1 == Pow2(n) && j < n
    ensures Bit(v, j) == 1
  {
    if j > 0 {
      OnesBelow(v / 2, n - 1, j - 1);
    }
  }

  lemma {:induction false} ValueOfOnes(s: seq<bit>, n: nat)
    requires n == |s| && forall i :: 0 <= i < |s| ==> s[i] == 1
    ensures Value(s) == Pow2(n) - 1
  {
    if n > 0 {
      ValueOfOnes(s[..n - 1], n - 1);
    }
  }
}
