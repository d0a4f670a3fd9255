/** The steps that the adder and the multiplier share: bring the leading one of a 106-bit value to
    bit 104, shift a subnormal result back, and round the 53 upper bits to nearest, ties to even. */
module FpuPipeline {
  import opened Bits
  import opened Ieee754

  /** Left shift that brings the leading one of a 106-bit value to bit 104; 0x7F stands for the
      right shift by one that a value reaching bit 105 needs. */
  ghost function LeadingShift(v: nat): (s: nat)
    requires v < Pow2(W106)
    ensures s == 0x7F <==> v >= Pow2(W105)
    ensures s != 0x7F ==> s <= W104
  {
    WidthValues();
    if v >= Pow2(W105) then 0x7F else if v == 0 then W104 else
      assert Msb(v) <= W104 by { if Msb(v) >= W105 { Pow2Mono(W105, Msb(v)); } }
      W104 - Msb(v)
  }

  lemma LeadingShiftAt(v: nat, p: nat)
    requires p <= W104 && Pow2(p) <= v < Pow2(p + 1)
    ensures v < Pow2(W106) && LeadingShift(v) == W104 - p
  {
    Pow2Mono(p + 1, W105);
    Pow2Mono(W105, W106);
    MsbUnique(v, p);
  }

  /** The value after the leading one has been moved to bit 104. */
  ghost function Aligned(v: nat): nat
    requires v < Pow2(W106)
  {
    if LeadingShift(v) == 0x7F then Shr(v, 1) else Shl(v, LeadingShift(v))
  }

  lemma AlignedRange(v: nat)
    requires v < Pow2(W106)
    ensures Aligned(v) < Pow2(W105)
    ensures v > 0 ==> Aligned(v) >= Pow2(W104)
    ensures v == 0 ==> Aligned(v) == 0
  {
    if v >= Pow2(W105) {
      assert Pow2(W106) == 2 * Pow2(W105) && Pow2(W105) == 2 * Pow2(W104);
      assert Shr(v, 1) == Shr(v / 2, 0) == v / 2;
    } else if v > 0 {
      AlignedBelow(v, Msb(v), LeadingShift(v));
    } else {
      ShlPow(0, LeadingShift(v));
    }
  }

  lemma AlignedBelow(v: nat, m: nat, s: nat)
    requires Pow2(m) <= v < Pow2(m + 1) && m + s == W104
    ensures Pow2(W104) <= Shl(v, s) < Pow2(W105)
  {
    ShlMono(Pow2(m), v, s);
    ShlMono(v, Pow2(m + 1), s);
    ShlOfPow(m, s);
    ShlOfPow(m + 1, s);
    assert m + 1 + s == W105;
  }

  /** Bit i of the aligned value, read from the array before alignment. */
  function AlignSource(s: seq<bit>, lshift: nat, i: nat): bit
    requires |s| == 106 && i < 105
  {
    if lshift == 0x7F then s[i + 1] else if i - lshift >= 0 then s[i - lshift] else 0
  }

  method AlignBits(sum: array<bit>, lshift: nat) returns (align: array<bit>)
    requires sum.Length == 106 && Value(sum[..]) < Pow2(W106) && lshift == LeadingShift(Value(sum[..]))
    ensures align.Length == 105
    ensures Value(align[..]) == Aligned(Value(sum[..]))
  {
    ghost var s := sum[..];
    align := new bit[105];
    for i := 0 to 105
      invariant forall j :: 0 <= j < i ==> align[j] == AlignSource(s, lshift, j)
    {
      if lshift == 0x7F {
        align[i] := sum[i + 1];
      } else if i - lshift >= 0 {
        align[i] := sum[i - lshift];
      } else {
        align[i] := 0;
      }
    }
    AlignedValue(s, align[..]);
  }

  lemma AlignedValue(s: seq<bit>, r: seq<bit>)
    requires |s| == 106 && |r| == 105 && Value(s) < Pow2(W106)
    requires forall j :: 0 <= j < 105 ==> r[j] == AlignSource(s, LeadingShift(Value(s)), j)
    ensures Value(r) == Aligned(Value(s))
  {
    var v := Value(s);
    forall i | 0 <= i < 105 ensures r[i] == Bit(Aligned(v), i) {
      AlignedBit(v, i);
      ValueBits(s);
    }
    AlignedRange(v);
    WidthValues();
    ValueIs(r, Aligned(v));
  }

  lemma ArrayBit(s: seq<bit>, i: nat)
    requires i < |s|
    ensures s[i] == Bit(Value(s), i)
  {
    ValueBits(s);
  }

  lemma AlignedBit(v: nat, i: nat)
    requires v < Pow2(W106)
    ensures Bit(Aligned(v), i) ==
            if LeadingShift(v) == 0x7F then Bit(v, i + 1) else
            if i >= LeadingShift(v) then Bit(v, i - LeadingShift(v)) else 0
  {
    if LeadingShift(v) == 0x7F {
      BitOfShr(v, 1, i);
    } else {
      BitOfShl(v, LeadingShift(v), i);
    }
  }

  /** Logical right shift of a bit array; positions past the end read as zero. */
  method ShiftRightBits(a: array<bit>, n: nat) returns (r: array<bit>)
    ensures r.Length == a.Length
    ensures Value(r[..]) == Shr(Value(a[..]), n)
  {
    ghost var v := Value(a[..]);
    r := new bit[a.Length];
    for i := 0 to a.Length
      invariant forall j :: 0 <= j < i ==> r[j] == Bit(Shr(v, n), j)
    {
      BitOfShr(v, n, i);
      if i + n < a.Length {
        ArrayBit(a[..], i + n);
        r[i] := a[i + n];
      } else {
        ValueBound(a[..], a.Length);
        BitAbove(v, a.Length, i + n);
        r[i] := 0;
      }
    }
    ShrLess(v, n);
    ValueBound(a[..], a.Length);
    ValueIs(r[..], Shr(v, n));
  }

  /** Round half to even on the 52 bits below the kept significand. */
  ghost function RoundUp(v: nat): bit {
    if Low(v, W52) > P51 || (Low(v, W52) == P51 && Shr(v, W52) % 2 == 1) then 1 else 0
  }

  /** The number whose bits are s[from .. from + n], as a loop of shift-and-or gathers it. */
  method Gather(s: array<bit>, from: nat, n: nat) returns (v: nat)
    requires from + n <= s.Length
    ensures v == Low(Shr(Value(s[..]), from), n)
  {
    v := 0;
    for i := 0 to n
      invariant v == Low(Shr(Value(s[..]), from), i)
    {
      ArrayBit(s[..], from + i);
      BitOfShr(Value(s[..]), from, i);
      LowStep(Shr(Value(s[..]), from), i);
      v := v + BitAt(s[from + i], i);
    }
  }

  /** Split the 105-bit value into its upper 53 bits and the decision to round up. */
  method RoundBits(post: array<bit>) returns (mantShort: nat, rndBit: bit)
    requires post.Length == 105 && Value(post[..]) < Pow2(W105)
    ensures mantShort == Shr(Value(post[..]), W52) < P53
    ensures rndBit == RoundUp(Value(post[..]))
  {
    WidthValues();
    ghost var v := Value(post[..]);
    mantShort := Gather(post, 52, 53);
    UpperBits(v);
    var tmpMant05 := Gather(post, 0, 52);
    assert Shr(v, 0) == v;
    var mantEven := post[52];
    var mant05 := tmpMant05 == 0x8_0000_0000_0000;
    ArrayBit(post[..], 52);
    ArrayBit(post[..], 51);
    HalfBit(v);
    rndBit := if post[51] == 1 && !(mant05 && mantEven == 0) then 1 else 0;
  }

  lemma UpperBits(v: nat)
    requires v < Pow2(W105)
    ensures Low(Shr(v, W52), W53) == Shr(v, W52) < P53
  {
    PowAround52();
    ShrAtLeast(v, W52, P53);
    ShlOfPow(W53, W52);
    LowAll(Shr(v, W52), W53);
  }

  lemma HalfBit(v: nat)
    ensures Bit(v, W51) == 1 <==> Low(v, W52) >= P51
    ensures Bit(v, W52) == Shr(v, W52) % 2
  {
    PowAround52();
    LowBound(v, W51);
    LowStep(v, W51);
    BitOfShr(v, W52, 0);
  }

  method AnyBit(a: array<bit>) returns (any: bool)
    ensures any <==> Value(a[..]) != 0
  {
    any := false;
    for i := 0 to a.Length
      invariant any <==> Value(a[..i]) != 0
    {
      assert a[..i + 1][..i] == a[..i];
      if a[i] == 1 {
        any := true;
      }
    }
    assert a[..a.Length] == a[..];
  }
}
