/** MULHU, MULH and MULHSU of the M extension: a tree of 128-bit shift-and-add steps that recovers each
    carry from the top bits of the operands and the sum. */
module MulTree {
  import opened Bits

  /** A 128-bit value in two 64-bit words. */
  datatype Wide = Wide(lo: nat, hi: nat) {
    predicate Valid() { lo < P64 && hi < P64 }
    function Number(): nat { lo + 0x1_0000_0000_0000_0000 * hi }
  }

  /** Carry out of a 64-bit addition, from the top bits of the summands and of the sum. */
  function CarryOut(msb1: bit, msb2: bit, msbres: bit): bit {
    if (msb1 == 1 && msb2 == 1) || ((msb1 == 1 || msb2 == 1) && msbres == 0) then 1 else 0
  }

  function Top(v: nat): bit
    requires v < P64
  {
    v / 0x8000_0000_0000_0000
  }

  lemma CarryFromTopBits(x: nat, y: nat)
    requires x < P64 && y < P64
    ensures x + y == Wrap64(x + y) + 0x1_0000_0000_0000_0000 * CarryOut(Top(x), Top(y), Top(Wrap64(x + y)))
  {
  }

  /** Digit i of b in base 2^w. */
  function Digit(b: nat, w: nat, i: nat): nat {
    Low(Shr(b, w * i), w)
  }

  lemma DigitPair(b: nat, w: nat, i: nat)
    ensures Digit(b, w + w, i) == Shl(Digit(b, w, 2 * i + 1), w) + Digit(b, w, 2 * i)
  {
    var v := Shr(b, (w + w) * i);
    LowSplit(v, w, w);
    ShrShr(b, (w + w) * i, w);
    PairIndex(w, i);
  }

  lemma PairIndex(w: int, i: int)
    ensures (w + w) * i == w * (2 * i) && (w + w) * i + w == w * (2 * i + 1)
  {
  }

  /** One adder of the tree: (high << s) + low. */
  function Combine(high: Wide, low: Wide, s: nat): Wide
    requires 0 < s < 64
  {
    var shifted := Wrap64(Shl(high.lo, s));
    var lo := Wrap64(shifted + low.lo);
    var carry := CarryOut(Bit(high.lo, 63 - s), Bit(low.lo, 63), Bit(lo, 63));
    // the two parts of the upper word do not overlap, so that | is +
    Wide(lo, Wrap64(Wrap64(Shl(high.hi, s)) + Shr(high.lo, 64 - s) + low.hi + carry))
  }

  lemma Word64(v: nat)
    ensures Wrap64(v) == Low(v, 64)
  {
    PowWords();
    WidthValues();
    ShrPow(v, W64);
  }

  lemma TopIsBit63(v: nat)
    requires v < P64
    ensures Top(v) == Bit(v, 63)
  {
    PowWords();
    WidthValues();
    LeadingBit(v, W63);
  }

  /** The lower word before the addition: what is shifted out appears in the upper word. */
  lemma ShiftedWord(x: nat, s: nat)
    requires x < P64 && 0 < s < 64
    ensures Shl(x, s) == Wrap64(Shl(x, s)) + 0x1_0000_0000_0000_0000 * Shr(x, 64 - s)
    ensures Top(Wrap64(Shl(x, s))) == Bit(x, 63 - s)
  {
    var v := Shl(x, s);
    Word64(v);
    PowWords();
    WidthValues();
    SplitAt(v, 64);
    ShrOfShl(x, s, 64);
    ShlPow(Shr(x, 64 - s), W64);
    TopIsBit63(Wrap64(v));
    BitOfLow(v, 64, 63);
    BitOfShl(x, s, 63);
  }

  lemma CombineAdds(high: Wide, low: Wide, s: nat)
    requires high.Valid() && low.Valid() && 0 < s < 64
    requires Shl(high.Number(), s) + low.Number() < 0x1_0000_0000_0000_0000 * P64
    ensures Combine(high, low, s).Valid()
    ensures Combine(high, low, s).Number() == Shl(high.Number(), s) + low.Number()
  {
    var x := Wrap64(Shl(high.lo, s));
    var lo := Wrap64(x + low.lo);
    var carry := CarryOut(Bit(high.lo, 63 - s), Bit(low.lo, 63), Bit(lo, 63));
    var wh, t := Wrap64(Shl(high.hi, s)), Shr(high.lo, 64 - s);
    var hi := Wrap64(wh + t + low.hi + carry);
    assert Combine(high, low, s) == Wide(lo, hi);
    CombinedWords(high, low, s, x, lo, carry, wh, t, hi);
  }

  lemma CombinedWords(high: Wide, low: Wide, s: nat, x: nat, lo: nat, carry: bit, wh: nat, t: nat, hi: nat)
    requires high.Valid() && low.Valid() && 0 < s < 64
    requires Shl(high.Number(), s) + low.Number() < 0x1_0000_0000_0000_0000 * P64
    requires x == Wrap64(Shl(high.lo, s)) && lo == Wrap64(x + low.lo)
    requires carry == CarryOut(Bit(high.lo, 63 - s), Bit(low.lo, 63), Bit(lo, 63))
    requires wh == Wrap64(Shl(high.hi, s)) && t == Shr(high.lo, 64 - s) && hi == Wrap64(wh + t + low.hi + carry)
    ensures lo + 0x1_0000_0000_0000_0000 * hi == Shl(high.Number(), s) + low.Number()
  {
    LowWordSum(high.lo, low.lo, s, x, lo, carry);
    ShlNumber(high, s);
    CombineParts(Shl(high.lo, s), Shl(high.hi, s), t, low.lo, low.hi, x, lo, carry, wh, hi);
  }

  lemma CombineParts(sl: nat, sh: nat, t: nat, ll: nat, lh: nat, x: nat, lo: nat, carry: nat, wh: nat,
                     hi: nat)
    requires sl == x + 0x1_0000_0000_0000_0000 * t
    requires x + ll == lo + 0x1_0000_0000_0000_0000 * carry
    requires wh == Wrap64(sh) && hi == Wrap64(wh + t + lh + carry)
    requires sl + 0x1_0000_0000_0000_0000 * sh + (ll + 0x1_0000_0000_0000_0000 * lh) < 0x1_0000_0000_0000_0000 * P64
    ensures lo + 0x1_0000_0000_0000_0000 * hi
         == sl + 0x1_0000_0000_0000_0000 * sh + (ll + 0x1_0000_0000_0000_0000 * lh)
  {
    assert sh + t + lh + carry < P64;
    NoWrap(sh, t + lh + carry);
  }

  lemma NoWrap(h: nat, rest: nat)
    requires h + rest < P64
    ensures Wrap64(h) == h && Wrap64(h + rest) == h + rest
  {
  }

  lemma LowWordSum(hl: nat, ll: nat, s: nat, x: nat, lo: nat, carry: bit)
    requires hl < P64 && ll < P64 && 0 < s < 64
    requires x == Wrap64(Shl(hl, s)) && lo == Wrap64(x + ll)
    requires carry == CarryOut(Bit(hl, 63 - s), Bit(ll, 63), Bit(lo, 63))
    ensures Shl(hl, s) == x + 0x1_0000_0000_0000_0000 * Shr(hl, 64 - s)
    ensures x + ll == lo + 0x1_0000_0000_0000_0000 * carry
  {
    ShiftedWord(hl, s);
    TopIsBit63(ll);
    TopIsBit63(lo);
    CarryFromTopBits(x, ll);
  }

  lemma ShlNumber(w: Wide, s: nat)
    ensures Shl(w.Number(), s) == Shl(w.lo, s) + 0x1_0000_0000_0000_0000 * Shl(w.hi, s)
  {
    ShlAdd(w.lo, 0x1_0000_0000_0000_0000 * w.hi, s);
    ShlTimes(0x1_0000_0000_0000_0000, w.hi, s);
  }

  /** Level 0: a times each base-4 digit of b. */
  function Leaf(a: nat, d: nat): Wide
    requires a < P64
  {
    if d == 0 then Wide(0, 0)
    else if d == 1 then Wide(a, 0)
    else if d == 2 then Wide(Wrap64(a * 2), a / 0x8000_0000_0000_0000)
    else
      var lo := Wrap64(Wrap64(a * 2) + a);
      Wide(lo, Wrap64(a / 0x8000_0000_0000_0000
                    + CarryOut((a / 0x4000_0000_0000_0000) % 2, Top(a), Top(lo))))
  }

  lemma LeafIsMultiple(a: nat, d: nat)
    requires a < P64 && d < 4
    ensures Leaf(a, d).Valid() && Leaf(a, d).Number() == a * d
  {
    MulSame(d, if d == 0 then 0 else if d == 1 then 1 else if d == 2 then 2 else 3, a);
    if d == 2 {
      Doubled(a, a / 0x8000_0000_0000_0000, a % 0x8000_0000_0000_0000);
    } else if d == 3 {
      Tripled(a);
    }
  }

  lemma Doubled(a: nat, h: nat, l: nat)
    requires a < P64 && h == a / 0x8000_0000_0000_0000 && l == a % 0x8000_0000_0000_0000
    ensures Wrap64(a * 2) == 2 * l && a * 2 == 2 * l + 0x1_0000_0000_0000_0000 * h && h <= 1
  {
  }

  lemma TopOfDouble(a: nat)
    requires a < P64
    ensures Top(Wrap64(a * 2)) == (a / 0x4000_0000_0000_0000) % 2
  {
    var h, l := a / 0x8000_0000_0000_0000, a % 0x8000_0000_0000_0000;
    Doubled(a, h, l);
    var t, m := l / 0x4000_0000_0000_0000, l % 0x4000_0000_0000_0000;
    assert a == (2 * h + t) * 0x4000_0000_0000_0000 + m;
    assert a / 0x4000_0000_0000_0000 == 2 * h + t;
    assert 2 * l == t * 0x8000_0000_0000_0000 + 2 * m;
  }

  lemma Tripled(a: nat)
    requires a < P64
    ensures Leaf(a, 3).Valid() && Leaf(a, 3).Number() == 3 * a
  {
    var d, h := Wrap64(a * 2), a / 0x8000_0000_0000_0000;
    var lo := Wrap64(d + a);
    var carry := CarryOut(Top(d), Top(a), Top(lo));
    Doubled(a, h, a % 0x8000_0000_0000_0000);
    TopOfDouble(a);
    CarryFromTopBits(d, a);
    NoWrap(h, carry);
    assert Leaf(a, 3) == Wide(lo, h + carry);
  }

  /** Entry i of the level with digits of w bits holds a times digit i of b. */
  ghost predicate Entry(x: Wide, a: nat, b: nat, w: nat, i: nat) {
    x.Valid() && x.Number() == a * Digit(b, w, i)
  }

  ghost predicate HoldsMultiples(level: seq<Wide>, a: nat, b: nat, w: nat) {
    forall i :: 0 <= i < |level| ==> Entry(level[i], a, b, w, i)
  }

  method FirstLevel(a: nat, b: nat) returns (lvl0: array<Wide>)
    requires a < P64
    ensures lvl0.Length == 32
    ensures HoldsMultiples(lvl0[..], a, b, 2)
  {
    lvl0 := new Wide[32](_ => Wide(0, 0));
    for i := 0 to 32
      invariant forall j :: 0 <= j < i ==> lvl0[j] == Leaf(a, Digit(b, 2, j))
    {
      lvl0[i] := Leaf(a, Low(Shr(b, 2 * i), 2));
    }
    LeavesHold(lvl0[..], a, b);
  }

  lemma LeavesHold(lvl0: seq<Wide>, a: nat, b: nat)
    requires a < P64
    requires forall i :: 0 <= i < |lvl0| ==> lvl0[i] == Leaf(a, Digit(b, 2, i))
    ensures HoldsMultiples(lvl0, a, b, 2)
  {
    forall i | 0 <= i < |lvl0| ensures Entry(lvl0[i], a, b, 2, i) {
      LowBound(Shr(b, 2 * i), 2);
      LeafIsMultiple(a, Digit(b, 2, i));
    }
  }

  lemma NextEntry(high: Wide, low: Wide, a: nat, b: nat, w: nat, i: nat)
    requires a < P64 && 0 < w <= 32 && Entry(low, a, b, w, 2 * i) && Entry(high, a, b, w, 2 * i + 1)
    ensures Entry(Combine(high, low, w), a, b, w + w, i)
  {
    var dh, dl := Digit(b, w, 2 * i + 1), Digit(b, w, 2 * i);
    DigitPair(b, w, i);
    ShlTimes(a, dh, w);
    Distribute(a, Shl(dh, w), dl, Digit(b, w + w, i));
    EntryRange(a, b, w + w, i);
    CombineAdds(high, low, w);
  }

  lemma Distribute(a: int, x: int, y: int, z: int)
    requires z == x + y
    ensures a * z == x * a + a * y
  {
  }

  lemma EntryRange(a: nat, b: nat, w: nat, i: nat)
    requires a < P64 && w <= 64
    ensures a * Digit(b, w, i) < 0x1_0000_0000_0000_0000 * P64
  {
    var d := Digit(b, w, i);
    WidthValues();
    PowWords();
    LowBound(Shr(b, w * i), w);
    Pow2Mono(w, W64);
    MulMono(a, P64 - 1, d);
    MulMono(d, P64 - 1, P64 - 1);
  }

  /** The next level joins neighbouring entries. */
  method NextLevel(prev: array<Wide>, w: nat) returns (next: array<Wide>)
    requires 0 < w <= 32 && prev.Length % 2 == 0
    ensures next.Length == prev.Length / 2
    ensures forall i :: 0 <= i < next.Length ==> next[i] == Combine(prev[2 * i + 1], prev[2 * i], w)
  {
    next := new Wide[prev.Length / 2](_ => Wide(0, 0));
    for i := 0 to next.Length
      invariant forall j :: 0 <= j < i ==> next[j] == Combine(prev[2 * j + 1], prev[2 * j], w)
    {
      next[i] := Combine(prev[2 * i + 1], prev[2 * i], w);
    }
  }

  lemma LevelHolds(prev: seq<Wide>, next: seq<Wide>, a: nat, b: nat, w: nat)
    requires a < P64 && 0 < w <= 32 && |prev| == 2 * |next| && HoldsMultiples(prev, a, b, w)
    requires forall i :: 0 <= i < |next| ==> next[i] == Combine(prev[2 * i + 1], prev[2 * i], w)
    ensures HoldsMultiples(next, a, b, w + w)
  {
    forall i | 0 <= i < |next| ensures Entry(next[i], a, b, w + w, i) {
      NextEntry(prev[2 * i + 1], prev[2 * i], a, b, w, i);
    }
  }

  /** The whole tree: the upper 64 bits of the 128-bit product. */
  method MULHU(a1: nat, a2: nat) returns (res: nat)
    requires a1 < P64 && a2 < P64
    ensures res == a1 * a2 / 0x1_0000_0000_0000_0000
    ensures res < P64
  {
    var lvl0 := FirstLevel(a1, a2);
    var lvl1 := NextLevel(lvl0, 2);
    LevelHolds(lvl0[..], lvl1[..], a1, a2, 2);
    var lvl2 := NextLevel(lvl1, 4);
    LevelHolds(lvl1[..], lvl2[..], a1, a2, 4);
    var lvl3 := NextLevel(lvl2, 8);
    LevelHolds(lvl2[..], lvl3[..], a1, a2, 8);
    var lvl4 := NextLevel(lvl3, 16);
    LevelHolds(lvl3[..], lvl4[..], a1, a2, 16);
    var lvl5 := NextLevel(lvl4, 32);
    LevelHolds(lvl4[..], lvl5[..], a1, a2, 32);
    res := lvl5[0].hi;
    RootHolds(lvl5[..], a1, a2);
  }

  lemma RootHolds(lvl5: seq<Wide>, a: nat, b: nat)
    requires |lvl5| == 1 && HoldsMultiples(lvl5, a, b, 64) && b < P64
    ensures lvl5[0].hi == a * b / 0x1_0000_0000_0000_0000 < P64
  {
    assert Entry(lvl5[0], a, b, 64, 0);
    WholeDigit(b);
    MulSame(Digit(b, 64, 0), b, a);
    HighWord(lvl5[0], a * b);
  }

  lemma WholeDigit(b: nat)
    requires b < P64
    ensures Digit(b, 64, 0) == b
  {
    PowWords();
    WidthValues();
    LowAll(b, W64);
  }

  lemma HighWord(w: Wide, p: nat)
    requires w.Valid() && w.Number() == p
    ensures p / 0x1_0000_0000_0000_0000 == w.hi
  {
  }

  // ---------- signed variants ----------

  /** Two's complement negation, except that the most negative number stays as it is. */
  function Magnitude(v: nat): nat
    requires v < P64
  {
    if v > P63 then P64 - v else v
  }

  method MULH(a1: nat, a2: nat) returns (res: nat)
    requires a1 < P64 && a2 < P64
    ensures res == MulhWord(a1, a2)
  {
    var a1s, a2s, inva1, inva2 := a1, a2, false, false;
    if a1 >= P63 && a1 != P63 {
      a1s, inva1 := P64 - a1, true;
    }
    if a2 >= P63 && a2 != P63 {
      a2s, inva2 := P64 - a2, true;
    }
    var zero := a1s == 0 || a2s == 0;
    var inv := inva1 != inva2;
    var hi := MULHU(a1s, a2s);
    res := if zero then 0 else if inv then P64 - 1 - hi else hi;
  }

  method MULHSU(a1: nat, a2: nat) returns (res: nat)
    requires a1 < P64 && a2 < P64
    ensures res == MulhsuWord(a1, a2)
  {
    var a1s, inv := a1, false;
    if a1 >= P63 && a1 != P63 {
      a1s, inv := P64 - a1, true;
    }
    var zero := a1s == 0 || a2 == 0;
    var hi := MULHU(a1s, a2);
    res := if zero then 0 else if inv then P64 - 1 - hi else hi;
  }

  function MulhWord(a1: nat, a2: nat): int
    requires a1 < P64 && a2 < P64
  {
    var p := Magnitude(a1) * Magnitude(a2);
    SignedHigh(p, (a1 > P63) != (a2 > P63))
  }

  function MulhsuWord(a1: nat, a2: nat): int
    requires a1 < P64 && a2 < P64
  {
    SignedHigh(Magnitude(a1) * a2, a1 > P63)
  }

  /** Upper word of a product, complemented for a negative one. */
  function SignedHigh(p: int, inv: bool): int {
    if p == 0 then 0
    else if inv then 0xFFFF_FFFF_FFFF_FFFF - p / 0x1_0000_0000_0000_0000
    else p / 0x1_0000_0000_0000_0000
  }

  /** The upper word of a signed 128-bit product, as a 64-bit pattern. */
  function UpperHalf(x: int): int {
    x / 0x1_0000_0000_0000_0000 % 0x1_0000_0000_0000_0000
  }

  lemma SignedHighPositive(p: int)
    requires 0 <= p < 0x1_0000_0000_0000_0000 * P64
    ensures SignedHigh(p, false) == UpperHalf(p)
  {
  }

  /** Complementing the upper word negates the product only if its lower word is not zero. */
  lemma SignedHighNegative(p: int)
    requires 0 < p < 0x1_0000_0000_0000_0000 * P64
    ensures SignedHigh(p, true) == UpperHalf(-p) <==> p % 0x1_0000_0000_0000_0000 != 0
  {
  }

  /** The exact condition under which MULH returns the upper half of the signed product. */
  predicate MulhExact(x: int, y: int) {
    if x == -0x8000_0000_0000_0000 || y == -0x8000_0000_0000_0000 then
      x == y || x == 0 || y == 0
    else
      x * y >= 0 || (x * y) % 0x1_0000_0000_0000_0000 != 0
  }

  lemma SignOfProduct(x: int, y: int)
    ensures (x < 0) == (y < 0) || x == 0 || y == 0 ==> x * y == Abs(x) * Abs(y)
    ensures (x < 0) != (y < 0) ==> x * y == -(Abs(x) * Abs(y))
    ensures Abs(x) * Abs(y) == 0 <==> x == 0 || y == 0
  {
    if x != 0 && y != 0 {
      MulMono(1, Abs(x), Abs(y));
    }
  }

  lemma ProductBound(a: nat, b: nat)
    requires a < P64 && b < P64
    ensures a * b < 0x1_0000_0000_0000_0000 * P64
  {
    MulMono(a, P64 - 1, b);
    MulMono(b, P64 - 1, P64 - 1);
  }

  lemma NegatedLowWord(p: int)
    ensures (-p) % 0x1_0000_0000_0000_0000 != 0 <==> p % 0x1_0000_0000_0000_0000 != 0
  {
  }

  /** The sign-magnitude multiplication is right for a product p of magnitudes with sign inv. */
  lemma HighOfProduct(p: int, inv: bool, q: int)
    requires 0 <= p < 0x1_0000_0000_0000_0000 * P64 && q == if inv then -p else p
    ensures SignedHigh(p, inv) == UpperHalf(q) <==> q >= 0 || q % 0x1_0000_0000_0000_0000 != 0
  {
    if p == 0 {
    } else if inv {
      SignedHighNegative(p);
      NegatedLowWord(p);
    } else {
      SignedHighPositive(p);
    }
  }

  /** -2^63 is taken for +2^63: the results of both readings differ. */
  lemma MinimumMisread(m: nat, inv: bool)
    requires 0 < m < P64
    ensures SignedHigh(0x8000_0000_0000_0000 * m, inv)
         != UpperHalf(if inv then 0x8000_0000_0000_0000 * m else -(0x8000_0000_0000_0000 * m))
  {
    var h, l := m / 2, m % 2;
    var p := 0x8000_0000_0000_0000 * m;
    assert p == 0x1_0000_0000_0000_0000 * h + 0x8000_0000_0000_0000 * l;
    assert p / 0x1_0000_0000_0000_0000 == h;
    if !inv {
      assert -p == 0x1_0000_0000_0000_0000 * (-h - l) + 0x8000_0000_0000_0000 * l;
      assert (-p) / 0x1_0000_0000_0000_0000 == -h - l;
      assert (-h - l) % 0x1_0000_0000_0000_0000 == 0x1_0000_0000_0000_0000 - h - l;
    }
  }

  /** MULH: the signed upper half for all 64-bit operands, if and only if the condition holds. */
  lemma MulhIff(a1: nat, a2: nat)
    requires a1 < P64 && a2 < P64
    ensures MulhWord(a1, a2) == UpperHalf(ToInt64(a1) * ToInt64(a2)) <==> MulhExact(ToInt64(a1), ToInt64(a2))
  {
    var x, y := ToInt64(a1), ToInt64(a2);
    if a1 != P63 && a2 != P63 {
      SignOfProduct(x, y);
      ProductBound(Abs(x), Abs(y));
      if x == 0 || y == 0 {
        HighOfProduct(0, false, 0);
      } else {
        HighOfProduct(Abs(x) * Abs(y), (x < 0) != (y < 0), x * y);
      }
    } else if a1 == P63 && a2 == P63 {
      assert x * y == 0x4000_0000_0000_0000_0000_0000_0000_0000;
    } else if a1 == P63 {
      MulhMinimum(a2);
    } else {
      MulhMinimum(a1);
      assert x * y == y * x && Magnitude(a1) * Magnitude(a2) == Magnitude(a2) * Magnitude(a1);
    }
  }

  lemma MulhMinimum(a: nat)
    requires a < P64 && a != P63
    ensures SignedHigh(0x8000_0000_0000_0000 * Magnitude(a), a > P63) == UpperHalf(-0x8000_0000_0000_0000 * ToInt64(a))
            <==> a == 0
  {
    var m := Magnitude(a);
    if a > 0 {
      MinimumMisread(m, a > P63);
      assert a > P63 ==> ToInt64(a) + m == 0;
    }
  }

  predicate MulhsuExact(x: int, b: nat) {
    if x == -0x8000_0000_0000_0000 then b == 0
    else x * b >= 0 || (x * b) % 0x1_0000_0000_0000_0000 != 0
  }

  /** MULHSU: signed times unsigned. */
  lemma MulhsuIff(a1: nat, a2: nat)
    requires a1 < P64 && a2 < P64
    ensures MulhsuWord(a1, a2) == UpperHalf(ToInt64(a1) * a2) <==> MulhsuExact(ToInt64(a1), a2)
  {
    var x := ToInt64(a1);
    if a1 != P63 {
      SignOfProduct(x, a2);
      ProductBound(Abs(x), a2);
      if x == 0 || a2 == 0 {
        HighOfProduct(0, false, 0);
      } else {
        HighOfProduct(Abs(x) * a2, x < 0, x * a2);
      }
    } else if a2 > 0 {
      MinimumMisread(a2, false);
    }
  }

  /** (-4) * 2^62 = -2^64 has a zero lower word: MULH returns -2 instead of -1. */
  lemma MulhExample()
    ensures MulhWord(P64 - 4, 0x4000_0000_0000_0000) == P64 - 2
    ensures UpperHalf(ToInt64(P64 - 4) * ToInt64(0x4000_0000_0000_0000)) == P64 - 1
  {
  }

  /** (-4) * 2^62 is -2^64, whose upper half is all ones; MULHSU complements the upper word 1 instead. */
  lemma MulhsuExample()
    ensures var a1, a2 := P64 - 4, 0x4000_0000_0000_0000;
            ToInt64(a1) == -4 && MulhsuWord(a1, a2) != UpperHalf(ToInt64(a1) * a2)
  {
  }
}
