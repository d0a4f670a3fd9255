/** Powers of two, Euclidean division and bit arrays.

    The datapaths of the simulator keep wide numbers as arrays of single bits, least
    significant bit first.  `Value` is the number such an array stands for. */
module Bits {

  type bit = b: int | 0 <= b <= 1

  // Pn is 2^n
  const P31: nat := 0x8000_0000
  const P32: nat := 0x1_0000_0000
  const P51: nat := 0x8_0000_0000_0000
  const P52: nat := 0x10_0000_0000_0000
  const P53: nat := 0x20_0000_0000_0000
  const P63: nat := 0x8000_0000_0000_0000
  const P64: nat := 0x1_0000_0000_0000_0000

  function Abs(x: int): nat {
    if x < 0 then -x else x
  }

  function AsBit(b: bool): bit { if b then 1 else 0 }

  /** The 64-bit word that holds a number. */
  function Wrap64(x: int): (w: nat)
    ensures w < P64
  {
    x % 0x1_0000_0000_0000_0000
  }

  /** What a 64-bit word reads as when it is taken for a signed number. */
  function ToInt64(w: nat): int {
    if w < 0x8000_0000_0000_0000 then w else w - 0x1_0000_0000_0000_0000
  }

  function Pow2(n: nat): (p: nat)
    ensures p >= 1
  {
    if n == 0 then 1 else 2 * Pow2(n - 1)
  }

  /** v >> k */
  function Shr(v: nat, k: nat): nat {
    if k == 0 then v else Shr(v / 2, k - 1)
  }

  /** v << k, without an upper limit on the width */
  function Shl(v: nat, k: nat): nat {
    if k == 0 then v else 2 * Shl(v, k - 1)
  }

  /** (v >> i) & 1 */
  function Bit(v: nat, i: nat): bit {
    if i == 0 then v % 2 else Bit(v / 2, i - 1)
  }

  /** v & (2^k - 1) */
  function Low(v: nat, k: nat): nat {
    if k == 0 then 0 else v % 2 + 2 * Low(v / 2, k - 1)
  }

  /** b << i for a single bit */
  function BitAt(b: bit, i: nat): nat {
    if b == 1 then Pow2(i) else 0
  }

  /** The number a bit array stands for. */
  function Value(s: seq<bit>): nat
  {
    if s == [] then 0 else Value(s[..|s| - 1]) + BitAt(s[|s| - 1], |s| - 1)
  }

  // ---------- division ----------

  lemma MulGap(k: int, d: int)
    requires d > 0
    ensures k >= 1 ==> k * d >= d
    ensures k <= -1 ==> k * d <= -d
  {
  }

  lemma MulCommute(a: int, b: int)
    ensures a * b == b * a
  {
  }

  lemma MulSame(a: int, b: int, c: int)
    requires a == b
    ensures a * c == b * c
  {
  }

  lemma MulMono(a: int, b: int, c: int)
    requires a <= b && c >= 0
    ensures a * c <= b * c
  {
  }

  lemma MulStrict(a: int, b: int, c: int)
    requires a < b && c > 0
    ensures a * c < b * c
  {
  }

  lemma QuotientUnique(d: int, q: int, r: int, q': int, r': int)
    requires d > 0 && q * d + r == q' * d + r' && 0 <= r < d && 0 <= r' < d
    ensures q == q' && r == r'
  {
    assert (q - q') * d == q * d - q' * d;
    MulGap(q - q', d);
  }

  lemma DivModDef(n: int, d: int)
    requires d > 0
    ensures n == (n / d) * d + n % d && 0 <= n % d < d
  {
  }

  lemma DivModUnique(n: int, d: int, q: int, r: int)
    requires d > 0 && n == q * d + r && 0 <= r < d
    ensures n / d == q && n % d == r
  {
    DivModDef(n, d);
    QuotientUnique(d, q, r, n / d, n % d);
  }

  lemma NestedQuotient(a: int, b: int, q: int, r: int, q2: int, r2: int)
    requires a > 0 && b > 0 && 0 <= r < a && 0 <= r2 < b && q == q2 * b + r2
    ensures q * a + r == q2 * (a * b) + (r2 * a + r)
    ensures 0 <= r2 * a + r < a * b
  {
    assert (q2 * b + r2) * a == q2 * (a * b) + r2 * a;
    MulMono(r2, b - 1, a);
    assert (b - 1) * a == a * b - a;
  }

  lemma DivDiv(n: int, a: int, b: int)
    requires a > 0 && b > 0
    ensures a * b > 0
    ensures n / a / b == n / (a * b)
  {
    DivModDef(n, a);
    DivModDef(n / a, b);
    NestedQuotient(a, b, n / a, n % a, n / a / b, (n / a) % b);
    DivModUnique(n, a * b, n / a / b, ((n / a) % b) * a + n % a);
  }

  lemma QuotientLess(n: int, d: int, k: int, q: int, r: int)
    requires d > 0 && n == q * d + r && 0 <= r < d
    ensures q < k <==> n < k * d
  {
    assert (k - q) * d == k * d - q * d;
    MulGap(k - q, d);
  }

  /** n / d < k exactly when n < k * d. */
  lemma DivLess(n: int, d: int, k: int)
    requires d > 0
    ensures n / d < k <==> n < k * d
  {
    DivModDef(n, d);
    QuotientLess(n, d, k, n / d, n % d);
  }

  // ---------- powers of two ----------

  lemma {:induction false} Pow2Add(a: nat, b: nat)
    ensures Pow2(a + b) == Pow2(a) * Pow2(b)
  {
    if b != 0 {
      Pow2Add(a, b - 1);
      assert Pow2(a + b) == 2 * Pow2(a + (b - 1));
      assert Pow2(a) * (2 * Pow2(b - 1)) == 2 * (Pow2(a) * Pow2(b - 1));
    }
  }

  lemma {:induction false} Pow2Mono(a: nat, b: nat)
    requires a <= b
    ensures Pow2(a) <= Pow2(b)
    ensures a < b ==> 2 * Pow2(a) <= Pow2(b)
  {
    if a < b {
      Pow2Mono(a, b - 1);
    }
  }

  lemma Pow2Table()
    ensures Pow2(1) == 2 && Pow2(2) == 4 && Pow2(3) == 8 && Pow2(4) == 16 && Pow2(5) == 32 && Pow2(6) == 64
    ensures Pow2(8) == 256 && Pow2(10) == 0x400 && Pow2(11) == 0x800 && Pow2(12) == 0x1000
    ensures Pow2(16) == 0x1_0000
    ensures Pow2(20) == 0x10_0000
  {
    assert Pow2(4) == 16;
    assert Pow2(8) == 256 by { Pow2Add(4, 4); }
    assert Pow2(12) == 0x1000 by { Pow2Add(8, 4); }
    assert Pow2(16) == 0x1_0000 by { Pow2Add(8, 8); }
    assert Pow2(20) == 0x10_0000 by { Pow2Add(16, 4); }
  }

  lemma Pow2Square(k: nat, p: nat)
    requires Pow2(k) == p
    ensures Pow2(k + k) == p * p
  {
    Pow2Add(k, k);
  }

  lemma Compute52()
    ensures Pow2(52) == 0x10_0000_0000_0000
  {
    Pow2Table();
    Pow2Square(8, 256);
    Pow2Square(16, 0x1_0000);
    Pow2Add(32, 20);
  }

  // Widths of the 64-bit and double-precision datapaths, as exponents of two.  They are kept abstract
  // (their values follow from `WidthValues`), because `Pow2` of a literal is evaluated wherever it is
  // mentioned.
  ghost function FiftyTwo(): (w: nat)
    ensures w > 31 && Pow2(w) == 0x10_0000_0000_0000
  {
    Compute52();
    var w: nat :| w > 31 && Pow2(w) == 0x10_0000_0000_0000;
    w
  }

  ghost const W52: nat := FiftyTwo()
  ghost const W51: nat := W52 - 1
  ghost const W53: nat := W52 + 1
  ghost const W56: nat := W52 + 4
  ghost const W57: nat := W52 + 5
  ghost const W104: nat := W52 + W52
  ghost const W105: nat := W52 + W53
  ghost const W106: nat := W53 + W53
  ghost const W32: nat := W52 - 20
  ghost const W63: nat := W52 + 11
  ghost const W64: nat := W52 + 12

  lemma WidthValues()
    ensures W51 == 51 && W52 == 52 && W53 == 53 && W56 == 56 && W57 == 57
    ensures W104 == 104 && W105 == 105 && W106 == 106
    ensures W32 == 32 && W63 == 63 && W64 == 64
  {
    Compute52();
    if W52 < 52 {
      Pow2Mono(W52, 52);
    } else if W52 > 52 {
      Pow2Mono(52, W52);
    }
  }

  lemma PowAround52()
    ensures Pow2(W51) == 0x8_0000_0000_0000
    ensures Pow2(W52) == 0x10_0000_0000_0000
    ensures Pow2(W53) == 0x20_0000_0000_0000
  {
    assert Pow2(W52) == 2 * Pow2(W51) && Pow2(W53) == 2 * Pow2(W52);
  }

  lemma PowWords()
    ensures Pow2(W57) == 0x200_0000_0000_0000
    ensures Pow2(W63) == 0x8000_0000_0000_0000 && Pow2(W64) == 0x1_0000_0000_0000_0000
    ensures Pow2(W32) == 0x1_0000_0000
  {
    Pow2Table();
    Pow2Add(W52, 5);
    Pow2Add(W52, 12);
    Pow2Add(W32, 20);
    assert Pow2(W64) == 2 * Pow2(W63);
  }

  // ---------- shifts ----------

  lemma {:induction false} ShlPow(v: nat, k: nat)
    ensures Shl(v, k) == v * Pow2(k)
  {
    if k > 0 {
      ShlPow(v, k - 1);
    }
  }

  lemma {:induction false} ShrPow(v: nat, k: nat)
    ensures Shr(v, k) == v / Pow2(k) && Low(v, k) == v % Pow2(k)
  {
    if k > 0 {
      ShrPow(v / 2, k - 1);
      LowBound(v, k);
      DivDiv(v, 2, Pow2(k - 1));
      DivModDef(v / 2, Pow2(k - 1));
      HalveRemainder(v, Pow2(k - 1), Shr(v / 2, k - 1), Low(v / 2, k - 1));
      DivModUnique(v, Pow2(k), Shr(v, k), Low(v, k));
    }
  }

  lemma HalveRemainder(v: int, p: int, q: int, r: int)
    requires v / 2 == q * p + r
    ensures v == q * (2 * p) + (v % 2 + 2 * r)
  {
  }

  /** Splitting a number at bit k. */
  lemma {:induction false} SplitAt(v: nat, k: nat)
    ensures v == Shl(Shr(v, k), k) + Low(v, k)
  {
    if k > 0 {
      SplitAt(v / 2, k - 1);
    }
  }

  lemma {:induction false} ShrShr(v: nat, a: nat, b: nat)
    ensures Shr(Shr(v, a), b) == Shr(v, a + b)
  {
    if a > 0 {
      ShrShr(v / 2, a - 1, b);
    }
  }

  lemma {:induction false} ShlShl(v: nat, a: nat, b: nat)
    ensures Shl(Shl(v, a), b) == Shl(v, a + b)
  {
    if b > 0 {
      ShlShl(v, a, b - 1);
    }
  }

  lemma {:induction false} ShlAdd(v: nat, w: nat, k: nat)
    ensures Shl(v + w, k) == Shl(v, k) + Shl(w, k)
  {
    if k > 0 {
      ShlAdd(v, w, k - 1);
    }
  }

  lemma ShlSub(v: nat, w: nat, k: nat)
    requires w <= v
    ensures Shl(v - w, k) == Shl(v, k) - Shl(w, k)
  {
    ShlAdd(v - w, w, k);
  }

  lemma {:induction false} ShlMono(v: nat, w: nat, k: nat)
    requires v <= w
    ensures Shl(v, k) <= Shl(w, k)
    ensures v < w ==> Shl(v, k) + Pow2(k) <= Shl(w, k)
  {
    if k > 0 {
      ShlMono(v, w, k - 1);
    }
  }

  lemma {:induction false} ShlTimes(k: nat, v: nat, w: nat)
    ensures Shl(k * v, w) == Shl(v, w) * k
  {
    if w > 0 {
      ShlTimes(k, v, w - 1);
    }
  }

  lemma {:induction false} ShlGrows(v: nat, k: nat)
    ensures Shl(v, k) >= v
  {
    if k > 0 {
      ShlGrows(v, k - 1);
    }
  }

  lemma ShlCompare(v: nat, w: nat, k: nat)
    ensures v < w <==> Shl(v, k) < Shl(w, k)
    ensures v == w <==> Shl(v, k) == Shl(w, k)
  {
    if v < w {
      ShlMono(v, w, k);
    } else if w < v {
      ShlMono(w, v, k);
    }
  }

  lemma ShlSwap(v: nat, a: nat, b: nat)
    ensures Shl(Shl(v, a), b) == Shl(Shl(v, b), a)
  {
    ShlShl(v, a, b);
    ShlShl(v, b, a);
  }

  lemma ShlTimesPow(v: nat, k: nat, d: nat)
    ensures Shl(v, k) * Pow2(d) == Shl(v, k + d)
  {
    ShlPow(Shl(v, k), d);
    ShlShl(v, k, d);
  }

  lemma {:induction false} ShlOfPow(a: nat, k: nat)
    ensures Shl(Pow2(a), k) == Pow2(a + k)
  {
    if k > 0 {
      ShlOfPow(a, k - 1);
    }
  }

  lemma ShlPred(v: nat, k: nat)
    requires v >= 1
    ensures Shl(v - 1, k) + Pow2(k) == Shl(v, k)
  {
    ShlAdd(v - 1, 1, k);
    ShlOfPow(0, k);
  }

  /** Shifting left by j and back by k. */
  lemma {:induction false} ShrOfShl(v: nat, j: nat, k: nat)
    ensures k <= j ==> Shr(Shl(v, j), k) == Shl(v, j - k)
    ensures j <= k ==> Shr(Shl(v, j), k) == Shr(v, k - j)
  {
    if j > 0 && k > 0 {
      ShrOfShl(v, j - 1, k - 1);
    }
  }

  /** Shr is a floor: it is at least w exactly when v has reached w << k. */
  lemma {:induction false} ShrAtLeast(v: nat, k: nat, w: nat)
    ensures Shr(v, k) >= w <==> v >= Shl(w, k)
  {
    if k > 0 {
      ShrAtLeast(v / 2, k - 1, w);
    }
  }

  lemma {:induction false} ShrLess(v: nat, k: nat)
    ensures Shr(v, k) <= v
    ensures v < Pow2(k) ==> Shr(v, k) == 0
  {
    if k > 0 {
      ShrLess(v / 2, k - 1);
    }
  }

  lemma {:induction false} LowAll(v: nat, k: nat)
    requires v < Pow2(k)
    ensures Low(v, k) == v
  {
    if k > 0 {
      LowAll(v / 2, k - 1);
    }
  }

  lemma {:induction false} LowBound(v: nat, k: nat)
    ensures Low(v, k) < Pow2(k)
    ensures Low(v, k) <= v
  {
    if k > 0 {
      LowBound(v / 2, k - 1);
    }
  }

  lemma {:induction false} LowLow(v: nat, a: nat, b: nat)
    requires b <= a
    ensures Low(Low(v, a), b) == Low(v, b)
  {
    if b > 0 {
      LowLow(v / 2, a - 1, b - 1);
    }
  }

  /** The low part of a number, split again at bit j. */
  lemma {:induction false} LowSplit(v: nat, j: nat, k: nat)
    ensures Low(v, j + k) == Shl(Low(Shr(v, j), k), j) + Low(v, j)
  {
    if j > 0 {
      LowSplit(v / 2, j - 1, k);
    }
  }

  lemma SplitUnique(v: nat, k: nat, hi: nat, lo: nat)
    requires v == Shl(hi, k) + lo && lo < Pow2(k)
    ensures Shr(v, k) == hi && Low(v, k) == lo
  {
    SplitAt(v, k);
    LowBound(v, k);
    var h := Shr(v, k);
    if h < hi {
      ShlMono(h, hi, k);
    } else if hi < h {
      ShlMono(hi, h, k);
    }
  }

  lemma {:induction false} LowStep(v: nat, k: nat)
    ensures Low(v, k + 1) == Low(v, k) + BitAt(Bit(v, k), k)
  {
    if k > 0 {
      LowStep(v / 2, k - 1);
    }
  }

  lemma {:induction false} BitOfShr(v: nat, k: nat, i: nat)
    ensures Bit(Shr(v, k), i) == Bit(v, i + k)
  {
    if k > 0 {
      BitOfShr(v / 2, k - 1, i);
    }
  }

  lemma {:induction false} BitOfShl(v: nat, k: nat, i: nat)
    ensures i >= k ==> Bit(Shl(v, k), i) == Bit(v, i - k)
    ensures i < k ==> Bit(Shl(v, k), i) == 0
  {
    if k > 0 && i > 0 {
      BitOfShl(v, k - 1, i - 1);
    }
  }

  lemma {:induction false} BitOfLow(v: nat, k: nat, i: nat)
    ensures Bit(Low(v, k), i) == if i < k then Bit(v, i) else 0
  {
    if k == 0 {
      BitAbove(0, 0, i);
    } else {
      DoubleAdd(v % 2, Low(v / 2, k - 1));
      if i > 0 {
        BitOfLow(v / 2, k - 1, i - 1);
      }
    }
  }

  lemma DoubleAdd(b: bit, w: nat)
    ensures (b + 2 * w) % 2 == b && (b + 2 * w) / 2 == w
  {
  }

  lemma {:induction false} BitAbove(v: nat, n: nat, i: nat)
    requires v < Pow2(n) && n <= i
    ensures Bit(v, i) == 0
  {
    if i > 0 {
      BitAbove(v / 2, if n == 0 then 0 else n - 1, i - 1);
    }
  }

  /** The highest possible bit decides which half of the range v lies in. */
  lemma {:induction false} LeadingBit(v: nat, k: nat)
    requires v < Pow2(k + 1)
    ensures Bit(v, k) == 1 <==> v >= Pow2(k)
  {
    if k > 0 {
      LeadingBit(v / 2, k - 1);
    }
  }

  // ---------- bit arrays ----------

  lemma {:induction false} ValueBound(s: seq<bit>, n: nat)
    requires n == |s|
    ensures Value(s) < Pow2(n)
  {
    if n > 0 {
      ValueBound(s[..n - 1], n - 1);
    }
  }

  /** Bit by bit, s is the low part of v. */
  ghost predicate HoldsBits(s: seq<bit>, v: nat) {
    forall i :: 0 <= i < |s| ==> s[i] == Bit(v, i)
  }

  lemma {:induction false} ValueLow(s: seq<bit>, v: nat)
    requires HoldsBits(s, v)
    ensures Value(s) == Low(v, |s|)
  {
    if s != [] {
      ValueLow(s[..|s| - 1], v);
      LowStep(v, |s| - 1);
    }
  }

  lemma ValueIs(s: seq<bit>, v: nat)
    requires HoldsBits(s, v) && v < Pow2(|s|)
    ensures Value(s) == v
  {
    ValueLow(s, v);
    LowAll(v, |s|);
  }

  lemma {:induction false} ValueFront(s: seq<bit>)
    requires |s| > 0
    ensures Value(s) == s[0] + 2 * Value(s[1..])
  {
    var n := |s| - 1;
    if n > 0 {
      ValueFront(s[..n]);
      assert s[1..][..n - 1] == s[..n][1..];
    }
  }

  lemma {:induction false} ValueBits(s: seq<bit>)
    ensures HoldsBits(s, Value(s))
  {
    if s != [] {
      ValueFront(s);
      ValueBits(s[1..]);
      forall i | 0 <= i < |s| ensures s[i] == Bit(Value(s), i) {
        if i > 0 {
          assert s[i] == s[1..][i - 1];
        }
      }
    }
  }

  // ---------- leading one ----------

  /** Position of the highest set bit. */
  function Msb(v: nat): (k: nat)
    requires v > 0
    ensures Pow2(k) <= v < Pow2(k + 1)
  {
    if v == 1 then 0 else 1 + Msb(v / 2)
  }

  lemma MsbUnique(v: nat, k: nat)
    requires Pow2(k) <= v < Pow2(k + 1)
    ensures Msb(v) == k
  {
    var m := Msb(v);
    if m < k {
      Pow2Mono(m + 1, k);
    } else if k < m {
      Pow2Mono(k + 1, m);
    }
  }

  /** Appending n low bits moves the highest bit up by n. */
  lemma {:induction false} MsbAppend(v: nat, n: nat, low: nat)
    requires v > 0 && low < Pow2(n)
    ensures Shl(v, n) + low > 0 && Msb(Shl(v, n) + low) == Msb(v) + n
  {
    if n > 0 {
      var w := Shl(v, n) + low;
      assert w / 2 == Shl(v, n - 1) + low / 2;
      MsbAppend(v, n - 1, low / 2);
    }
  }
}
