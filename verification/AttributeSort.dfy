/** Sorting a list attribute in place: Hoare's quicksort with a pivot that points into the list. */
module AttributeSort {
  import Bits
  import opened AttributeTree

  // ---------- the order ----------

  /** `strcmp(x, y) < 0`. */
  predicate TextLess(x: string, y: string) {
    if y == [] then false
    else if x == [] then true
    else x[0] < y[0] || (x[0] == y[0] && TextLess(x[1..], y[1..]))
  }

  /** The order of a dictionary: at the first difference the smaller character, or the end of the text, is first. */
  ghost predicate Precedes(x: string, y: string) {
    exists k :: DiffersAt(x, y, k)
  }

  ghost predicate DiffersAt(x: string, y: string, k: int) {
    && 0 <= k <= |x| && k < |y| && x[..k] == y[..k]
    && (k == |x| || x[k] < y[k])
  }

  /** `strcmp` is that order. */
  lemma {:induction false} TextLessIs(x: string, y: string)
    ensures TextLess(x, y) <==> Precedes(x, y)
  {
    if x == [] || y == [] {
      assert y != [] ==> DiffersAt(x, y, 0);
    } else {
      TextLessIs(x[1..], y[1..]);
      if x[0] < y[0] {
        assert DiffersAt(x, y, 0);
      }
      if x[0] == y[0] && Precedes(x[1..], y[1..]) {
        var k :| DiffersAt(x[1..], y[1..], k);
        FirstCharacter(x, y, k + 1);
      }
      if Precedes(x, y) {
        var k :| DiffersAt(x, y, k);
        if k > 0 {
          assert x[0] == x[..k][0] == y[..k][0] == y[0];
          FirstCharacter(x, y, k);
        }
      }
    }
  }

  lemma FirstCharacter(x: string, y: string, k: nat)
    requires x != [] && y != [] && x[0] == y[0] && k > 0
    ensures DiffersAt(x, y, k) <==> DiffersAt(x[1..], y[1..], k - 1)
  {
    if k <= |x| && k <= |y| {
      assert x[..k] == [x[0]] + x[1..][..k - 1] && y[..k] == [y[0]] + y[1..][..k - 1];
      if x[..k] == y[..k] {
        assert x[1..][..k - 1] == x[..k][1..] == y[..k][1..] == y[1..][..k - 1];
      }
    }
  }

  lemma {:induction false} TextOrder(x: string, y: string, z: string)
    ensures !(TextLess(x, y) && TextLess(y, x))
    ensures !TextLess(x, y) && !TextLess(y, z) ==> !TextLess(x, z)
  {
    if x != [] && y != [] {
      TextOrder(x[1..], y[1..], if z == [] then [] else z[1..]);
    }
  }

  /** The integer of either kind as the signed and as the unsigned accessor read it. */
  function AsSigned(k: Attr): int {
    if k.Int? then k.i else if k.UInt? then Bits.ToInt64(k.u) else 0
  }

  function AsUnsigned(k: Attr): int {
    if k.UInt? then k.u else if k.Int? then Bits.Wrap64(k.i) else 0
  }

  /** Comparison as the kind of the first value asks for; texts and integers do not compare. */
  predicate KeyLess(x: Attr, y: Attr) {
    match x
    case Str(s) => y.Str? && TextLess(s, y.s)
    case Int(i) => (y.Int? || y.UInt?) && i < AsSigned(y)
    case UInt(u) => (y.Int? || y.UInt?) && u < AsUnsigned(y)
    case _ => false
  }

  /** The comparison the other way, again as the kind of the first value asks for. */
  predicate KeyMore(x: Attr, y: Attr) {
    match x
    case Str(s) => y.Str? && TextLess(y.s, s)
    case Int(i) => (y.Int? || y.UInt?) && i > AsSigned(y)
    case UInt(u) => (y.Int? || y.UInt?) && u > AsUnsigned(y)
    case _ => false
  }

  /** What an item is compared by: itself, or for a list the element that was asked for. */
  function Key(x: Attr, idx: nat): Attr {
    if x.List? then (if idx < |x.items| then x.items[idx] else Nil) else x
  }

  predicate Less(x: Attr, y: Attr, idx: nat) {
    KeyLess(Key(x, idx), Key(y, idx))
  }

  predicate More(x: Attr, y: Attr, idx: nat) {
    KeyMore(Key(x, idx), Key(y, idx))
  }

  lemma NotLessThanItself(x: Attr, idx: nat)
    ensures !Less(x, x, idx)
  {
    var k := Key(x, idx);
    if k.Str? {
      TextOrder(k.s, k.s, k.s);
    }
  }

  /** Kinds of keys that compare consistently: besides those of one type, integers of both types that read as
      the same number through both accessors. */
  datatype Kind = Text | Signed | Unsigned | Number | Unordered

  predicate HasKind(k: Attr, kd: Kind) {
    match kd
    case Text => k.Str?
    case Signed => k.Int?
    case Unsigned => k.UInt?
    case Number => (k.Int? || k.UInt?) && AsSigned(k) == AsUnsigned(k)
    case Unordered => !k.Str? && !k.Int? && !k.UInt?
  }

  ghost predicate OfKind(x: Attr, kd: Kind, idx: nat) {
    HasKind(Key(x, idx), kd)
  }

  /** Items whose keys are read as what they are: all lists that have the element, or no list, and all keys texts,
      all integers, or all of neither kind. */
  predicate Readable(s: seq<Attr>, idx: nat) {
    forall i, j :: 0 <= i < |s| && 0 <= j < |s| ==>
                     && s[i].List? == s[j].List? && (s[i].List? ==> idx < |s[i].items|)
                     && Key(s[i], idx).Str? == Key(s[j], idx).Str?
                     && IsInteger(Key(s[i], idx)) == IsInteger(Key(s[j], idx))
  }

  predicate IsInteger(k: Attr) { k.Int? || k.UInt? }

  /** Items that compare consistently: one kind of key. */
  ghost predicate Comparable(s: seq<Attr>, idx: nat) {
    exists kd :: AllOfKind(s, kd, idx)
  }

  predicate Le(x: Attr, y: Attr, idx: nat) {
    !Less(y, x, idx)
  }

  /** On items of one kind the order is a total preorder. */
  lemma Preorder(x: Attr, y: Attr, z: Attr, kd: Kind, idx: nat)
    requires OfKind(x, kd, idx) && OfKind(y, kd, idx) && OfKind(z, kd, idx)
    ensures Le(x, x, idx)
    ensures Less(x, y, idx) ==> Le(x, y, idx)
    ensures Le(x, y, idx) && Le(y, z, idx) ==> Le(x, z, idx)
  {
    var a, b, c := Key(x, idx), Key(y, idx), Key(z, idx);
    if kd == Number {
      NumbersCompare(a, b);
      NumbersCompare(b, c);
      NumbersCompare(a, c);
    } else if kd == Text {
      TextOrder(a.s, a.s, a.s);
      TextOrder(a.s, b.s, b.s);
      TextOrder(c.s, b.s, a.s);
    }
  }

  /** On items of one kind it does not matter whose kind decides. */
  lemma MoreIsLess(x: Attr, y: Attr, kd: Kind, idx: nat)
    requires OfKind(x, kd, idx) && OfKind(y, kd, idx)
    ensures More(x, y, idx) <==> Less(y, x, idx)
  {
    if kd == Number {
      NumbersCompare(Key(x, idx), Key(y, idx));
    }
  }

  lemma NumbersCompare(a: Attr, b: Attr)
    requires HasKind(a, Number) && HasKind(b, Number)
    ensures KeyLess(a, b) <==> AsSigned(a) < AsSigned(b)
    ensures KeyLess(b, a) <==> AsSigned(b) < AsSigned(a)
    ensures KeyMore(a, b) <==> AsSigned(b) < AsSigned(a)
  {
  }

  /** A signed and an unsigned 64-bit integer compare as numbers exactly when both read the same through both
      accessors, or neither does and the unsigned one is beyond the word of the signed one. */
  lemma MixedKeys(i: int, u: nat)
    requires -0x8000_0000_0000_0000 <= i < 0x8000_0000_0000_0000 && u < 0x1_0000_0000_0000_0000
    ensures && (KeyLess(Int(i), UInt(u)) <==> i < u) && (KeyMore(Int(i), UInt(u)) <==> u < i)
            && (KeyLess(UInt(u), Int(i)) <==> u < i) && (KeyMore(UInt(u), Int(i)) <==> i < u)
            <==>
            || (HasKind(Int(i), Number) && HasKind(UInt(u), Number))
            || (i < 0 && i + 0x1_0000_0000_0000_0000 < u)
  {
  }

  /** A negative integer and an unsigned one below 2^63 are less than each other: no list with both can be sorted. */
  lemma MixedUnsortable(i: int, u: nat, t: seq<Attr>, idx: nat)
    requires -0x8000_0000_0000_0000 <= i < 0 && u < 0x8000_0000_0000_0000 && Int(i) in t && UInt(u) in t
    ensures !SortedRange(t, 0, |t| - 1, idx)
  {
    var p :| 0 <= p < |t| && t[p] == Int(i);
    var q :| 0 <= q < |t| && t[q] == UInt(u);
    assert Less(t[p], t[q], idx) && Less(t[q], t[p], idx);
    assert p < q ==> !Le(t[p], t[q], idx);
    assert q < p ==> !Le(t[q], t[p], idx);
  }

  // ---------- the list as a value ----------

  ghost predicate AllOfKind(s: seq<Attr>, kd: Kind, idx: nat) {
    forall k :: 0 <= k < |s| ==> OfKind(s[k], kd, idx)
  }

  /** The range has been permuted and nothing else has changed. */
  ghost predicate Permuted(s: seq<Attr>, t: seq<Attr>, lo: int, hi: int) {
    && |s| == |t| && 0 <= lo <= hi + 1 <= |s|
    && (forall k :: 0 <= k < lo ==> t[k] == s[k])
    && (forall k :: hi < k < |s| ==> t[k] == s[k])
    && multiset(t[lo..hi + 1]) == multiset(s[lo..hi + 1])
  }

  function Swapped(s: seq<Attr>, n: nat, m: nat): seq<Attr>
    requires n < |s| && m < |s|
  {
    s[n := s[m]][m := s[n]]
  }

  lemma SwapMultiset(s: seq<Attr>, n: nat, m: nat)
    requires n < m < |s|
    ensures multiset(Swapped(s, n, m)) == multiset(s)
  {
    var t := s[n := s[m]];
    assert multiset(t) == multiset(s) - multiset{s[n]} + multiset{s[m]};
    assert t[m] == s[m];
    assert multiset(t[m := s[n]]) == multiset(t) - multiset{t[m]} + multiset{s[n]};
  }

  lemma SwapPermutes(s: seq<Attr>, n: nat, m: nat, lo: nat, hi: nat)
    requires lo <= n < m <= hi < |s|
    ensures Permuted(s, Swapped(s, n, m), lo, hi)
  {
    var t := Swapped(s, n, m);
    assert t[lo..hi + 1] == Swapped(s[lo..hi + 1], n - lo, m - lo);
    SwapMultiset(s[lo..hi + 1], n - lo, m - lo);
  }

  lemma PermutedTrans(s: seq<Attr>, t: seq<Attr>, u: seq<Attr>, lo: int, hi: int)
    requires Permuted(s, t, lo, hi) && Permuted(t, u, lo, hi)
    ensures Permuted(s, u, lo, hi)
  {
  }

  /** A permutation of a part is a permutation of the whole range. */
  lemma PermutedWider(s: seq<Attr>, t: seq<Attr>, lo: int, hi: int, l: int, h: int)
    requires Permuted(s, t, l, h) && 0 <= lo <= l && h <= hi && lo <= hi + 1 <= |s|
    ensures Permuted(s, t, lo, hi)
  {
    assert s[lo..hi + 1] == s[lo..l] + s[l..h + 1] + s[h + 1..hi + 1];
    assert t[lo..hi + 1] == t[lo..l] + t[l..h + 1] + t[h + 1..hi + 1];
    assert s[lo..l] == t[lo..l] && s[h + 1..hi + 1] == t[h + 1..hi + 1];
  }

  /** Every item of a permuted range was in the range before. */
  lemma PermutedFrom(s: seq<Attr>, t: seq<Attr>, lo: int, hi: int, k: int) returns (j: int)
    requires Permuted(s, t, lo, hi) && lo <= k <= hi
    ensures lo <= j <= hi && t[k] == s[j]
  {
    assert t[lo..hi + 1][k - lo] == t[k];
    assert t[k] in multiset(s[lo..hi + 1]);
    assert t[k] in s[lo..hi + 1];
    var i :| 0 <= i < hi + 1 - lo && s[lo..hi + 1][i] == t[k];
    j := lo + i;
  }

  lemma KindKept(s: seq<Attr>, t: seq<Attr>, lo: int, hi: int, kd: Kind, idx: nat)
    requires Permuted(s, t, lo, hi) && AllOfKind(s, kd, idx)
    ensures AllOfKind(t, kd, idx)
  {
    forall k | 0 <= k < |t| ensures OfKind(t[k], kd, idx) {
      if lo <= k <= hi {
        var j := PermutedFrom(s, t, lo, hi, k);
      }
    }
  }

  ghost predicate AllLe(s: seq<Attr>, lo: int, hi: int, p: Attr, idx: nat)
    requires 0 <= lo && hi < |s|
  {
    forall k :: lo <= k <= hi ==> Le(s[k], p, idx)
  }

  ghost predicate AllGe(s: seq<Attr>, lo: int, hi: int, p: Attr, idx: nat)
    requires 0 <= lo && hi < |s|
  {
    forall k :: lo <= k <= hi ==> Le(p, s[k], idx)
  }

  /** A bound for a range still bounds it after a permutation of the range. */
  lemma BoundsKept(s: seq<Attr>, t: seq<Attr>, lo: int, hi: int, p: Attr, idx: nat)
    requires Permuted(s, t, lo, hi)
    ensures AllLe(s, lo, hi, p, idx) ==> AllLe(t, lo, hi, p, idx)
    ensures AllGe(s, lo, hi, p, idx) ==> AllGe(t, lo, hi, p, idx)
  {
    forall k | lo <= k <= hi
      ensures AllLe(s, lo, hi, p, idx) ==> Le(t[k], p, idx)
      ensures AllGe(s, lo, hi, p, idx) ==> Le(p, t[k], idx)
    {
      var j := PermutedFrom(s, t, lo, hi, k);
    }
  }

  /** The items up to q are not above p, the later ones not below it. */
  ghost predicate Separates(s: seq<Attr>, lo: int, q: int, hi: int, p: Attr, idx: nat)
    requires 0 <= lo <= q < hi < |s|
  {
    AllLe(s, lo, q, p, idx) && AllGe(s, q + 1, hi, p, idx)
  }

  ghost predicate SortedRange(s: seq<Attr>, lo: int, hi: int, idx: nat)
    requires 0 <= lo && hi < |s|
  {
    forall i, j :: lo <= i <= j <= hi ==> Le(s[i], s[j], idx)
  }

  // ---------- partition ----------

  method SwapListItem(a: array<Attr>, n: nat, m: nat)
    requires n < a.Length && m < a.Length
    modifies a
    ensures a[..] == Swapped(old(a[..]), n, m)
  {
    if n == m {
      return;
    }
    a[n], a[m] := a[m], a[n];
  }

  ghost predicate FoundUp(s: seq<Attr>, lo: int, hi: int, from: int, i: int, idx: nat) {
    && 0 <= lo <= hi < |s| && lo - 1 <= from < i <= hi
    && (forall k :: from < k < i ==> Less(s[k], s[lo], idx))
    && (i == hi || Le(s[lo], s[i], idx))
  }

  ghost predicate FoundDown(s: seq<Attr>, lo: int, hi: int, from: int, j: int, idx: nat) {
    && 0 <= lo <= hi < |s| && lo <= j < from <= hi + 1
    && (forall k :: j < k < from ==> More(s[k], s[lo], idx))
    && (j == lo || !More(s[j], s[lo], idx))
  }

  /** The scan from the right on items of one kind. */
  lemma FoundLess(s: seq<Attr>, lo: int, hi: int, from: int, j: int, kd: Kind, idx: nat)
    requires FoundDown(s, lo, hi, from, j, idx) && AllOfKind(s, kd, idx)
    ensures forall k :: j < k < from ==> Less(s[lo], s[k], idx)
    ensures j == lo || Le(s[j], s[lo], idx)
  {
    forall k | j <= k < from ensures More(s[k], s[lo], idx) <==> Less(s[lo], s[k], idx) {
      MoreIsLess(s[k], s[lo], kd, idx);
    }
  }

  /** `while (++i < hi)`: the next item from the left that does not belong to the left part. */
  method ScanUp(a: array<Attr>, from: int, lo: nat, hi: nat, idx: nat) returns (i: int)
    requires lo <= hi < a.Length && lo - 1 <= from < hi
    ensures FoundUp(a[..], lo, hi, from, i, idx)
  {
    i := from + 1;
    while i < hi && Less(a[i], a[lo], idx)
      invariant from < i <= hi
      invariant forall k :: from < k < i ==> Less(a[k], a[lo], idx)
    {
      i := i + 1;
    }
  }

  /** `while (--j > lo)`: the next item from the right that does not belong to the right part. */
  method ScanDown(a: array<Attr>, from: int, lo: nat, hi: nat, idx: nat) returns (j: int)
    requires lo <= hi < a.Length && lo < from <= hi + 1
    ensures FoundDown(a[..], lo, hi, from, j, idx)
  {
    j := from - 1;
    while j > lo && More(a[j], a[lo], idx)
      invariant lo <= j < from
      invariant forall k :: j < k < from ==> More(a[k], a[lo], idx)
    {
      j := j - 1;
    }
  }

  /** The scanned ends are on their side of the pivot, which is whatever slot lo holds now. */
  ghost predicate Scanned(s: seq<Attr>, lo: int, hi: int, i: int, j: int, idx: nat) {
    && 0 <= lo <= i < j <= hi < |s|
    && AllLe(s, lo, i, s[lo], idx) && AllGe(s, j, hi, s[lo], idx)
  }

  /** The first exchange moves the pivot itself: slot lo gets a smaller or equal value, which takes over as pivot. */
  lemma FirstSwap(s: seq<Attr>, lo: nat, hi: nat, j: nat, kd: Kind, idx: nat)
    requires AllOfKind(s, kd, idx) && lo < j <= hi < |s| && Le(s[j], s[lo], idx)
    requires forall k :: j < k <= hi ==> Less(s[lo], s[k], idx)
    ensures Scanned(Swapped(s, lo, j), lo, hi, lo, j, idx)
  {
    var t := Swapped(s, lo, j);
    Preorder(s[j], s[j], s[j], kd, idx);
    forall k | j <= k <= hi ensures Le(t[lo], t[k], idx) {
      if k > j {
        Preorder(s[lo], s[k], s[k], kd, idx);
        Preorder(s[j], s[lo], s[k], kd, idx);
      }
    }
  }

  lemma LaterSwap(s: seq<Attr>, lo: nat, hi: nat, i0: nat, j0: nat, i: nat, j: nat, kd: Kind, idx: nat)
    requires AllOfKind(s, kd, idx) && Scanned(s, lo, hi, i0, j0, idx) && i0 < i < j < j0
    requires forall k :: i0 < k < i ==> Less(s[k], s[lo], idx)
    requires forall k :: j < k < j0 ==> Less(s[lo], s[k], idx)
    requires Le(s[lo], s[i], idx) && Le(s[j], s[lo], idx)
    ensures Scanned(Swapped(s, i, j), lo, hi, i, j, idx)
  {
    var t := Swapped(s, i, j);
    forall k | lo <= k <= i ensures Le(t[k], t[lo], idx) {
      if i0 < k < i {
        Preorder(s[k], s[lo], s[lo], kd, idx);
      }
    }
    forall k | j <= k <= hi ensures Le(t[lo], t[k], idx) {
      if j < k < j0 {
        Preorder(s[lo], s[k], s[k], kd, idx);
      }
    }
  }

  /** When the scans have met, the pivot separates the two parts. */
  lemma Met(s: seq<Attr>, lo: nat, hi: nat, i0: int, j0: int, i: nat, j: nat, kd: Kind, idx: nat)
    requires AllOfKind(s, kd, idx) && j <= i
    requires Scanned(s, lo, hi, i0, j0, idx) || (i0 == lo - 1 && j0 == hi + 1)
    requires FoundUp(s, lo, hi, i0, i, idx) && FoundDown(s, lo, hi, j0, j, idx)
    ensures AllLe(s, lo, j, s[lo], idx) && AllGe(s, j + 1, hi, s[lo], idx)
  {
    FoundLess(s, lo, hi, j0, j, kd, idx);
    Preorder(s[lo], s[lo], s[lo], kd, idx);
    forall k | lo <= k <= j ensures Le(s[k], s[lo], idx) {
      if i0 < k < i {
        Preorder(s[k], s[lo], s[lo], kd, idx);
      }
    }
    forall k | j < k <= hi ensures Le(s[lo], s[k], idx) {
      if k < j0 {
        Preorder(s[lo], s[k], s[k], kd, idx);
      }
    }
  }

  /** The scans have not started, or lie within the range and have not met. */
  predicate Apart(lo: int, hi: int, i: int, j: int) {
    (i == lo - 1 && j == hi + 1) || lo <= i < j <= hi
  }

  /** The first scan from the left stops at the pivot, which is not less than itself. */
  lemma StopsInside(s: seq<Attr>, lo: int, hi: int, i0: int, j0: int, i: int, j: int, idx: nat)
    requires lo < hi && Apart(lo, hi, i0, j0)
    requires FoundUp(s, lo, hi, i0, i, idx) && FoundDown(s, lo, hi, j0, j, idx)
    ensures i < j ==> lo <= i && j <= hi
    ensures j <= i ==> lo <= j < hi
  {
    NotLessThanItself(s[lo], idx);
  }

  /** Whatever the items are, the range is permuted and split in two; if they are of one kind, by a pivot. */
  method Partition(a: array<Attr>, lo: nat, hi: nat, idx: nat, ghost kd: Kind) returns (q: nat, ghost p: Attr)
    requires lo < hi < a.Length
    modifies a
    ensures lo <= q < hi && Permuted(old(a[..]), a[..], lo, hi)
    ensures AllOfKind(old(a[..]), kd, idx) ==>
              AllOfKind(a[..], kd, idx) && OfKind(p, kd, idx) && Separates(a[..], lo, q, hi, p, idx)
  {
    ghost var kinded := AllOfKind(a[..], kd, idx);
    var i, j := lo - 1, hi + 1;
    while true
      invariant Apart(lo, hi, i, j) && Permuted(old(a[..]), a[..], lo, hi)
      invariant kinded ==> AllOfKind(a[..], kd, idx)
      invariant kinded ==> Scanned(a[..], lo, hi, i, j, idx) || (i == lo - 1 && j == hi + 1)
      decreases j - i
    {
      ghost var i0, j0, s := i, j, a[..];
      i := ScanUp(a, i, lo, hi, idx);
      j := ScanDown(a, j, lo, hi, idx);
      StopsInside(s, lo, hi, i0, j0, i, j, idx);
      if i >= j {
        q, p := j, a[lo];
        if kinded {
          Met(s, lo, hi, i0, j0, i, j, kd, idx);
        }
        return;
      }
      SwapListItem(a, i, j);
      SwapPermutes(s, i, j, lo, hi);
      PermutedTrans(old(a[..]), s, a[..], lo, hi);
      if kinded {
        Exchanged(s, lo, hi, i0, j0, i, j, kd, idx);
      }
    }
  }

  /** One exchange of the two items found. */
  lemma Exchanged(s: seq<Attr>, lo: nat, hi: nat, i0: int, j0: int, i: nat, j: nat, kd: Kind, idx: nat)
    requires AllOfKind(s, kd, idx) && i < j
    requires Scanned(s, lo, hi, i0, j0, idx) || (i0 == lo - 1 && j0 == hi + 1)
    requires FoundUp(s, lo, hi, i0, i, idx) && FoundDown(s, lo, hi, j0, j, idx)
    ensures var t := Swapped(s, i, j);
            Scanned(t, lo, hi, i, j, idx) && Permuted(s, t, lo, hi) && AllOfKind(t, kd, idx)
  {
    FoundLess(s, lo, hi, j0, j, kd, idx);
    SwapPermutes(s, i, j, lo, hi);
    KindKept(s, Swapped(s, i, j), lo, hi, kd, idx);
    if i0 == lo - 1 {
      Preorder(s[lo], s[lo], s[lo], kd, idx);
      assert i == lo;
      FirstSwap(s, lo, hi, j, kd, idx);
    } else {
      LaterSwap(s, lo, hi, i0, j0, i, j, kd, idx);
    }
  }

  // ---------- quicksort ----------

  /** Two sorted halves on either side of a pivot. */
  lemma Joined(s: seq<Attr>, lo: nat, q: nat, hi: nat, p: Attr, kd: Kind, idx: nat)
    requires lo <= q < hi < |s| && AllOfKind(s, kd, idx) && OfKind(p, kd, idx)
    requires SortedRange(s, lo, q, idx) && SortedRange(s, q + 1, hi, idx)
    requires AllLe(s, lo, q, p, idx) && AllGe(s, q + 1, hi, p, idx)
    ensures SortedRange(s, lo, hi, idx)
  {
    forall i, j | lo <= i <= j <= hi ensures Le(s[i], s[j], idx) {
      if i <= q < j {
        Preorder(s[i], p, s[j], kd, idx);
      }
    }
  }

  lemma ShortRange(s: seq<Attr>, lo: int, hi: int, kd: Kind, idx: nat)
    requires 0 <= lo <= hi + 1 <= |s| && hi <= lo && AllOfKind(s, kd, idx)
    ensures SortedRange(s, lo, hi, idx) && Permuted(s, s, lo, hi)
  {
    if lo == hi {
      Preorder(s[lo], s[lo], s[lo], kd, idx);
    }
  }

  method Quicksort(a: array<Attr>, lo: int, hi: int, idx: nat, ghost kd: Kind)
    requires 0 <= lo <= hi + 1 <= a.Length
    modifies a
    ensures Permuted(old(a[..]), a[..], lo, hi)
    ensures AllOfKind(old(a[..]), kd, idx) ==> AllOfKind(a[..], kd, idx) && SortedRange(a[..], lo, hi, idx)
    decreases hi - lo + 1
  {
    ghost var kinded := AllOfKind(a[..], kd, idx);
    if lo >= hi {
      if kinded {
        ShortRange(a[..], lo, hi, kd, idx);
      }
      return;
    }
    ghost var r, p := a[..], a[lo];
    var q;
    q, p := Partition(a, lo, hi, idx, kd);
    ghost var s := a[..];
    Quicksort(a, lo, q, idx, kd);
    ghost var t := a[..];
    Quicksort(a, q + 1, hi, idx, kd);
    PermutedParts(r, s, t, a[..], lo, q, hi);
    if kinded {
      Assemble(s, t, a[..], lo, q, hi, p, kd, idx);
    }
  }

  /** Permuting the range and then its parts permutes the range. */
  lemma PermutedParts(r: seq<Attr>, s: seq<Attr>, t: seq<Attr>, u: seq<Attr>, lo: nat, q: nat, hi: nat)
    requires lo <= q < hi < |r| && Permuted(r, s, lo, hi) && Permuted(s, t, lo, q) && Permuted(t, u, q + 1, hi)
    ensures Permuted(r, u, lo, hi)
  {
    PermutedWider(s, t, lo, hi, lo, q);
    PermutedWider(t, u, lo, hi, q + 1, hi);
    PermutedTrans(r, s, t, lo, hi);
    PermutedTrans(r, t, u, lo, hi);
  }

  lemma Assemble(s: seq<Attr>, t: seq<Attr>, u: seq<Attr>, lo: nat, q: nat, hi: nat, p: Attr, kd: Kind, idx: nat)
    requires lo <= q < hi < |s| && AllOfKind(u, kd, idx) && OfKind(p, kd, idx) && Separates(s, lo, q, hi, p, idx)
    requires Permuted(s, t, lo, q) && SortedRange(t, lo, q, idx)
    requires Permuted(t, u, q + 1, hi) && SortedRange(u, q + 1, hi, idx)
    ensures SortedRange(u, lo, hi, idx)
  {
    BoundsKept(s, t, lo, q, p, idx);
    BoundsKept(t, u, q + 1, hi, p, idx);
    Joined(u, lo, q, hi, p, kd, idx);
  }

  // ---------- what sorted means for texts and numbers ----------

  ghost predicate Texts(s: seq<Attr>) {
    forall i :: 0 <= i < |s| ==> s[i].Str?
  }

  /** No text comes before an earlier one in the order of a dictionary. */
  ghost predicate TextsUp(s: seq<Attr>) {
    Texts(s) && forall i, j :: 0 <= i < j < |s| ==> !Precedes(s[j].s, s[i].s)
  }

  function NumberIn(x: Attr): int
    requires x.Int? || x.UInt?
  {
    if x.Int? then x.i else x.u
  }

  /** All signed, all unsigned, or any integers from 0 to 2^63 - 1. */
  ghost predicate Integers(s: seq<Attr>) {
    || (forall i :: 0 <= i < |s| ==> s[i].Int?)
    || (forall i :: 0 <= i < |s| ==> s[i].UInt?)
    || (forall i :: 0 <= i < |s| ==> (s[i].Int? || s[i].UInt?) && 0 <= NumberIn(s[i]) < 0x8000_0000_0000_0000)
  }

  ghost predicate NumbersUp(s: seq<Attr>) {
    && (forall i :: 0 <= i < |s| ==> s[i].Int? || s[i].UInt?)
    && (forall i, j :: 0 <= i < j < |s| ==> NumberIn(s[i]) <= NumberIn(s[j]))
  }

  ghost predicate HasColumn(s: seq<Attr>, idx: nat) {
    forall i :: 0 <= i < |s| ==> s[i].List? && idx < |s[i].items|
  }

  ghost function Column(s: seq<Attr>, idx: nat): (c: seq<Attr>)
    requires HasColumn(s, idx)
    ensures |c| == |s| && forall i :: 0 <= i < |s| ==> c[i] == s[i].items[idx]
  {
    seq(|s|, i requires 0 <= i < |s| => s[i].items[idx])
  }

  /** The values the items are compared by: the items themselves, or a column of them. */
  ghost predicate ComparedBy(s: seq<Attr>, idx: nat, c: seq<Attr>) {
    |c| == |s| && forall i :: 0 <= i < |s| ==> Key(s[i], idx) == c[i]
  }

  lemma ByItems(s: seq<Attr>, idx: nat)
    requires Texts(s) || Integers(s)
    ensures ComparedBy(s, idx, s)
  {
  }

  lemma ByColumn(s: seq<Attr>, idx: nat)
    requires HasColumn(s, idx)
    ensures ComparedBy(s, idx, Column(s, idx))
  {
  }

  lemma KindOfKeys(s: seq<Attr>, idx: nat, c: seq<Attr>)
    requires ComparedBy(s, idx, c) && (Texts(c) || Integers(c))
    ensures Comparable(s, idx)
  {
    var kd := if Texts(c) then Text else if forall i :: 0 <= i < |c| ==> c[i].Int? then Signed
              else if forall i :: 0 <= i < |c| ==> c[i].UInt? then Unsigned else Number;
    forall k | 0 <= k < |s| ensures OfKind(s[k], kd, idx) {
      assert Key(s[k], idx) == c[k];
    }
    assert AllOfKind(s, kd, idx);
  }

  /** Sorted texts are in the order of a dictionary. */
  lemma SortedTexts(s: seq<Attr>, idx: nat, c: seq<Attr>)
    requires ComparedBy(s, idx, c) && Texts(c) && SortedRange(s, 0, |s| - 1, idx)
    ensures TextsUp(c)
  {
    forall i, j | 0 <= i < j < |c| ensures !Precedes(c[j].s, c[i].s) {
      assert Le(s[i], s[j], idx);
      TextLessIs(c[j].s, c[i].s);
    }
  }

  /** Sorted integers do not descend. */
  lemma SortedNumbers(s: seq<Attr>, idx: nat, c: seq<Attr>)
    requires ComparedBy(s, idx, c) && Integers(c) && SortedRange(s, 0, |s| - 1, idx)
    ensures NumbersUp(c)
  {
    forall i, j | 0 <= i < j < |c| ensures NumberIn(c[i]) <= NumberIn(c[j]) {
      assert Le(s[i], s[j], idx);
    }
  }

  lemma SameMembers(s: seq<Attr>, t: seq<Attr>, k: nat)
    requires multiset(s) == multiset(t) && k < |t|
    ensures t[k] in s
  {
    assert t[k] in multiset(t);
  }

  lemma KindsKept(s: seq<Attr>, t: seq<Attr>, idx: nat)
    requires multiset(s) == multiset(t)
    ensures Texts(s) ==> Texts(t)
    ensures Integers(s) ==> Integers(t)
    ensures HasColumn(s, idx) ==>
              HasColumn(t, idx) && (Texts(Column(s, idx)) ==> Texts(Column(t, idx)))
    ensures HasColumn(s, idx) ==>
              HasColumn(t, idx) && (Integers(Column(s, idx)) ==> Integers(Column(t, idx)))
  {
    forall k | 0 <= k < |t| ensures t[k] in s {
      SameMembers(s, t, k);
    }
    if HasColumn(s, idx) {
      forall k | 0 <= k < |t| ensures Column(t, idx)[k] in Column(s, idx) {
        var i :| 0 <= i < |s| && s[i] == t[k];
        assert Column(s, idx)[i] == Column(t, idx)[k];
      }
    }
  }

  /** `sort` on texts and on integers, by themselves or by a column. */
  method Sort(a: array<Attr>, idx: nat)
    requires Readable(a[..], idx)
    modifies a
    ensures multiset(a[..]) == multiset(old(a[..]))
    ensures Comparable(old(a[..]), idx) ==> SortedRange(a[..], 0, a.Length - 1, idx)
    ensures Texts(old(a[..])) ==> TextsUp(a[..])
    ensures Integers(old(a[..])) ==> NumbersUp(a[..])
    ensures HasColumn(old(a[..]), idx) ==> HasColumn(a[..], idx)
    ensures HasColumn(old(a[..]), idx) && Texts(Column(old(a[..]), idx)) ==> TextsUp(Column(a[..], idx))
    ensures HasColumn(old(a[..]), idx) && Integers(Column(old(a[..]), idx)) ==> NumbersUp(Column(a[..], idx))
  {
    ghost var s := a[..];
    SortKeys(a, idx);
    KindsKept(s, a[..], idx);
    SortedItems(s, a[..], idx);
    SortedColumn(s, a[..], idx);
  }

  lemma SortedItems(s: seq<Attr>, t: seq<Attr>, idx: nat)
    requires Comparable(s, idx) ==> SortedRange(t, 0, |t| - 1, idx)
    requires Texts(s) ==> Texts(t)
    requires Integers(s) ==> Integers(t)
    ensures Texts(s) ==> TextsUp(t)
    ensures Integers(s) ==> NumbersUp(t)
  {
    if Texts(s) {
      ByItems(s, idx);
      ByItems(t, idx);
      KindOfKeys(s, idx, s);
      SortedTexts(t, idx, t);
    }
    if Integers(s) {
      ByItems(s, idx);
      ByItems(t, idx);
      KindOfKeys(s, idx, s);
      SortedNumbers(t, idx, t);
    }
  }

  lemma SortedColumn(s: seq<Attr>, t: seq<Attr>, idx: nat)
    requires Comparable(s, idx) ==> SortedRange(t, 0, |t| - 1, idx)
    requires HasColumn(s, idx) ==> HasColumn(t, idx) && (Texts(Column(s, idx)) ==> Texts(Column(t, idx)))
    requires HasColumn(s, idx) ==> HasColumn(t, idx) && (Integers(Column(s, idx)) ==> Integers(Column(t, idx)))
    ensures HasColumn(s, idx) && Texts(Column(s, idx)) ==> TextsUp(Column(t, idx))
    ensures HasColumn(s, idx) && Integers(Column(s, idx)) ==> NumbersUp(Column(t, idx))
  {
    if HasColumn(s, idx) {
      var c, d := Column(s, idx), Column(t, idx);
      ByColumn(s, idx);
      ByColumn(t, idx);
      if Texts(c) {
        KindOfKeys(s, idx, c);
        SortedTexts(t, idx, d);
      }
      if Integers(c) {
        KindOfKeys(s, idx, c);
        SortedNumbers(t, idx, d);
      }
    }
  }

  /** A permutation of any list that can be read, and a sorted one if the items compare consistently. */
  method SortKeys(a: array<Attr>, idx: nat)
    modifies a
    ensures multiset(a[..]) == multiset(old(a[..]))
    ensures Comparable(old(a[..]), idx) ==> SortedRange(a[..], 0, a.Length - 1, idx)
  {
    ghost var s := a[..];
    ghost var kd: Kind := Text;
    if Comparable(s, idx) {
      kd :| AllOfKind(s, kd, idx);
    }
    Quicksort(a, 0, a.Length - 1, idx, kd);
    assert s[0..a.Length] == s && a[..][0..a.Length] == a[..];
  }
}
