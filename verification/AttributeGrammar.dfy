/** The grammar of attribute texts, declared on the places of a text, and that every text it derives is read as the
    value it derives: all spellings of numbers, quotes and constants, and white space between all tokens. */
module AttributeGrammar {
  import Bits
  import opened AttributeTree
  import opened AttributeParser
  import opened AttributeRoundTrip

  // ---------- numbers in any base ----------

  /** The digits of a number, highest first and without leading zeros; digits above nine start at `ten`. */
  function Spell(n: nat, base: nat, ten: char): string
    requires 2 <= base <= 16 && (ten == 'a' || ten == 'A')
  {
    if n < base then [Digit(n, ten)] else Spell(n / base, base, ten) + [Digit(n % base, ten)]
  }

  /** A decimal number as people write it. */
  function Dec(n: nat): string {
    Spell(n, 10, 'a')
  }

  predicate DigitsOf(s: string, base: nat) {
    forall k :: 0 <= k < |s| ==> IsHex(s[k]) && DigitValue(s[k]) < base
  }

  lemma {:induction false} MoreDigits(s: string, c: char, base: nat, acc: nat, v: nat, w: nat)
    requires DigitsOf(s, base) && IsHex(c) && DigitValue(c) < base && AllHex(s) && v == Digits(s, base, acc)
    requires w == base * v + DigitValue(c)
    ensures AllHex(s + [c]) && Digits(s + [c], base, acc) == w
    decreases |s|
  {
    if s == [] {
      assert s + [c] == [c];
      assert [c][1..] == [];
    } else {
      TailDigits(s, c, base);
      var a := BothStep(s, c, base, acc);
      MoreDigits(s[1..], c, base, a, v, w);
    }
  }

  lemma BothStep(s: string, c: char, base: nat, acc: nat) returns (a: nat)
    requires DigitsOf(s, base) && s != [] && IsHex(c) && AllHex(s) && AllHex(s[1..]) && AllHex(s[1..] + [c])
    requires AllHex(s + [c])
    ensures Digits(s, base, acc) == Digits(s[1..], base, a)
    ensures Digits(s + [c], base, acc) == Digits(s[1..] + [c], base, a)
  {
    a := base * acc + DigitValue(s[0]);
    TailDigits(s, c, base);
    DigitsStep(s, s[1..], base, acc, a);
    DigitsStep(s + [c], s[1..] + [c], base, acc, a);
  }

  lemma TailDigits(s: string, c: char, base: nat)
    requires DigitsOf(s, base) && s != [] && IsHex(c)
    ensures DigitsOf(s[1..], base) && AllHex(s[1..]) && AllHex(s + [c]) && DigitValue(s[0]) < base
    ensures (s + [c])[1..] == s[1..] + [c] && (s + [c])[0] == s[0]
  {
  }

  lemma DigitsStep(s: string, t: string, base: nat, acc: nat, a: nat)
    requires s != [] && AllHex(s) && DigitValue(s[0]) < base && a == base * acc + DigitValue(s[0]) && t == s[1..]
    ensures Digits(s, base, acc) == Digits(t, base, a)
  {
  }

  lemma {:induction false} SpellBack(n: nat, base: nat, ten: char)
    requires 2 <= base <= 16 && (ten == 'a' || ten == 'A')
    ensures DigitsOf(Spell(n, base, ten), base) && AllHex(Spell(n, base, ten)) && Spell(n, base, ten) != ""
    ensures Digits(Spell(n, base, ten), base, 0) == n
    decreases n
  {
    if n < base {
      DigitRoundTrip(n, ten);
      assert Spell(n, base, ten)[1..] == [];
    } else {
      var q, r := n / base, n % base;
      Bits.DivModDef(n, base);
      SmallerQuotient(n, base);
      SpellBack(q, base, ten);
      DigitRoundTrip(r, ten);
      OneMoreDigit(n, q, r, Spell(q, base, ten), Digit(r, ten), base);
    }
  }

  lemma OneMoreDigit(n: nat, q: nat, r: nat, s: string, c: char, base: nat)
    requires n == q * base + r && r < base && DigitsOf(s, base) && AllHex(s) && Digits(s, base, 0) == q
    requires IsHex(c) && DigitValue(c) == r
    ensures DigitsOf(s + [c], base) && AllHex(s + [c]) && Digits(s + [c], base, 0) == n
  {
    assert base * q == q * base;
    MoreDigits(s, c, base, 0, q, n);
  }

  lemma SmallerQuotient(n: nat, base: nat)
    requires 2 <= base <= n
    ensures 0 < n / base < n
  {
    Bits.DivLess(n, base, n);
    Bits.DivLess(n, base, 1);
    Bits.MulMono(2, base, n);
    assert n * base == base * n;
  }

  /** Only zero starts with a zero. */
  lemma {:induction false} FirstDigit(n: nat, base: nat, ten: char)
    requires 2 <= base <= 16 && (ten == 'a' || ten == 'A')
    ensures Spell(n, base, ten) != "" && (Spell(n, base, ten)[0] == '0' <==> n == 0)
    decreases n
  {
    if n < base {
      DigitRoundTrip(n, ten);
      assert Digit(n, ten) == '0' <==> n == 0;
    } else {
      SmallerQuotient(n, base);
      FirstDigit(n / base, base, ten);
    }
  }

  function Pow8(k: nat): nat {
    if k == 0 then 1 else 8 * Pow8(k - 1)
  }

  lemma {:induction false} SpellLength(n: nat, base: nat, ten: char, k: nat)
    requires 8 <= base <= 16 && (ten == 'a' || ten == 'A') && 0 < k && n < Pow8(k)
    ensures |Spell(n, base, ten)| <= k
    decreases k
  {
    if n >= base {
      assert k > 1;
      Bits.DivLess(n, base, Pow8(k - 1));
      Bits.MulMono(8, base, Pow8(k - 1));
      assert Pow8(k - 1) * base == base * Pow8(k - 1);
      SpellLength(n / base, base, ten, k - 1);
    }
  }

  lemma WordLength(n: nat, base: nat, ten: char)
    requires 8 <= base <= 16 && (ten == 'a' || ten == 'A') && n < 0x1_0000_0000_0000_0000
    ensures |Spell(n, base, ten)| <= 22
  {
    assert Pow8(7) == 0x20_0000;
    assert Pow8(14) == 0x400_0000_0000;
    assert Pow8(22) == 0x4_0000_0000_0000_0000;
    SpellLength(n, base, ten, 22);
  }

  // ---------- the grammar ----------

  /** A derivation: every node covers the places from `from` up to `to`. */
  datatype Node =
    | NilAt(from: nat, to: nat)
    | BoolAt(from: nat, to: nat, b: bool)
    | StringAt(from: nat, to: nat, s: string)
    | NumberAt(from: nat, to: nat, n: nat, base: nat, negative: bool, ten: char)
    | DataAt(from: nat, to: nat, bytes: seq<ByteNode>)
    | ListAt(from: nat, to: nat, items: seq<Node>)
    | DictAt(from: nat, to: nat, entries: seq<EntryNode>)

  datatype ByteNode = ByteNode(from: nat, to: nat, b: nat, prefix: bool, high: char, low: char)

  datatype EntryNode = EntryNode(from: nat, close: nat, colon: nat, key: string, value: Node)

  /** White space, possibly none. */
  ghost predicate Gap(cfg: string, a: nat, b: nat) {
    a <= b <= |cfg| && forall k :: a <= k < b ==> cfg[k] == ' ' || cfg[k] == '\t' || cfg[k] == '\r' || cfg[k] == '\n'
  }

  /** A comma in white space. */
  ghost predicate CommaBetween(cfg: string, a: nat, b: nat) {
    exists c: nat :: CommaAt(cfg, a, c, b)
  }

  ghost predicate CommaAt(cfg: string, a: nat, c: nat, b: nat) {
    c < |cfg| && cfg[c] == ',' && Gap(cfg, a, c) && Gap(cfg, c + 1, b)
  }

  /** A number of at most 63 digits: decimal, octal behind `0` or hexadecimal behind `0x`, and a sign in front of
      the first two. */
  function NumberText(d: Node): string
    requires d.NumberAt? && (d.base == 8 || d.base == 10 || d.base == 16) && (d.ten == 'a' || d.ten == 'A')
  {
    (if d.negative then "-" else "")
    + ((if d.base == 8 then "0" else if d.base == 16 then "0x" else "") + Spell(d.n, d.base, d.ten))
  }

  predicate NumberEnd(cfg: string, to: nat) {
    Ended(cfg, to) && CharAt(cfg, to) != 'x'
  }

  predicate SpelledNumber(cfg: string, d: Node) {
    && d.NumberAt? && (d.base == 8 || d.base == 10 || d.base == 16) && (d.ten == 'a' || d.ten == 'A')
    && (d.base == 16 ==> !d.negative)
    && Word(cfg, d.from, NumberText(d)) && d.to == d.from + |NumberText(d)| && NumberEnd(cfg, d.to)
    && |NumberText(d)| <= 63
  }

  predicate SpelledString(cfg: string, from: nat, to: nat, s: string) {
    && from + |s| + 2 == to <= |cfg| && |s| < 1024
    && (cfg[from] == '"' || cfg[from] == '\'') && cfg[to - 1] == cfg[from] && cfg[from + 1..to - 1] == s
    && (forall k :: 0 <= k < |s| ==> s[k] != cfg[from] && s[k] != '\0')
  }

  predicate SpelledByte(cfg: string, d: ByteNode) {
    && d.b < 256 && IsHex(d.high) && IsHex(d.low) && d.b == 16 * DigitValue(d.high) + DigitValue(d.low)
    && Word(cfg, d.from, (if d.prefix then "0x" else "") + [d.high, d.low])
    && d.to == d.from + if d.prefix then 4 else 2
  }

  /** The value a derivation stands for. */
  function Value(d: Node): Attr
    decreases d, 1
  {
    match d
    case NilAt(_, _) => Nil
    case BoolAt(_, _, b) => Bool(b)
    case StringAt(_, _, s) => Str(s)
    case NumberAt(_, _, n, _, negative, _) =>
      var m := if n < 0x1_0000_0000_0000_0000 then n else 0xFFFF_FFFF_FFFF_FFFF;
      Int(Bits.ToInt64(Bits.Wrap64(if negative then 0 - m else m)))
    case DataAt(_, _, bytes) => Data(seq(|bytes|, k requires 0 <= k < |bytes| => bytes[k].b))
    case ListAt(_, _, items) => List(Values(d, 0))
    case DictAt(_, _, entries) => Dict(Pairs(d, 0))
  }

  function Values(d: Node, k: nat): seq<Attr>
    requires d.ListAt? && k <= |d.items|
    decreases d, 0, |d.items| - k
  {
    if k == |d.items| then [] else [Value(d.items[k])] + Values(d, k + 1)
  }

  function Pairs(d: Node, k: nat): seq<Pair>
    requires d.DictAt? && k <= |d.entries|
    decreases d, 0, |d.entries| - k
  {
    if k == |d.entries| then [] else [Pair(d.entries[k].key, Value(d.entries[k].value))] + Pairs(d, k + 1)
  }

  /** The text carries the derivation: brackets, commas and colons at their places, white space anywhere between
      them, and a comma allowed behind the last component. */
  ghost predicate Spelled(cfg: string, d: Node)
    decreases d
  {
    && d.from < d.to <= |cfg|
    && match d
       case NilAt(from, to) => Word(cfg, from, "None") && to == from + 4
       case BoolAt(from, to, b) =>
         if b then (Word(cfg, from, "true") || Word(cfg, from, "True")) && to == from + 4
         else (Word(cfg, from, "false") || Word(cfg, from, "False")) && to == from + 5
       case StringAt(from, to, s) => SpelledString(cfg, from, to, s)
       case NumberAt(_, _, _, _, _, _) => SpelledNumber(cfg, d)
       case DataAt(_, _, _) => SpelledData(cfg, d)
       case ListAt(_, _, items) =>
         ListShape(cfg, d) && forall k {:trigger Spelled(cfg, items[k])} :: 0 <= k < |items| ==> Spelled(cfg, items[k])
       case DictAt(_, _, entries) =>
         && DictShape(cfg, d)
         && forall k {:trigger Spelled(cfg, entries[k].value)} :: 0 <= k < |entries| ==> Spelled(cfg, entries[k].value)
  }

  /** The children of a list or dictionary carry their derivations. */
  ghost predicate ItemsSpelled(cfg: string, d: Node)
    requires d.ListAt?
  {
    forall k {:trigger Spelled(cfg, d.items[k])} :: 0 <= k < |d.items| ==> Spelled(cfg, d.items[k])
  }

  ghost predicate ValuesSpelled(cfg: string, d: Node)
    requires d.DictAt?
  {
    forall k {:trigger Spelled(cfg, d.entries[k].value)} :: 0 <= k < |d.entries| ==> Spelled(cfg, d.entries[k].value)
  }

  /** Where component k starts; the closing bracket stands behind the last one. */
  function ByteStart(d: Node, k: nat): nat
    requires d.DataAt? && d.to > 0
  {
    if k < |d.bytes| then d.bytes[k].from else d.to - 1
  }

  function ItemStart(d: Node, k: nat): nat
    requires d.ListAt? && d.to > 0
  {
    if k < |d.items| then d.items[k].from else d.to - 1
  }

  function EntryStart(d: Node, k: nat): nat
    requires d.DictAt? && d.to > 0
  {
    if k < |d.entries| then d.entries[k].from else d.to - 1
  }

  ghost predicate SpelledData(cfg: string, d: Node) {
    && d.DataAt? && d.from < d.to <= |cfg| && cfg[d.from] == '(' && cfg[d.to - 1] == ')'
    && Gap(cfg, d.from + 1, ByteStart(d, 0)) && forall k :: 0 <= k < |d.bytes| ==> ByteFits(cfg, d, k)
  }

  ghost predicate ByteFits(cfg: string, d: Node, k: nat)
    requires d.DataAt? && d.to > 0 && k < |d.bytes|
  {
    SpelledByte(cfg, d.bytes[k]) && Between(cfg, d.bytes[k].to, k + 1 < |d.bytes|, ByteStart(d, k + 1))
  }

  ghost predicate ListShape(cfg: string, d: Node) {
    && d.ListAt? && d.from < d.to <= |cfg| && cfg[d.from] == '[' && cfg[d.to - 1] == ']'
    && Gap(cfg, d.from + 1, ItemStart(d, 0)) && forall k :: 0 <= k < |d.items| ==> ItemFits(cfg, d, k)
  }

  ghost predicate ItemFits(cfg: string, d: Node, k: nat)
    requires d.ListAt? && d.to > 0 && k < |d.items|
  {
    Between(cfg, d.items[k].to, k + 1 < |d.items|, ItemStart(d, k + 1))
  }

  ghost predicate DictShape(cfg: string, d: Node) {
    && d.DictAt? && d.from < d.to <= |cfg| && cfg[d.from] == '{' && cfg[d.to - 1] == '}'
    && Gap(cfg, d.from + 1, EntryStart(d, 0)) && (forall k :: 0 <= k < |d.entries| ==> EntryFits(cfg, d, k))
    && (forall j, k :: 0 <= j < k < |d.entries| ==> KeysDiffer(d, j, k)) && NoService(Pairs(d, 0))
  }

  ghost predicate EntryFits(cfg: string, d: Node, k: nat)
    requires d.DictAt? && d.to > 0 && k < |d.entries|
  {
    && SpelledEntry(cfg, d.entries[k])
    && Between(cfg, d.entries[k].value.to, k + 1 < |d.entries|, EntryStart(d, k + 1))
  }

  predicate KeysDiffer(d: Node, j: nat, k: nat)
    requires d.DictAt? && j < k < |d.entries|
  {
    d.entries[j].key != d.entries[k].key
  }

  /** A comma before another component; before the closing bracket it may be missing. */
  ghost predicate Between(cfg: string, a: nat, more: bool, b: nat) {
    if more then CommaBetween(cfg, a, b) else Closes(cfg, a, b)
  }

  /** The end of the components. */
  ghost predicate Closes(cfg: string, a: nat, b: nat) {
    Gap(cfg, a, b) || CommaBetween(cfg, a, b)
  }

  /** A quoted key, a colon in white space, and a value. */
  ghost predicate SpelledEntry(cfg: string, e: EntryNode) {
    && e.colon < |cfg| && cfg[e.colon] == ':'
    && SpelledString(cfg, e.from, e.close, e.key)
    && Gap(cfg, e.close, e.colon) && Gap(cfg, e.colon + 1, e.value.from)
  }

  // ---------- white space ----------

  lemma {:induction false} GapSkips(cfg: string, a: nat, b: nat)
    requires Gap(cfg, a, b)
    ensures Skip(cfg, a) == Skip(cfg, b)
    decreases b - a
  {
    if a < b {
      GapSkips(cfg, a + 1, b);
    }
  }

  /** White space in front of a token is skipped up to it. */
  lemma GapTo(cfg: string, a: nat, b: nat)
    requires Gap(cfg, a, b) && !IsSpace(CharAt(cfg, b))
    ensures Skip(cfg, a) == b
  {
    GapSkips(cfg, a, b);
  }

  /** The comma is passed, with the white space around it. */
  lemma CommaTo(cfg: string, a: nat, b: nat)
    requires CommaBetween(cfg, a, b) && !IsSpace(CharAt(cfg, b))
    ensures NextPart(cfg, Skip(cfg, a)) == b && CharAt(cfg, Skip(cfg, a)) == ',' && Skip(cfg, Skip(cfg, a) + 1) == b
  {
    var c: nat :| CommaAt(cfg, a, c, b);
    GapTo(cfg, a, c);
    GapTo(cfg, c + 1, b);
  }

  lemma ClosesTo(cfg: string, a: nat, b: nat)
    requires Closes(cfg, a, b) && b < |cfg| && !IsSpace(cfg[b]) && cfg[b] != ','
    ensures NextPart(cfg, Skip(cfg, a)) == b
  {
    if Gap(cfg, a, b) {
      GapTo(cfg, a, b);
    } else {
      CommaTo(cfg, a, b);
    }
  }

  // ---------- tokens ----------

  lemma {:induction false} QuoteFound(cfg: string, off: nat, end: nat, quote: char)
    requires off <= end < |cfg| && cfg[end] == quote
    requires forall k :: off <= k < end ==> cfg[k] != quote && cfg[k] != '\0'
    ensures StringEnd(cfg, off, quote) == end
    decreases end - off
  {
    if off < end {
      QuoteFound(cfg, off + 1, end, quote);
    }
  }

  lemma StringRead(cfg: string, from: nat, to: nat, s: string)
    requires SpelledString(cfg, from, to, s)
    ensures from < to <= |cfg| && Parse(cfg, from) == Parsed(Str(s), Skip(cfg, to))
  {
    QuotedEnd(cfg, from, to, s);
    ParseIsString(cfg, from, from);
  }

  lemma QuotedEnd(cfg: string, from: nat, to: nat, s: string)
    requires SpelledString(cfg, from, to, s)
    ensures Skip(cfg, from) == from && StringEnd(cfg, from + 1, cfg[from]) == to - 1
  {
    forall k | from + 1 <= k < to - 1 ensures cfg[k] != cfg[from] && cfg[k] != '\0' {
      assert s[k - (from + 1)] == cfg[k];
    }
    QuoteFound(cfg, from + 1, to - 1, cfg[from]);
  }

  /** A run of digits is collected to its end. */
  lemma RunRead(cfg: string, off: nat, digits: string, limit: nat)
    requires off <= |cfg| && AllHex(digits) && Word(cfg, off, digits) && |digits| <= limit
    requires !IsHex(CharAt(cfg, off + |digits|))
    ensures DigitsEnd(cfg, off, limit) == off + |digits| && cfg[off..off + |digits|] == digits
  {
    forall k | off <= k < off + |digits| ensures IsHex(cfg[k]) {
      assert cfg[off + (k - off)] == digits[k - off];
    }
    DigitsEndIs(cfg, off, off + |digits|, limit);
  }

  function Saturated(n: nat): nat {
    if n < 0x1_0000_0000_0000_0000 then n else 0xFFFF_FFFF_FFFF_FFFF
  }

  lemma DecimalValue(n: nat, ten: char)
    requires ten == 'a' || ten == 'A'
    ensures AllHex(Spell(n, 10, ten)) && StrToULL(false, Spell(n, 10, ten)) == Saturated(n)
  {
    SpellBack(n, 10, ten);
    FirstDigit(n, 10, ten);
    if n == 0 {
      LeadingZero("", 8);
      assert Spell(n, 10, ten) == "0" + "";
    }
  }

  lemma OctalValue(n: nat, ten: char)
    requires ten == 'a' || ten == 'A'
    ensures AllHex("0" + Spell(n, 8, ten)) && StrToULL(false, "0" + Spell(n, 8, ten)) == Saturated(n)
  {
    var t := Spell(n, 8, ten);
    SpellBack(n, 8, ten);
    LeadingZero(t, 8);
  }

  lemma LeadingZero(t: string, base: nat)
    requires AllHex(t) && base > 0
    ensures AllHex("0" + t) && Digits("0" + t, base, 0) == Digits(t, base, 0)
  {
    var s := "0" + t;
    assert s[1..] == t && s[0] == '0';
    assert base * 0 + DigitValue(s[0]) == 0;
  }

  lemma HexadecimalValue(n: nat, ten: char)
    requires ten == 'a' || ten == 'A'
    ensures AllHex(Spell(n, 16, ten)) && StrToULL(true, Spell(n, 16, ten)) == Saturated(n)
  {
    SpellBack(n, 16, ten);
  }

  lemma SignedValue(m: nat, negative: bool)
    requires m < 0x1_0000_0000_0000_0000
    ensures (if negative then Negated(Bits.ToInt64(m)) else Bits.ToInt64(m))
         == Bits.ToInt64(Bits.Wrap64(if negative then 0 - m else m))
  {
  }

  lemma DigitRun(cfg: string, off: nat, digits: string, used: nat, negative: bool, i: int)
    requires off <= |cfg| && AllHex(digits) && Word(cfg, off, digits) && |digits| + used <= 63
    requires Ended(cfg, off + |digits|) && NumberValue(used == 2, negative, digits) == i
    ensures ParseDigits(cfg, off, used, negative) == Parsed(Int(i), Skip(cfg, off + |digits|))
  {
    RunRead(cfg, off, digits, 63 - used);
  }

  /** The number that a derivation stands for, from its digits. */
  lemma NumberIs(d: Node, hex: bool, digits: string)
    requires d.NumberAt? && AllHex(digits) && StrToULL(hex, digits) == Saturated(d.n)
    ensures Value(d) == Int(NumberValue(hex, d.negative, digits))
  {
    SignedValue(Saturated(d.n), d.negative);
  }

  lemma FirstOfNumber(cfg: string, off: nat)
    requires off < |cfg| && ('0' <= cfg[off] <= '9' || cfg[off] == '-')
    ensures Parse(cfg, off) == var r := ParseNumber(cfg, off); if r.Parsed? && r.off == off then Failed else r
  {
    assert Skip(cfg, off) == off;
    ParseIsWord(cfg, off, off);
    NoConstant(cfg, off);
  }

  lemma NoConstant(cfg: string, off: nat)
    requires off < |cfg| && ('0' <= cfg[off] <= '9' || cfg[off] == '-')
    ensures ParseWord(cfg, off) == var r := ParseNumber(cfg, off); if r.Parsed? && r.off == off then Failed else r
  {
    assert cfg[off + 0] != "None"[0] && cfg[off + 0] != "false"[0] && cfg[off + 0] != "False"[0];
    assert cfg[off + 0] != "true"[0] && cfg[off + 0] != "True"[0];
  }

  lemma {:induction false} DecimalDigit(n: nat, base: nat, ten: char)
    requires 2 <= base <= 10 && (ten == 'a' || ten == 'A')
    ensures Spell(n, base, ten) != "" && '0' <= Spell(n, base, ten)[0] <= '9'
    decreases n
  {
    if n >= base {
      SmallerQuotient(n, base);
      DecimalDigit(n / base, base, ten);
    }
  }

  lemma NumberRead(cfg: string, d: Node)
    requires SpelledNumber(cfg, d)
    ensures d.from < d.to <= |cfg| && Parse(cfg, d.from) == Parsed(Value(d), Skip(cfg, d.to))
    ensures !IsSpace(CharAt(cfg, d.from))
  {
    if d.base == 16 {
      var digits, i := PrefixAndDigits(d);
      HexadecimalRead(cfg, d.from, d.to, "0x" + digits, digits, i);
    } else {
      var sign, run, i := SignAndDigits(d);
      SignedRun(cfg, d.from, d.to, sign + run, sign, run, d.negative, i);
    }
  }

  lemma PrefixAndDigits(d: Node) returns (digits: string, i: int)
    requires d.NumberAt? && d.base == 16 && !d.negative && (d.ten == 'a' || d.ten == 'A')
    ensures NumberText(d) == "0x" + digits && digits != "" && AllHex(digits) && NumberValue(true, false, digits) == i
    ensures Value(d) == Int(i)
  {
    digits := Spell(d.n, d.base, d.ten);
    assert "" + ("0x" + digits) == "0x" + digits;
    SpellBack(d.n, d.base, d.ten);
    HexadecimalValue(d.n, d.ten);
    NumberIs(d, true, digits);
    i := NumberValue(true, false, digits);
  }

  lemma HexadecimalRead(cfg: string, from: nat, to: nat, text: string, digits: string, i: int)
    requires text == "0x" + digits && Word(cfg, from, text) && to == from + |text| && |text| <= 63 && Ended(cfg, to)
    requires digits != "" && AllHex(digits) && NumberValue(true, false, digits) == i
    ensures from < to <= |cfg| && !IsSpace(CharAt(cfg, from)) && Parse(cfg, from) == Parsed(Int(i), Skip(cfg, to))
  {
    WordSplit(cfg, from, "0x", digits);
    assert cfg[from + 0] == "0x"[0] && cfg[from + 1] == "0x"[1];
    DigitRun(cfg, from + 2, digits, 2, false, i);
    NumberAsWord(cfg, from, Int(i), Skip(cfg, to));
  }

  lemma NumberAsWord(cfg: string, from: nat, v: Attr, off: nat)
    requires from < |cfg| && ('0' <= cfg[from] <= '9' || cfg[from] == '-')
    requires ParseNumber(cfg, from) == Parsed(v, off) && off > from
    ensures Parse(cfg, from) == Parsed(v, off)
  {
    FirstOfNumber(cfg, from);
  }

  lemma SignAndDigits(d: Node) returns (sign: string, run: string, i: int)
    requires d.NumberAt? && (d.base == 8 || d.base == 10) && (d.ten == 'a' || d.ten == 'A')
    ensures NumberText(d) == sign + run && sign == if d.negative then "-" else ""
    ensures run != "" && AllHex(run) && '0' <= run[0] <= '9' && NumberValue(false, d.negative, run) == i
    ensures Value(d) == Int(i)
  {
    sign := if d.negative then "-" else "";
    run := (if d.base == 8 then "0" else "") + Spell(d.n, d.base, d.ten);
    RunValue(d.n, d.base, d.ten, run);
    NumberIs(d, false, run);
    i := NumberValue(false, d.negative, run);
  }

  lemma SignedRun(cfg: string, from: nat, to: nat, text: string, sign: string, run: string, negative: bool, i: int)
    requires text == sign + run && sign == (if negative then "-" else "")
    requires Word(cfg, from, text) && to == from + |text| && |text| <= 63 && NumberEnd(cfg, to)
    requires run != "" && AllHex(run) && '0' <= run[0] <= '9' && NumberValue(false, negative, run) == i
    ensures from < to <= |cfg| && !IsSpace(CharAt(cfg, from)) && Parse(cfg, from) == Parsed(Int(i), Skip(cfg, to))
  {
    WordSplit(cfg, from, sign, run);
    RunOfDigits(cfg, from, from + |sign|, run, negative, i, to);
  }

  lemma RunOfDigits(cfg: string, from: nat, o: nat, run: string, negative: bool, i: int, to: nat)
    requires from <= |cfg| && o == from + (if negative then 1 else 0) && (negative ==> Word(cfg, from, "-"))
    requires run != "" && AllHex(run) && '0' <= run[0] <= '9' && |run| <= 63 && Word(cfg, o, run)
    requires to == o + |run| && NumberEnd(cfg, to) && NumberValue(false, negative, run) == i
    ensures from < to <= |cfg| && !IsSpace(CharAt(cfg, from)) && Parse(cfg, from) == Parsed(Int(i), Skip(cfg, to))
  {
    assert cfg[o + 0] == run[0];
    DigitRun(cfg, o, run, 0, negative, i);
    if negative {
      assert cfg[from + 0] == "-"[0];
    } else {
      NoPrefix(cfg, o, run);
    }
    NumberAsWord(cfg, from, Int(i), Skip(cfg, to));
  }

  lemma RunValue(n: nat, base: nat, ten: char, run: string)
    requires (base == 8 || base == 10) && (ten == 'a' || ten == 'A')
    requires run == (if base == 8 then "0" else "") + Spell(n, base, ten)
    ensures AllHex(run) && StrToULL(false, run) == Saturated(n) && run != "" && '0' <= run[0] <= '9'
  {
    DecimalDigit(n, base, ten);
    if base == 8 {
      OctalValue(n, ten);
    } else {
      assert run == Spell(n, base, ten);
      DecimalValue(n, ten);
    }
  }

  /** A number is not taken for a prefix. */
  lemma NoPrefix(cfg: string, o: nat, run: string)
    requires Word(cfg, o, run) && run != "" && AllHex(run) && NumberEnd(cfg, o + |run|)
    ensures CharAt(cfg, o + 1) != 'x'
  {
    if |run| > 1 {
      assert cfg[o + 1] == run[1];
    }
  }

  // ---------- bytes ----------

  lemma ByteRead(cfg: string, d: ByteNode)
    requires SpelledByte(cfg, d)
    ensures d.from < d.to <= |cfg| && ParseByte(cfg, d.from) == Parsed(d.b, Skip(cfg, d.to))
    ensures IsHex(cfg[d.from])
  {
    if d.prefix {
      PrefixedByte(cfg, d.from, d.high, d.low);
    } else {
      assert "" + [d.high, d.low] == [d.high, d.low];
      TwoDigitsAt(cfg, d.from, d.high, d.low);
    }
  }

  lemma PrefixedByte(cfg: string, from: nat, high: char, low: char)
    requires Word(cfg, from, "0x" + [high, low]) && IsHex(high) && IsHex(low)
    ensures from + 4 <= |cfg| && cfg[from] == '0' && HexPrefix(cfg, from) == from + 2
    ensures ByteAt(cfg, from + 2) == 16 * DigitValue(high) + DigitValue(low)
  {
    WordSplit(cfg, from, "0x", [high, low]);
    assert cfg[from + 0] == "0x"[0] && cfg[from + 1] == "0x"[1];
    TwoDigitsAt(cfg, from + 2, high, low);
  }

  lemma TwoDigitsAt(cfg: string, o: nat, high: char, low: char)
    requires Word(cfg, o, [high, low]) && IsHex(high) && IsHex(low)
    ensures o + 2 <= |cfg| && cfg[o] == high && cfg[o + 1] == low && HexPrefix(cfg, o) == o
    ensures Nibble(Nibble(0, cfg[o]), cfg[o + 1]) == 16 * DigitValue(high) + DigitValue(low)
  {
    assert cfg[o + 0] == [high, low][0] && cfg[o + 1] == [high, low][1];
    HexDigits(high, low);
  }

  lemma HexDigits(hi: char, lo: char)
    requires IsHex(hi) && IsHex(lo)
    ensures Nibble(Nibble(0, hi), lo) == 16 * DigitValue(hi) + DigitValue(lo)
  {
    HexDigit(hi);
    HexDigit(lo);
    ShiftInDigit(0, DigitValue(hi));
    ShiftInDigit(DigitValue(hi), DigitValue(lo));
  }

  lemma HexDigit(c: char)
    requires IsHex(c)
    ensures CharBits(c) == DigitValue(c) < 16
  {
  }

  ghost function BytesFrom(d: Node, k: nat): seq<nat>
    requires d.DataAt? && k <= |d.bytes|
    decreases |d.bytes| - k
  {
    if k == |d.bytes| then [] else [d.bytes[k].b] + BytesFrom(d, k + 1)
  }

  lemma {:induction false} BytesAre(d: Node, k: nat)
    requires d.DataAt? && k <= |d.bytes|
    ensures BytesFrom(d, k) == Value(d).bytes[k..]
    decreases |d.bytes| - k
  {
    if k < |d.bytes| {
      BytesAre(d, k + 1);
    }
  }

  lemma ByteThenComma(cfg: string, from: nat, b: nat, o: nat, acc: seq<nat>)
    requires from < |cfg| && IsHex(cfg[from]) && ParseByte(cfg, from) == Parsed(b, o) && o < |cfg| && cfg[o] == ','
    ensures ParseBytes(cfg, from, acc) == ParseBytes(cfg, Skip(cfg, o + 1), acc + [b])
  {
  }

  lemma ByteThenClose(cfg: string, from: nat, b: nat, o: nat, acc: seq<nat>)
    requires from < |cfg| && IsHex(cfg[from]) && ParseByte(cfg, from) == Parsed(b, o) && o < |cfg| && cfg[o] == ')'
    ensures ParseBytes(cfg, from, acc) == Parsed(acc + [b], Skip(cfg, o + 1))
  {
  }

  /** One byte, up to the next one or the closing bracket. */
  lemma OneByte(cfg: string, from: nat, to: nat, b: nat, next: nat, acc: seq<nat>)
    requires from < to <= |cfg| && IsHex(cfg[from]) && ParseByte(cfg, from) == Parsed(b, Skip(cfg, to))
    requires next < |cfg| && (IsHex(cfg[next]) || cfg[next] == ')')
    requires CommaBetween(cfg, to, next) || (cfg[next] == ')' && Gap(cfg, to, next))
    ensures ParseBytes(cfg, from, acc) == ParseBytes(cfg, next, acc + [b])
  {
    if CommaBetween(cfg, to, next) {
      CommaTo(cfg, to, next);
      ByteThenComma(cfg, from, b, Skip(cfg, to), acc);
    } else {
      GapTo(cfg, to, next);
      ByteThenClose(cfg, from, b, next, acc);
      NoBytes(cfg, next, acc + [b]);
    }
  }

  lemma AfterByte(cfg: string, d: Node, k: nat)
    requires SpelledData(cfg, d) && k < |d.bytes|
    ensures SpelledByte(cfg, d.bytes[k])
    ensures var next := ByteStart(d, k + 1);
            && next < |cfg| && (IsHex(cfg[next]) || cfg[next] == ')')
            && (CommaBetween(cfg, d.bytes[k].to, next) || (cfg[next] == ')' && Gap(cfg, d.bytes[k].to, next)))
  {
    assert ByteFits(cfg, d, k);
    if k + 1 < |d.bytes| {
      assert ByteFits(cfg, d, k + 1);
      ByteRead(cfg, d.bytes[k + 1]);
    }
  }

  /** The bytes from k on are read, and the closing bracket. */
  ghost predicate ReadsBytes(cfg: string, d: Node, k: nat, acc: seq<nat>)
    requires d.DataAt? && k <= |d.bytes| && 0 < d.to <= |cfg|
  {
    && ByteStart(d, k) <= |cfg|
    && ParseBytes(cfg, ByteStart(d, k), acc) == Parsed(acc + BytesFrom(d, k), Skip(cfg, d.to))
  }

  lemma {:induction false} BytesRead(cfg: string, d: Node, k: nat, acc: seq<nat>)
    requires SpelledData(cfg, d) && k <= |d.bytes|
    ensures ReadsBytes(cfg, d, k, acc)
    decreases |d.bytes| - k
  {
    if k == |d.bytes| {
      BytesDone(cfg, d.to, acc);
    } else {
      BytesRead(cfg, d, k + 1, acc + [d.bytes[k].b]);
      ByteBefore(cfg, d, k, acc);
    }
  }

  lemma ByteBefore(cfg: string, d: Node, k: nat, acc: seq<nat>)
    requires SpelledData(cfg, d) && k < |d.bytes| && ReadsBytes(cfg, d, k + 1, acc + [d.bytes[k].b])
    ensures ReadsBytes(cfg, d, k, acc)
  {
    var b, rest := d.bytes[k].b, BytesFrom(d, k + 1);
    ByteOn(cfg, d, k, acc);
    BytesChain(cfg, ByteStart(d, k), ByteStart(d, k + 1), acc, b, rest, Skip(cfg, d.to));
  }

  lemma BytesChain(cfg: string, o: nat, next: nat, acc: seq<nat>, b: nat, rest: seq<nat>, off: nat)
    requires o <= |cfg| && next <= |cfg| && ParseBytes(cfg, o, acc) == ParseBytes(cfg, next, acc + [b])
    requires ParseBytes(cfg, next, acc + [b]) == Parsed(acc + [b] + rest, off)
    ensures ParseBytes(cfg, o, acc) == Parsed(acc + ([b] + rest), off)
  {
    Consed(acc, b, rest);
  }

  lemma BytesDone(cfg: string, to: nat, acc: seq<nat>)
    requires 0 < to <= |cfg| && cfg[to - 1] == ')'
    ensures ParseBytes(cfg, to - 1, acc) == Parsed(acc + [], Skip(cfg, to))
  {
    NoBytes(cfg, to - 1, acc);
    assert acc + [] == acc;
  }

  lemma ByteOn(cfg: string, d: Node, k: nat, acc: seq<nat>)
    requires SpelledData(cfg, d) && k < |d.bytes|
    ensures ByteStart(d, k) <= |cfg| && ByteStart(d, k + 1) <= |cfg|
    ensures ParseBytes(cfg, ByteStart(d, k), acc) == ParseBytes(cfg, ByteStart(d, k + 1), acc + [d.bytes[k].b])
  {
    var b := d.bytes[k];
    AfterByte(cfg, d, k);
    ByteRead(cfg, b);
    OneByte(cfg, b.from, b.to, b.b, ByteStart(d, k + 1), acc);
  }

  lemma DataRead(cfg: string, d: Node)
    requires SpelledData(cfg, d)
    ensures Parse(cfg, d.from) == Parsed(Data(BytesFrom(d, 0)), Skip(cfg, d.to))
  {
    FirstByteAt(cfg, d);
    BytesRead(cfg, d, 0, []);
    DataClosed(cfg, d.from, ByteStart(d, 0), BytesFrom(d, 0), Skip(cfg, d.to));
  }

  lemma FirstByteAt(cfg: string, d: Node)
    requires SpelledData(cfg, d)
    ensures Skip(cfg, d.from + 1) == ByteStart(d, 0)
  {
    if |d.bytes| > 0 {
      assert ByteFits(cfg, d, 0);
      ByteRead(cfg, d.bytes[0]);
    }
    GapTo(cfg, d.from + 1, ByteStart(d, 0));
  }

  lemma DataClosed(cfg: string, from: nat, start: nat, bytes: seq<nat>, off: nat)
    requires from < |cfg| && cfg[from] == '(' && start <= |cfg| && Skip(cfg, from + 1) == start
    requires ParseBytes(cfg, start, []) == Parsed([] + bytes, off)
    ensures Parse(cfg, from) == Parsed(Data(bytes), off)
  {
    assert Skip(cfg, from) == from && [] + bytes == bytes;
    ParseIsData(cfg, from, from);
  }

  // ---------- lists ----------

  predicate Opens(c: char) {
    c == 'N' || c == 't' || c == 'T' || c == 'f' || c == 'F' || c == '"' || c == '\'' || c == '-' || '0' <= c <= '9'
    || c == '(' || c == '[' || c == '{'
  }

  lemma FirstCharacter(cfg: string, d: Node)
    requires Spelled(cfg, d)
    ensures Opens(cfg[d.from])
  {
    match d
    case NilAt(from, _) => assert cfg[from + 0] == "None"[0];
    case BoolAt(from, _, b) => FirstOfConstant(cfg, from, b);
    case NumberAt(_, _, _, _, _, _) => FirstOfSpelled(cfg, d);
    case _ =>
  }

  lemma FirstOfConstant(cfg: string, from: nat, b: bool)
    requires b ==> Word(cfg, from, "true") || Word(cfg, from, "True")
    requires !b ==> Word(cfg, from, "false") || Word(cfg, from, "False")
    ensures from < |cfg| && var c := cfg[from]; c == 't' || c == 'T' || c == 'f' || c == 'F'
  {
    assert Word(cfg, from, "true") ==> cfg[from + 0] == "true"[0];
    assert Word(cfg, from, "True") ==> cfg[from + 0] == "True"[0];
    assert Word(cfg, from, "false") ==> cfg[from + 0] == "false"[0];
    assert Word(cfg, from, "False") ==> cfg[from + 0] == "False"[0];
  }

  lemma FirstOfSpelled(cfg: string, d: Node)
    requires SpelledNumber(cfg, d)
    ensures d.from < |cfg| && Opens(cfg[d.from])
  {
    var t := NumberText(d);
    SpellBack(d.n, d.base, d.ten);
    if d.base != 16 {
      DecimalDigit(d.n, d.base, d.ten);
    }
    assert t != "" && Opens(t[0]);
    assert cfg[d.from + 0] == t[0];
  }

  lemma ConstantRead(cfg: string, d: Node)
    requires (d.NilAt? || d.BoolAt?) && Spelled(cfg, d)
    ensures Parse(cfg, d.from) == Parsed(Value(d), Skip(cfg, d.to))
  {
    Letter(cfg, d);
    ParseIsWord(cfg, d.from, d.from);
    Apart(cfg, d.from);
  }

  lemma Letter(cfg: string, d: Node)
    requires (d.NilAt? || d.BoolAt?) && Spelled(cfg, d)
    ensures var c := cfg[d.from]; c == 'N' || c == 't' || c == 'T' || c == 'f' || c == 'F'
  {
    if d.NilAt? {
      assert cfg[d.from + 0] == "None"[0];
    } else {
      FirstOfConstant(cfg, d.from, d.b);
    }
  }

  /** At most one of the constants stands at a place. */
  lemma Apart(cfg: string, o: nat)
    ensures Word(cfg, o, "None") ==> !Word(cfg, o, "false") && !Word(cfg, o, "False")
    ensures Word(cfg, o, "None") ==> !Word(cfg, o, "true") && !Word(cfg, o, "True")
    ensures Word(cfg, o, "true") || Word(cfg, o, "True") ==> !Word(cfg, o, "false") && !Word(cfg, o, "False")
    ensures Word(cfg, o, "true") || Word(cfg, o, "True") ==> !Word(cfg, o, "None")
    ensures Word(cfg, o, "false") || Word(cfg, o, "False") ==> !Word(cfg, o, "None")
  {
    assert Word(cfg, o, "None") ==> cfg[o + 0] == "None"[0];
    assert Word(cfg, o, "true") ==> cfg[o + 0] == "true"[0];
    assert Word(cfg, o, "True") ==> cfg[o + 0] == "True"[0];
    assert Word(cfg, o, "false") ==> cfg[o + 0] == "false"[0];
    assert Word(cfg, o, "False") ==> cfg[o + 0] == "False"[0];
  }

  lemma {:induction false} Derived(cfg: string, d: Node)
    requires Spelled(cfg, d)
    ensures d.from < d.to <= |cfg| && Parse(cfg, d.from) == Parsed(Value(d), Skip(cfg, d.to))
    decreases d, 1
  {
    ValueCases(d);
    match d
    case StringAt(from, to, s) => StringRead(cfg, from, to, s);
    case NumberAt(_, _, _, _, _, _) => NumberRead(cfg, d);
    case DataAt(_, _, _) => DataRead(cfg, d);
    case ListAt(_, _, _) => ListRead(cfg, d);
    case DictAt(_, _, _) => DictRead(cfg, d);
    case _ => ConstantRead(cfg, d);
  }

  /** Every text that carries a derivation behind some white space is read as its value, up to the next token. */
  lemma DerivedText(cfg: string, off: nat, d: Node)
    requires Spelled(cfg, d) && Gap(cfg, off, d.from)
    ensures d.to <= |cfg| && Parse(cfg, off) == Parsed(Value(d), Skip(cfg, d.to))
  {
    FirstCharacter(cfg, d);
    GapTo(cfg, off, d.from);
    LeadingSpace(cfg, off, d.from);
    Derived(cfg, d);
  }

  lemma ValueCases(d: Node)
    ensures d.ListAt? ==> Value(d) == List(Values(d, 0))
    ensures d.DictAt? ==> Value(d) == Dict(Pairs(d, 0))
    ensures d.DataAt? ==> Value(d) == Data(BytesFrom(d, 0))
  {
    if d.DataAt? {
      BytesAre(d, 0);
    }
  }

  lemma LeadingSpace(cfg: string, off: nat, from: nat)
    requires from <= |cfg| && off <= from && Skip(cfg, off) == from && Skip(cfg, from) == from
    ensures Parse(cfg, off) == Parse(cfg, from)
  {
  }

  lemma FirstItemAt(cfg: string, d: Node)
    requires ListShape(cfg, d) && ItemsSpelled(cfg, d)
    ensures Skip(cfg, d.from + 1) == ItemStart(d, 0)
  {
    StartIsToken(cfg, d, 0);
    GapTo(cfg, d.from + 1, ItemStart(d, 0));
  }

  lemma ItemOpens(cfg: string, d: Node, k: nat)
    requires d.ListAt? && ItemsSpelled(cfg, d) && k < |d.items|
    ensures var x := d.items[k]; Spelled(cfg, x) && x.from < x.to <= |cfg| && Opens(cfg[x.from])
  {
    assert Spelled(cfg, d.items[k]);
    FirstCharacter(cfg, d.items[k]);
  }

  lemma StartIsToken(cfg: string, d: Node, k: nat)
    requires ListShape(cfg, d) && ItemsSpelled(cfg, d) && k <= |d.items|
    ensures var o := ItemStart(d, k); o < |cfg| && !IsSpace(cfg[o]) && cfg[o] != ','
  {
    if k < |d.items| {
      ItemOpens(cfg, d, k);
    }
  }

  lemma AfterItem(cfg: string, d: Node, k: nat)
    requires ListShape(cfg, d) && ItemsSpelled(cfg, d) && k < |d.items| && d.items[k].to <= |cfg|
    ensures NextPart(cfg, Skip(cfg, d.items[k].to)) == ItemStart(d, k + 1)
  {
    assert ItemFits(cfg, d, k);
    StartIsToken(cfg, d, k + 1);
    PastGap(cfg, d.items[k].to, ItemStart(d, k + 1));
  }

  /** From a component to the next token: over a comma, or to the closing bracket. */
  lemma PastGap(cfg: string, a: nat, b: nat)
    requires b < |cfg| && !IsSpace(cfg[b]) && cfg[b] != ',' && Closes(cfg, a, b)
    ensures NextPart(cfg, Skip(cfg, a)) == b
  {
    ClosesTo(cfg, a, b);
  }

  lemma {:induction false} ListRead(cfg: string, d: Node)
    requires ListShape(cfg, d) && ItemsSpelled(cfg, d)
    ensures Parse(cfg, d.from) == Parsed(List(Values(d, 0)), Skip(cfg, d.to))
    decreases d, 0
  {
    FirstItemAt(cfg, d);
    ItemsRead(cfg, d, 0, []);
    ListClosed(cfg, d.from, ItemStart(d, 0), Values(d, 0), Skip(cfg, d.to));
  }

  lemma ListClosed(cfg: string, from: nat, start: nat, values: seq<Attr>, off: nat)
    requires from < |cfg| && cfg[from] == '[' && start <= |cfg| && Skip(cfg, from + 1) == start
    requires ParseItems(cfg, start, []) == Parsed([] + values, off)
    ensures Parse(cfg, from) == Parsed(List(values), off)
  {
    assert Skip(cfg, from) == from && [] + values == values;
    ParseIsList(cfg, from, from);
  }

  /** The items from k on are read, and the closing bracket. */
  lemma {:induction false} ItemsRead(cfg: string, d: Node, k: nat, acc: seq<Attr>)
    requires ListShape(cfg, d) && ItemsSpelled(cfg, d) && k <= |d.items|
    ensures ItemStart(d, k) <= |cfg|
    ensures ParseItems(cfg, ItemStart(d, k), acc) == Parsed(acc + Values(d, k), Skip(cfg, d.to))
    decreases d, 0, |d.items| - k
  {
    if k == |d.items| {
      assert acc + Values(d, k) == acc;
      NoItems(cfg, d.to - 1, acc);
    } else {
      var x := d.items[k];
      ItemOpens(cfg, d, k);
      AfterItem(cfg, d, k);
      Derived(cfg, x);
      OneItem(cfg, x.from, Value(x), x.to, ItemStart(d, k + 1), acc);
      ItemsRead(cfg, d, k + 1, acc + [Value(x)]);
      Consed(acc, Value(x), Values(d, k + 1));
    }
  }

  lemma OneItem(cfg: string, from: nat, v: Attr, to: nat, next: nat, acc: seq<Attr>)
    requires from < |cfg| && Opens(cfg[from]) && to <= |cfg| && Parse(cfg, from) == Parsed(v, Skip(cfg, to))
    requires NextPart(cfg, Skip(cfg, to)) == next
    ensures ParseItems(cfg, from, acc) == ParseItems(cfg, next, acc + [v])
  {
  }

  // ---------- dictionaries ----------

  lemma KeyFirst(cfg: string, d: Node, k: nat)
    requires DictShape(cfg, d) && k < |d.entries|
    ensures d.entries[k].from < |cfg| && (cfg[d.entries[k].from] == '"' || cfg[d.entries[k].from] == '\'')
  {
    assert EntryFits(cfg, d, k);
  }

  lemma FirstEntryAt(cfg: string, d: Node)
    requires DictShape(cfg, d)
    ensures Skip(cfg, d.from + 1) == EntryStart(d, 0)
  {
    if |d.entries| > 0 {
      KeyFirst(cfg, d, 0);
    }
    GapTo(cfg, d.from + 1, EntryStart(d, 0));
  }

  lemma AfterEntry(cfg: string, d: Node, k: nat)
    requires DictShape(cfg, d) && k < |d.entries| && d.entries[k].value.to <= |cfg|
    ensures NextPart(cfg, Skip(cfg, d.entries[k].value.to)) == EntryStart(d, k + 1)
  {
    var next := EntryStart(d, k + 1);
    EntryGap(cfg, d, k, d.entries[k].value.to, next);
    PastGap(cfg, d.entries[k].value.to, next);
  }

  lemma EntryGap(cfg: string, d: Node, k: nat, a: nat, b: nat)
    requires DictShape(cfg, d) && k < |d.entries| && a == d.entries[k].value.to && b == EntryStart(d, k + 1)
    ensures Closes(cfg, a, b) && b < |cfg| && !IsSpace(cfg[b]) && cfg[b] != ','
  {
    assert EntryFits(cfg, d, k);
    if k + 1 < |d.entries| {
      KeyFirst(cfg, d, k + 1);
    }
  }

  lemma {:induction false} DictRead(cfg: string, d: Node)
    requires DictShape(cfg, d) && ValuesSpelled(cfg, d)
    ensures Parse(cfg, d.from) == Parsed(Dict(Pairs(d, 0)), Skip(cfg, d.to))
    decreases d, 0
  {
    FirstEntryAt(cfg, d);
    NoKeys(d);
    EntriesRead(cfg, d, 0, []);
    DictClosed(cfg, d.from, EntryStart(d, 0), Pairs(d, 0), d.to);
  }

  lemma DictClosed(cfg: string, from: nat, start: nat, pairs: seq<Pair>, to: nat)
    requires from < to <= |cfg| && cfg[from] == '{' && cfg[to - 1] == '}' && NoService(pairs)
    requires start <= |cfg| && Skip(cfg, from + 1) == start
    requires ParsePairs(cfg, start, []) == ParsePairs(cfg, to - 1, [] + pairs)
    ensures Parse(cfg, from) == Parsed(Dict(pairs), Skip(cfg, to))
  {
    assert Skip(cfg, from) == from && [] + pairs == pairs;
    ParseIsDict(cfg, from, from);
    NoPairs(cfg, to - 1, pairs);
    NoServiceResolves(pairs, Skip(cfg, to));
  }

  ghost predicate KeysSoFar(acc: seq<Pair>, d: Node, k: nat)
    requires d.DictAt? && k <= |d.entries|
  {
    |acc| == k && forall j :: 0 <= j < k ==> acc[j].key == d.entries[j].key
  }

  lemma NoKeys(d: Node)
    requires d.DictAt?
    ensures KeysSoFar([], d, 0)
  {
  }

  lemma NextKey(cfg: string, d: Node, k: nat, acc: seq<Pair>, p: Pair)
    requires DictShape(cfg, d) && k < |d.entries| && KeysSoFar(acc, d, k) && p.key == d.entries[k].key
    ensures Assign(acc, p.key, p.value) == acc + [p] && KeysSoFar(acc + [p], d, k + 1)
  {
    forall j | 0 <= j < |acc| ensures acc[j].key != p.key {
      assert KeysDiffer(d, j, k);
    }
    AssignNew(acc, p.key, p.value);
  }

  lemma {:induction false} EntriesRead(cfg: string, d: Node, k: nat, acc: seq<Pair>)
    requires DictShape(cfg, d) && ValuesSpelled(cfg, d) && k <= |d.entries| && KeysSoFar(acc, d, k)
    ensures EntryStart(d, k) <= |cfg|
    ensures ParsePairs(cfg, EntryStart(d, k), acc) == ParsePairs(cfg, d.to - 1, acc + Pairs(d, k))
    decreases d, 0, |d.entries| - k
  {
    if k == |d.entries| {
      assert acc + Pairs(d, k) == acc;
    } else {
      var e := d.entries[k];
      var p := Pair(e.key, Value(e.value));
      assert EntryFits(cfg, d, k) && Spelled(cfg, d.entries[k].value);
      EntryDerived(cfg, e);
      EntryPassed(cfg, d, k, acc, p);
      EntriesRead(cfg, d, k + 1, acc + [p]);
      Consed(acc, p, Pairs(d, k + 1));
    }
  }

  lemma EntryPassed(cfg: string, d: Node, k: nat, acc: seq<Pair>, p: Pair)
    requires DictShape(cfg, d) && k < |d.entries| && KeysSoFar(acc, d, k) && p.key == d.entries[k].key
    requires d.entries[k].value.to <= |cfg| && d.entries[k].from <= |cfg|
    requires ParseEntry(cfg, d.entries[k].from) == Parsed(p, Skip(cfg, d.entries[k].value.to))
    ensures EntryStart(d, k + 1) <= |cfg| && KeysSoFar(acc + [p], d, k + 1)
    ensures ParsePairs(cfg, d.entries[k].from, acc) == ParsePairs(cfg, EntryStart(d, k + 1), acc + [p])
  {
    KeyFirst(cfg, d, k);
    AfterEntry(cfg, d, k);
    NextKey(cfg, d, k, acc, p);
    OneEntry(cfg, d.entries[k].from, p, d.entries[k].value.to, EntryStart(d, k + 1), acc);
  }

  lemma {:induction false} EntryDerived(cfg: string, e: EntryNode)
    requires SpelledEntry(cfg, e) && Spelled(cfg, e.value)
    ensures e.value.to <= |cfg| && e.from <= |cfg|
    ensures ParseEntry(cfg, e.from) == Parsed(Pair(e.key, Value(e.value)), Skip(cfg, e.value.to))
    decreases e.value, 2
  {
    FirstCharacter(cfg, e.value);
    Derived(cfg, e.value);
    EntryWith(cfg, e, Value(e.value), Skip(cfg, e.value.to));
  }

  lemma EntryWith(cfg: string, e: EntryNode, v: Attr, off: nat)
    requires SpelledEntry(cfg, e) && e.value.from < |cfg| && !IsSpace(cfg[e.value.from])
    requires Parse(cfg, e.value.from) == Parsed(v, off)
    ensures e.from <= |cfg| && ParseEntry(cfg, e.from) == Parsed(Pair(e.key, v), off)
  {
    StringRead(cfg, e.from, e.close, e.key);
    GapTo(cfg, e.close, e.colon);
    GapTo(cfg, e.colon + 1, e.value.from);
    EntryFrom(cfg, e.from, e.key, e.colon, e.value.from, v, off);
  }

  lemma EntryFrom(cfg: string, from: nat, key: string, colon: nat, start: nat, v: Attr, off: nat)
    requires from <= |cfg| && colon < |cfg| && cfg[colon] == ':' && start == Skip(cfg, colon + 1)
    requires Parse(cfg, from) == Parsed(Str(key), colon) && Parse(cfg, start) == Parsed(v, off)
    ensures ParseEntry(cfg, from) == Parsed(Pair(key, v), off)
  {
    assert Skip(cfg, colon) == colon;
    EntryIs(cfg, from, Parsed(Str(key), colon), colon, Parsed(v, off));
  }

  lemma OneEntry(cfg: string, from: nat, p: Pair, to: nat, next: nat, acc: seq<Pair>)
    requires from < |cfg| && (cfg[from] == '"' || cfg[from] == '\'') && to <= |cfg|
    requires ParseEntry(cfg, from) == Parsed(p, Skip(cfg, to)) && NextPart(cfg, Skip(cfg, to)) == next
    requires Assign(acc, p.key, p.value) == acc + [p]
    ensures ParsePairs(cfg, from, acc) == ParsePairs(cfg, next, acc + [p])
  {
  }

  // ---------- whole texts ----------

  /** A text that is nothing but a number, in any of its spellings. */
  lemma WholeNumber(d: Node, text: string)
    requires d.NumberAt? && (d.base == 8 || d.base == 10 || (d.base == 16 && !d.negative))
    requires d.n < 0x1_0000_0000_0000_0000 && (d.ten == 'a' || d.ten == 'A')
    requires text == NumberText(d) && d.from == 0 && d.to == |text|
    ensures Parse(text, 0) == Parsed(Value(d), |text|)
  {
    WordLength(d.n, d.base, d.ten);
    assert Word(text, 0, text);
    NumberRead(text, d);
    assert Skip(text, |text|) == |text|;
  }

  /** The derivation of such a text. */
  lemma PlainNode(n: nat, base: nat, negative: bool, text: string) returns (d: Node)
    requires (base == 8 || base == 10) && (negative ==> n <= 0x8000_0000_0000_0000) && n < 0x1_0000_0000_0000_0000
    requires text == (if negative then "-" else "") + ((if base == 8 then "0" else "") + Spell(n, base, 'a'))
    ensures d == NumberAt(0, |text|, n, base, negative, 'a') && NumberText(d) == text
    ensures Value(d) == Int(if negative then 0 - n else Bits.ToInt64(n))
  {
    d := NumberAt(0, |text|, n, base, negative, 'a');
    SmallValue(n, negative);
  }

  lemma SmallValue(n: nat, negative: bool)
    requires n < 0x1_0000_0000_0000_0000 && (negative ==> n <= 0x8000_0000_0000_0000)
    ensures Bits.ToInt64(Bits.Wrap64(if negative then 0 - n else n)) == if negative then 0 - n else Bits.ToInt64(n)
  {
  }

  /** Decimal numbers are read in base ten. */
  lemma DecimalReads(n: nat, text: string)
    requires n < 0x1_0000_0000_0000_0000 && text == Dec(n)
    ensures Parse(text, 0) == Parsed(Int(Bits.ToInt64(n)), |text|)
  {
    assert "" + ("" + text) == text;
    var d := PlainNode(n, 10, false, text);
    WholeNumber(d, text);
  }

  /** And with a minus sign as their negatives. */
  lemma NegativeReads(n: nat, text: string)
    requires n <= 0x8000_0000_0000_0000 && text == "-" + Dec(n)
    ensures Parse(text, 0) == Parsed(Int(0 - n), |text|)
  {
    SignInFront(Dec(n), text);
    var d := PlainNode(n, 10, true, text);
    WholeNumber(d, text);
  }

  lemma SignInFront(digits: string, text: string)
    requires text == "-" + digits
    ensures text == "-" + ("" + digits)
  {
  }

  /** A leading zero makes a number octal. */
  lemma OctalReads(n: nat, text: string)
    requires n < 0x1_0000_0000_0000_0000 && text == "0" + Spell(n, 8, 'a')
    ensures Parse(text, 0) == Parsed(Int(Bits.ToInt64(n)), |text|)
  {
    assert "" + text == text;
    var d := PlainNode(n, 8, false, text);
    WholeNumber(d, text);
  }

  /** `from_config` on any text that carries a derivation. */
  method ReadText(cfg: string, off: nat, ghost d: Node) returns (r: Outcome<Attr>)
    requires Spelled(cfg, d) && Gap(cfg, off, d.from)
    ensures r == Parsed(Value(d), Skip(cfg, d.to))
  {
    DerivedText(cfg, off, d);
    r := AttributeScanner.StringToAttribute(cfg, off);
  }

  // ---------- texts that end too early ----------

  /** The components of a list are there but the text ends before its bracket. */
  lemma UnclosedList(cfg: string, d: Node)
    requires d.ListAt? && d.from < d.to <= |cfg| && cfg[d.from] == '[' && cfg[d.to - 1] == '\0'
    requires Gap(cfg, d.from + 1, ItemStart(d, 0)) && ItemsSpelled(cfg, d)
    requires forall k :: 0 <= k < |d.items| ==> ItemFits(cfg, d, k)
    ensures Parse(cfg, d.from) == Failed
  {
    StartBefore(cfg, d, 0);
    GapTo(cfg, d.from + 1, ItemStart(d, 0));
    ItemsBefore(cfg, d, 0, []);
    ListOpen(cfg, d.from, ItemStart(d, 0));
  }

  lemma ListOpen(cfg: string, from: nat, start: nat)
    requires from < |cfg| && cfg[from] == '[' && start <= |cfg| && Skip(cfg, from + 1) == start
    requires ParseItems(cfg, start, []) == Failed
    ensures Parse(cfg, from) == Failed
  {
    assert Skip(cfg, from) == from;
    ParseIsList(cfg, from, from);
  }

  lemma StartBefore(cfg: string, d: Node, k: nat)
    requires d.ListAt? && 0 < d.to <= |cfg| && cfg[d.to - 1] == '\0' && ItemsSpelled(cfg, d) && k <= |d.items|
    ensures var o := ItemStart(d, k); o < |cfg| && !IsSpace(cfg[o]) && cfg[o] != ','
  {
    if k < |d.items| {
      ItemOpens(cfg, d, k);
    }
  }

  lemma {:induction false} ItemsBefore(cfg: string, d: Node, k: nat, acc: seq<Attr>)
    requires d.ListAt? && 0 < d.to <= |cfg| && cfg[d.to - 1] == '\0' && ItemsSpelled(cfg, d) && k <= |d.items|
    requires forall k :: 0 <= k < |d.items| ==> ItemFits(cfg, d, k)
    ensures ItemStart(d, k) <= |cfg| && ParseItems(cfg, ItemStart(d, k), acc) == Failed
    decreases |d.items| - k
  {
    if k < |d.items| {
      var x, next := d.items[k], ItemStart(d, k + 1);
      ItemOpens(cfg, d, k);
      assert ItemFits(cfg, d, k);
      StartBefore(cfg, d, k + 1);
      PastGap(cfg, x.to, next);
      Derived(cfg, x);
      OneItem(cfg, x.from, Value(x), x.to, next, acc);
      ItemsBefore(cfg, d, k + 1, acc + [Value(x)]);
    }
  }

  /** A text without its closing quote. */
  lemma UnclosedString(cfg: string, from: nat)
    requires from < |cfg| && (cfg[from] == '"' || cfg[from] == '\'') && |cfg| - from <= 1024
    requires forall k :: from < k < |cfg| ==> cfg[k] != cfg[from]
    ensures Parse(cfg, from) == Failed
  {
    assert Skip(cfg, from) == from;
    ParseIsString(cfg, from, from);
    NoQuote(cfg, from + 1, cfg[from]);
  }

  lemma {:induction false} NoQuote(cfg: string, off: nat, quote: char)
    requires off <= |cfg| && quote != '\0' && forall k :: off <= k < |cfg| ==> cfg[k] != quote
    ensures CharAt(cfg, StringEnd(cfg, off, quote)) == '\0'
    decreases |cfg| - off
  {
    if off < |cfg| && cfg[off] != '\0' {
      NoQuote(cfg, off + 1, quote);
    }
  }

  /** An entry without its colon. */
  lemma MissingColon(cfg: string, from: nat, close: nat, key: string, next: nat)
    requires SpelledString(cfg, from, close, key) && Gap(cfg, close, next) && !IsSpace(CharAt(cfg, next))
    requires CharAt(cfg, next) != ':'
    ensures from <= |cfg| && ParseEntry(cfg, from) == Failed
  {
    StringRead(cfg, from, close, key);
    GapTo(cfg, close, next);
    assert Skip(cfg, next) == next;
  }

  // ---------- the printed form ----------

  /** Hexadecimal numbers are printed with the digits of this grammar. */
  lemma {:induction false} HexIsSpell(n: nat)
    ensures Hex(n) == Spell(n, 16, 'a')
  {
    if n >= 16 {
      HexIsSpell(n / 16);
    }
  }

  /** Constants, text, bytes and brackets as they are printed. */
  lemma PrintExamples(s: string, n: nat)
    requires n < 0x1_0000_0000_0000_0000
    ensures Print(Nil) == "None" && Print(Bool(true)) == "True" && Print(Bool(false)) == "False"
    ensures Print(Str(s)) == "\"" + s + "\"" && Print(UInt(n)) == "0x" + Spell(n, 16, 'a')
    ensures Print(Int(Bits.ToInt64(n))) == "0x" + Spell(n, 16, 'a')
    ensures ByteText(171) == "AB" && ByteText(5) == "05"
  {
    HexIsSpell(n);
    assert Bits.Wrap64(Bits.ToInt64(n)) == n;
  }

  lemma ListExample(v: Attr, w: Attr)
    ensures Print(List([v, w])) == "[" + Print(v) + "," + Print(w) + "]" && Print(List([])) == "[]"
  {
    var l := List([v, w]);
    assert PrintItems(l, 2) == "";
    assert PrintItems(l, 1) == Print(w) + "" + PrintItems(l, 2);
    assert PrintItems(l, 0) == Print(v) + "," + PrintItems(l, 1);
    Bracketed(Print(v), Print(w));
  }

  lemma Bracketed(a: string, b: string)
    ensures "[" + (a + "," + (b + "" + "")) + "]" == "[" + a + "," + b + "]"
  {
  }

  lemma DictExample(key: string, v: Attr)
    ensures Print(Dict([Pair(key, v)])) == "{\"" + key + "\":" + Print(v) + "}" && Print(Dict([])) == "{}"
  {
    var d := Dict([Pair(key, v)]);
    assert PrintPairs(d, 1) == "";
    assert PrintPairs(d, 0) == Quoted(key) + ":" + Print(v) + "" + PrintPairs(d, 1);
    Braced(key, Print(v));
  }

  lemma Braced(key: string, text: string)
    ensures "{" + (Quoted(key) + ":" + text + "" + "") + "}" == "{\"" + key + "\":" + text + "}"
  {
  }
}
