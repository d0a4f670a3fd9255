/** Reading the printed form of a tree gives the tree back. */
module AttributeRoundTrip {
  import Bits
  import opened AttributeTree
  import opened AttributeParser
  import AttributeScanner

  // ---------- which trees ----------

  /** Text that fits between quotes and in the first allocation of the buffer it is copied to. */
  predicate Plain(s: string) {
    |s| < 1024 && forall k :: 0 <= k < |s| ==> s[k] != '"' && s[k] != '\0'
  }

  predicate DistinctKeys(pairs: seq<Pair>) {
    forall i, j :: 0 <= i < j < |pairs| ==> pairs[i].key != pairs[j].key
  }

  /** The entry named "Type" is missing, nil, or text other than the service interface. */
  predicate NoService(pairs: seq<Pair>) {
    forall j :: 0 <= j < |pairs| && pairs[j].key == "Type" ==>
                  pairs[j].value == Nil || (pairs[j].value.Str? && pairs[j].value.s != "IService")
  }

  lemma NoServiceResolves(pairs: seq<Pair>, off: nat)
    requires NoService(pairs)
    ensures Resolve(pairs, off) == Parsed(Dict(pairs), off)
  {
    ValueOfIs(pairs, TypeKey);
  }

  predicate Restorable(v: Attr) {
    match v
    case Int(i) => -0x8000_0000_0000_0000 <= i < 0x8000_0000_0000_0000
    case UInt(u) => u < 0x1_0000_0000_0000_0000
    case Str(s) => Plain(s)
    case Data(bytes) => forall k :: 0 <= k < |bytes| ==> bytes[k] < 256
    case List(items) => forall k :: 0 <= k < |items| ==> Restorable(items[k])
    case Dict(pairs) =>
      && DistinctKeys(pairs) && NoService(pairs)
      && (forall k :: 0 <= k < |pairs| ==> Plain(pairs[k].key) && Restorable(pairs[k].value))
    case _ => true
  }

  /** The tree with every unsigned integer read as a signed one with the same 64 bits. */
  function Signed(v: Attr): Attr
    decreases v, Parts(v) + 1
  {
    match v
    case UInt(u) => Int(Bits.ToInt64(u))
    case List(items) => List(SignedItems(v, 0))
    case Dict(pairs) => Dict(SignedPairs(v, 0))
    case _ => v
  }

  function SignedItems(v: Attr, k: nat): (r: seq<Attr>)
    requires v.List? && k <= |v.items|
    ensures |r| == |v.items| - k
    decreases v, |v.items| - k
  {
    if k == |v.items| then [] else [Signed(v.items[k])] + SignedItems(v, k + 1)
  }

  function SignedPairs(v: Attr, k: nat): (r: seq<Pair>)
    requires v.Dict? && k <= |v.pairs|
    ensures |r| == |v.pairs| - k
    decreases v, |v.pairs| - k
  {
    if k == |v.pairs| then []
    else [Pair(v.pairs[k].key, Signed(v.pairs[k].value))] + SignedPairs(v, k + 1)
  }

  // ---------- text at an offset ----------

  /** The text from an offset on starts with w, character by character. */
  ghost predicate Text(cfg: string, off: nat, w: string)
    decreases |w|
  {
    w == "" || (off < |cfg| && cfg[off] == w[0] && Text(cfg, off + 1, w[1..]))
  }

  lemma {:induction false} TextIsWord(cfg: string, off: nat, w: string)
    requires off <= |cfg|
    ensures Text(cfg, off, w) <==> Word(cfg, off, w)
    decreases |w|
  {
    if w != "" && off < |cfg| {
      var u := w[1..];
      TextIsWord(cfg, off + 1, u);
      if Text(cfg, off, w) {
        forall k | 0 <= k < |w| ensures cfg[off + k] == w[k] {
          if k > 0 {
            assert cfg[off + 1 + (k - 1)] == u[k - 1];
          }
        }
      }
      if Word(cfg, off, w) {
        assert cfg[off + 0] == w[0];
        forall k | 0 <= k < |u| ensures cfg[off + 1 + k] == u[k] {
          assert cfg[off + (k + 1)] == w[k + 1];
        }
      }
    }
  }

  lemma WordSplit(cfg: string, off: nat, p: string, q: string)
    requires Word(cfg, off, p + q)
    ensures Word(cfg, off, p) && Word(cfg, off + |p|, q)
  {
    forall k | 0 <= k < |p| ensures cfg[off + k] == p[k] {
      assert (p + q)[k] == p[k];
    }
    forall k | 0 <= k < |q| ensures cfg[off + |p| + k] == q[k] {
      assert (p + q)[|p| + k] == q[k];
    }
  }

  /** No character here could continue a number. */
  predicate Ended(cfg: string, off: nat) {
    !IsHex(CharAt(cfg, off)) && CharAt(cfg, off) != '.'
  }

  // ---------- strings ----------

  lemma {:induction false} StringEndIs(cfg: string, off: nat, end: nat)
    requires off <= end < |cfg| && cfg[end] == '"'
    requires forall k :: off <= k < end ==> cfg[k] != '"' && cfg[k] != '\0'
    ensures StringEnd(cfg, off, '"') == end
    decreases end - off
  {
    if off < end {
      StringEndIs(cfg, off + 1, end);
    }
  }

  lemma StringBack(cfg: string, off: nat, s: string)
    requires Word(cfg, off, Quoted(s)) && Plain(s)
    ensures off < |cfg| && cfg[off] == '"'
    ensures ParseString(cfg, off) == Parsed(Str(s), Skip(cfg, off + |Quoted(s)|))
  {
    var end := off + 1 + |s|;
    WordSplit(cfg, off, ['"'] + s, ['"']);
    WordSplit(cfg, off, ['"'], s);
    assert cfg[off] == ['"'][0] && cfg[end] == ['"'][0];
    StringEndIs(cfg, off + 1, end) by {
      forall k | off + 1 <= k < end ensures cfg[k] != '"' && cfg[k] != '\0' {
        assert cfg[off + 1 + (k - (off + 1))] == s[k - (off + 1)];
      }
    }
    assert cfg[off + 1..end] == s;
  }

  // ---------- numbers ----------

  lemma {:induction false} DigitsSnoc(s: string, c: char, acc: nat)
    requires AllHex(s) && IsHex(c)
    ensures AllHex(s + [c]) && Digits(s + [c], 16, acc) == 16 * Digits(s, 16, acc) + DigitValue(c)
    decreases |s|
  {
    if s == [] {
      assert s + [c] == [c];
      assert [c][1..] == [];
    } else {
      assert (s + [c])[1..] == s[1..] + [c];
      DigitsSnoc(s[1..], c, 16 * acc + DigitValue(s[0]));
    }
  }

  lemma {:induction false} HexBack(n: nat)
    ensures AllHex(Hex(n)) && Digits(Hex(n), 16, 0) == n
  {
    DigitRoundTrip(n % 16, 'a');
    if n < 16 {
      assert Hex(n)[1..] == [];
    } else {
      HexBack(n / 16);
      DigitsSnoc(Hex(n / 16), Digit(n % 16, 'a'), 0);
    }
  }

  function Pow16(k: nat): nat {
    if k == 0 then 1 else 16 * Pow16(k - 1)
  }

  lemma {:induction false} HexLength(n: nat, k: nat)
    requires 0 < k && n < Pow16(k)
    ensures 0 < |Hex(n)| <= k
  {
    if n >= 16 {
      assert k > 1;
      HexLength(n / 16, k - 1);
    }
  }

  lemma {:induction false} DigitsEndIs(cfg: string, off: nat, end: nat, n: nat)
    requires off <= end <= |cfg| && end - off <= n && !IsHex(CharAt(cfg, end))
    requires forall k :: off <= k < end ==> IsHex(cfg[k])
    ensures DigitsEnd(cfg, off, n) == end
    decreases end - off
  {
    if off < end {
      DigitsEndIs(cfg, off + 1, end, n - 1);
    }
  }

  lemma Pow16Word()
    ensures Pow16(16) == 0x1_0000_0000_0000_0000
  {
    assert Pow16(4) == 0x1_0000;
    assert Pow16(8) == 0x1_0000_0000;
    assert Pow16(12) == 0x1_0000_0000_0000;
  }

  lemma HexDigitsBack(cfg: string, off: nat, n: nat, limit: nat)
    requires Word(cfg, off, Hex(n)) && n < 0x1_0000_0000_0000_0000 && 16 <= limit
    requires !IsHex(CharAt(cfg, off + |Hex(n)|))
    ensures DigitsEnd(cfg, off, limit) == off + |Hex(n)| && cfg[off..off + |Hex(n)|] == Hex(n)
  {
    HexBack(n);
    Pow16Word();
    HexLength(n, 16);
    var text := Hex(n);
    forall k | off <= k < off + |text| ensures IsHex(cfg[k]) {
      assert cfg[off + (k - off)] == text[k - off];
    }
    DigitsEndIs(cfg, off, off + |text|, limit);
  }

  lemma HexValue(n: nat)
    requires n < 0x1_0000_0000_0000_0000
    ensures AllHex(Hex(n)) && NumberValue(true, false, Hex(n)) == Bits.ToInt64(n)
  {
    HexBack(n);
  }

  lemma NumberBack(cfg: string, off: nat, n: nat)
    requires Word(cfg, off, "0x" + Hex(n)) && n < 0x1_0000_0000_0000_0000
    requires Ended(cfg, off + |"0x" + Hex(n)|)
    ensures CharAt(cfg, off) == '0'
    ensures ParseWord(cfg, off) == Parsed(Int(Bits.ToInt64(n)), Skip(cfg, off + |"0x" + Hex(n)|))
  {
    WordSplit(cfg, off, "0x", Hex(n));
    assert cfg[off + 0] == "0x"[0] && cfg[off + 1] == "0x"[1];
    HexNumberBack(cfg, off, n, 2);
  }

  lemma HexNumberBack(cfg: string, off: nat, n: nat, used: nat)
    requires off + 2 <= |cfg| && cfg[off] == '0' && cfg[off + 1] == 'x' && used == 2
    requires Word(cfg, off + 2, Hex(n)) && n < 0x1_0000_0000_0000_0000 && Ended(cfg, off + 2 + |Hex(n)|)
    ensures ParseWord(cfg, off) == Parsed(Int(Bits.ToInt64(n)), Skip(cfg, off + 2 + |Hex(n)|))
  {
    NotAConstant(cfg, off);
    HexRunBack(cfg, off + 2, n, used);
  }

  lemma HexRunBack(cfg: string, off: nat, n: nat, used: nat)
    requires used == 2
    requires Word(cfg, off, Hex(n)) && n < 0x1_0000_0000_0000_0000 && Ended(cfg, off + |Hex(n)|)
    ensures ParseDigits(cfg, off, used, false) == Parsed(Int(Bits.ToInt64(n)), Skip(cfg, off + |Hex(n)|))
  {
    HexDigitsBack(cfg, off, n, 63 - used);
    HexValue(n);
  }

  lemma NotAConstant(cfg: string, off: nat)
    requires off < |cfg| && cfg[off] == '0'
    ensures !Word(cfg, off, "None") && !Word(cfg, off, "false") && !Word(cfg, off, "False")
    ensures !Word(cfg, off, "true") && !Word(cfg, off, "True")
  {
    assert cfg[off + 0] != "None"[0] && cfg[off + 0] != "false"[0] && cfg[off + 0] != "False"[0];
    assert cfg[off + 0] != "true"[0] && cfg[off + 0] != "True"[0];
  }

  // ---------- bytes ----------

  lemma ByteBack(cfg: string, off: nat, b: nat)
    requires Word(cfg, off, "0x" + ByteText(b)) && b < 256
    ensures CharAt(cfg, off) == '0' && HexPrefix(cfg, off) == off + 2 && off + 4 <= |cfg| && ByteAt(cfg, off + 2) == b
  {
    WordSplit(cfg, off, "0x", ByteText(b));
    assert cfg[off + 0] == "0x"[0] && cfg[off + 1] == "0x"[1];
    assert cfg[off + 2 + 0] == ByteText(b)[0] && cfg[off + 2 + 1] == ByteText(b)[1];
    DigitsOfByte(b, cfg[off + 2], cfg[off + 3]);
  }

  lemma DigitsOfByte(b: nat, hi: char, lo: char)
    requires b < 256 && hi == ByteText(b)[0] && lo == ByteText(b)[1]
    ensures Nibble(Nibble(0, hi), lo) == b
  {
    ByteHalves(b);
    TwoDigits(b / 16, b % 16, hi, lo);
  }

  lemma ByteHalves(b: nat)
    requires b < 256
    ensures b % 256 / 16 == b / 16 < 16 && b == 16 * (b / 16) + b % 16
  {
  }

  lemma TwoDigits(h: nat, l: nat, hi: char, lo: char)
    requires h < 16 && l < 16 && hi == Digit(h, 'A') && lo == Digit(l, 'A')
    ensures Nibble(Nibble(0, hi), lo) == 16 * h + l
  {
    CharBitsBack(h);
    CharBitsBack(l);
    ShiftInDigit(0, h);
    ShiftInDigit(h, l);
  }

  lemma CharBitsBack(d: nat)
    requires d < 16
    ensures CharBits(Digit(d, 'A')) == d
  {
    if d < 10 {
      assert Digit(d, 'A') as int == 48 + d;
    }
  }

  lemma ShiftInDigit(b: nat, d: nat)
    requires b < 16 && d < 16
    ensures ShiftIn(b, d) == 16 * b + d
  {
    assert d / 16 == 0;
  }

  /** Behind a component: the next one starts after the comma, the closing bracket stays. */
  lemma AtComma(cfg: string, o: nat)
    requires o + 1 < |cfg| && cfg[o] == ',' && !IsSpace(cfg[o + 1])
    ensures Skip(cfg, o) == o && Skip(cfg, o + 1) == o + 1 && NextPart(cfg, o) == o + 1
  {
  }

  lemma AtClose(cfg: string, o: nat)
    requires o < |cfg| && !IsSpace(cfg[o]) && cfg[o] != ','
    ensures Skip(cfg, o) == o && NextPart(cfg, o) == o
  {
  }

  lemma LastByteStep(cfg: string, off: nat, b: nat, acc: seq<nat>)
    requires off + 4 < |cfg| && cfg[off] == '0' && HexPrefix(cfg, off) == off + 2 && ByteAt(cfg, off + 2) == b
    requires cfg[off + 4] == ')'
    ensures ParseBytes(cfg, off, acc) == Parsed(acc + [b], Skip(cfg, off + 5))
  {
    AtClose(cfg, off + 4);
  }

  lemma ByteStep(cfg: string, off: nat, b: nat, acc: seq<nat>)
    requires off + 5 < |cfg| && cfg[off] == '0' && HexPrefix(cfg, off) == off + 2 && ByteAt(cfg, off + 2) == b
    requires cfg[off + 4] == ',' && !IsSpace(cfg[off + 5])
    ensures ParseBytes(cfg, off, acc) == ParseBytes(cfg, off + 5, acc + [b])
  {
    AtComma(cfg, off + 4);
  }

  lemma NoBytes(cfg: string, off: nat, acc: seq<nat>)
    requires off < |cfg| && cfg[off] == ')'
    ensures ParseBytes(cfg, off, acc) == Parsed(acc, Skip(cfg, off + 1))
  {
  }

  lemma {:induction false} BytesBack(cfg: string, off: nat, bytes: seq<nat>, k: nat, acc: seq<nat>, end: nat)
    requires k <= |bytes| && forall j :: 0 <= j < |bytes| ==> bytes[j] < 256
    requires off <= |cfg| && Text(cfg, off, PrintBytes(bytes, k) + ")") && end == off + |PrintBytes(bytes, k)| + 1
    ensures end <= |cfg| && ParseBytes(cfg, off, acc) == Parsed(acc + bytes[k..], Skip(cfg, end))
    decreases |bytes| - k
  {
    if k == |bytes| {
      assert PrintBytes(bytes, k) + ")" == ")";
      NoBytes(cfg, off, acc);
      assert acc + bytes[k..] == acc;
    } else {
      BytesText(cfg, off, bytes, k);
      Shifted(acc, bytes, k);
      if k + 1 < |bytes| {
        FirstByte(cfg, off + 5, bytes, k + 1);
        ByteStep(cfg, off, bytes[k], acc);
        BytesBack(cfg, off + 5, bytes, k + 1, acc + [bytes[k]], end);
      } else {
        LastByteStep(cfg, off, bytes[k], acc);
      }
    }
  }

  lemma Shifted(acc: seq<nat>, bytes: seq<nat>, k: nat)
    requires k < |bytes|
    ensures acc + [bytes[k]] + bytes[k + 1..] == acc + bytes[k..]
    ensures k + 1 == |bytes| ==> acc + [bytes[k]] == acc + bytes[k..]
  {
  }

  lemma BytesText(cfg: string, off: nat, bytes: seq<nat>, k: nat)
    requires k < |bytes| && bytes[k] < 256 && off <= |cfg| && Text(cfg, off, PrintBytes(bytes, k) + ")")
    ensures CharAt(cfg, off) == '0' && HexPrefix(cfg, off) == off + 2
    ensures off + 4 < |cfg| && ByteAt(cfg, off + 2) == bytes[k]
    ensures cfg[off + 4] == if k + 1 < |bytes| then ',' else ')'
    ensures k + 1 < |bytes| ==> Text(cfg, off + 5, PrintBytes(bytes, k + 1) + ")")
    ensures |PrintBytes(bytes, k)| == if k + 1 < |bytes| then 5 + |PrintBytes(bytes, k + 1)| else 4
  {
    var piece, comma, rest := "0x" + ByteText(bytes[k]), Comma(k, |bytes|), PrintBytes(bytes, k + 1);
    TextIsWord(cfg, off, piece + comma + rest + ")");
    Split3(cfg, off, piece, comma, rest, ")");
    ByteBack(cfg, off, bytes[k]);
    if k + 1 < |bytes| {
      assert cfg[off + 4 + 0] == comma[0];
      TextIsWord(cfg, off + 5, rest + ")");
    } else {
      assert rest == "";
      assert cfg[off + 4 + 0] == (rest + ")")[0];
    }
  }

  /** The four parts of the text from one component on. */
  lemma Split3(cfg: string, off: nat, piece: string, comma: string, rest: string, close: string)
    requires Word(cfg, off, piece + comma + rest + close)
    ensures Word(cfg, off, piece) && Word(cfg, off + |piece|, comma)
    ensures Word(cfg, off + |piece| + |comma|, rest + close)
  {
    assert piece + comma + rest + close == piece + comma + (rest + close);
    WordSplit(cfg, off, piece + comma, rest + close);
    WordSplit(cfg, off, piece, comma);
  }

  lemma FirstByte(cfg: string, off: nat, bytes: seq<nat>, k: nat)
    requires k < |bytes| && Text(cfg, off, PrintBytes(bytes, k) + ")")
    ensures off < |cfg| && cfg[off] == '0'
  {
    assert (PrintBytes(bytes, k) + ")")[0] == '0';
  }

  // ---------- trees ----------

  predicate Starts(c: char) {
    c == 'N' || c == '0' || c == 'T' || c == 'F' || c == '"' || c == '(' || c == '[' || c == '{'
  }

  lemma FirstChar(v: Attr)
    ensures |Print(v)| > 0 && Starts(Print(v)[0])
  {
  }

  lemma FirstOf(cfg: string, off: nat, v: Attr)
    requires Text(cfg, off, Print(v))
    ensures off < |cfg| && Starts(cfg[off])
  {
    FirstChar(v);
  }

  lemma FirstItem(v: Attr, k: nat, close: string)
    requires v.List? && k < |v.items|
    ensures |PrintItems(v, k) + close| > 0 && Starts((PrintItems(v, k) + close)[0])
  {
    FirstChar(v.items[k]);
    assert PrintItems(v, k) == Print(v.items[k]) + Comma(k, |v.items|) + PrintItems(v, k + 1);
  }

  lemma FirstPair(v: Attr, k: nat, close: string)
    requires v.Dict? && k < |v.pairs|
    ensures |PrintPairs(v, k) + close| > 0 && (PrintPairs(v, k) + close)[0] == '"'
  {
    var quoted := Quoted(v.pairs[k].key);
    assert quoted[0] == '"';
    assert (quoted + ":")[0] == '"';
    assert PrintPairs(v, k) == quoted + ":" + Print(v.pairs[k].value) + Comma(k, |v.pairs|) + PrintPairs(v, k + 1);
  }

  lemma {:induction false} Back(cfg: string, off: nat, v: Attr, end: nat)
    requires Restorable(v) && off <= |cfg| && Text(cfg, off, Print(v)) && end == off + |Print(v)| && Ended(cfg, end)
    ensures end <= |cfg| && Parse(cfg, off) == Parsed(Signed(v), Skip(cfg, end))
    decreases v, Parts(v) + 2
  {
    if v.List? {
      ListBack(cfg, off, v, end);
    } else if v.Dict? {
      DictBack(cfg, off, v, end);
    } else if v.Data? {
      DataBack(cfg, off, v.bytes, end);
    } else if v.Int? || v.UInt? {
      IntBack(cfg, off, v, end);
    } else if v.Str? {
      TextBack(cfg, off, v.s, end);
    } else {
      ConstantBack(cfg, off, v, end);
    }
  }

  lemma TextBack(cfg: string, off: nat, s: string, end: nat)
    requires off <= |cfg| && Text(cfg, off, Quoted(s)) && Plain(s) && end == off + |Quoted(s)|
    ensures end <= |cfg| && Parse(cfg, off) == Parsed(Str(s), Skip(cfg, end))
  {
    TextIsWord(cfg, off, Quoted(s));
    StringBack(cfg, off, s);
  }

  lemma IntBack(cfg: string, off: nat, v: Attr, end: nat)
    requires (v.Int? || v.UInt?) && Restorable(v)
    requires off <= |cfg| && Text(cfg, off, Print(v)) && end == off + |Print(v)| && Ended(cfg, end)
    ensures end <= |cfg| && Parse(cfg, off) == Parsed(Signed(v), Skip(cfg, end))
  {
    var n := if v.Int? then Bits.Wrap64(v.i) else v.u;
    if v.Int? {
      SignRoundTrip(v.i);
    }
    IntegerBack(cfg, off, n, Print(v), end);
  }

  lemma IntegerBack(cfg: string, off: nat, n: nat, text: string, end: nat)
    requires text == "0x" + Hex(n) && n < 0x1_0000_0000_0000_0000
    requires off <= |cfg| && Text(cfg, off, text) && end == off + |text| && Ended(cfg, end)
    ensures end <= |cfg| && Parse(cfg, off) == Parsed(Int(Bits.ToInt64(n)), Skip(cfg, end))
  {
    TextIsWord(cfg, off, text);
    NumberBack(cfg, off, n);
    AtWord(cfg, off);
  }

  lemma AtWord(cfg: string, off: nat)
    requires off < |cfg| && (cfg[off] == '0' || cfg[off] == 'N' || cfg[off] == 'T' || cfg[off] == 'F')
    ensures Parse(cfg, off) == ParseWord(cfg, off)
  {
  }

  lemma ConstantBack(cfg: string, off: nat, v: Attr, end: nat)
    requires (v.Nil? || v.Bool?) && off <= |cfg| && Text(cfg, off, Print(v)) && end == off + |Print(v)|
    ensures end <= |cfg| && Parse(cfg, off) == Parsed(v, Skip(cfg, end))
  {
    TextIsWord(cfg, off, Print(v));
    AtWord(cfg, off);
    if v.Bool? {
      assert cfg[off + 0] != "None"[0] && cfg[off + 0] != "false"[0];
      assert v.b ==> cfg[off + 0] != "False"[0];
    }
  }

  lemma DataBack(cfg: string, off: nat, bytes: seq<nat>, end: nat)
    requires Restorable(Data(bytes)) && off <= |cfg| && Text(cfg, off, Print(Data(bytes)))
    requires end == off + |Print(Data(bytes))|
    ensures end <= |cfg| && Parse(cfg, off) == Parsed(Data(bytes), Skip(cfg, end))
  {
    Opened(cfg, off, '(', PrintBytes(bytes, 0), ")");
    AfterOpen(cfg, off, bytes);
    BytesBack(cfg, off + 1, bytes, 0, [], end);
    assert [] + bytes[0..] == bytes;
    AtData(cfg, off);
  }

  /** The text of a bracketed value: the opening bracket, then the rest. */
  lemma Opened(cfg: string, off: nat, open: char, body: string, close: string)
    requires off <= |cfg| && Text(cfg, off, [open] + body + close)
    ensures off < |cfg| && cfg[off] == open && Text(cfg, off + 1, body + close)
  {
    var w := [open] + body + close;
    assert w[0] == open && w[1..] == body + close;
  }

  lemma AfterOpen(cfg: string, off: nat, bytes: seq<nat>)
    requires Text(cfg, off + 1, PrintBytes(bytes, 0) + ")")
    ensures off + 1 < |cfg| && !IsSpace(cfg[off + 1])
  {
    if |bytes| > 0 {
      FirstByte(cfg, off + 1, bytes, 0);
    } else {
      assert (PrintBytes(bytes, 0) + ")")[0] == ')';
    }
  }

  lemma AtData(cfg: string, off: nat)
    requires off + 1 < |cfg| && cfg[off] == '(' && !IsSpace(cfg[off + 1])
    ensures Parse(cfg, off) ==
            var r := ParseBytes(cfg, off + 1, []);
            if r.Stopped() then Stop(r) else Parsed(Data(r.value), r.off)
  {
    assert Skip(cfg, off + 1) == off + 1;
  }

  lemma AtList(cfg: string, off: nat)
    requires off + 1 < |cfg| && cfg[off] == '[' && !IsSpace(cfg[off + 1])
    ensures Parse(cfg, off) ==
            var r := ParseItems(cfg, off + 1, []);
            if r.Stopped() then Stop(r) else Parsed(List(r.value), r.off)
  {
    assert Skip(cfg, off + 1) == off + 1;
  }

  lemma {:induction false} ListBack(cfg: string, off: nat, v: Attr, end: nat)
    requires v.List? && Restorable(v) && off <= |cfg| && Text(cfg, off, Print(v)) && end == off + |Print(v)|
    ensures end <= |cfg| && Parse(cfg, off) == Parsed(Signed(v), Skip(cfg, end))
    decreases v, Parts(v) + 1
  {
    Opened(cfg, off, '[', PrintItems(v, 0), "]");
    ItemsFirst(cfg, off + 1, v, 0);
    AtList(cfg, off);
    ItemsBack(cfg, off + 1, v, 0, [], end);
    assert [] + SignedItems(v, 0) == SignedItems(v, 0);
  }

  lemma ItemsFirst(cfg: string, off: nat, v: Attr, k: nat)
    requires v.List? && k <= |v.items| && Text(cfg, off, PrintItems(v, k) + "]")
    ensures off < |cfg| && if k == |v.items| then cfg[off] == ']' else Starts(cfg[off])
  {
    if k < |v.items| {
      FirstItem(v, k, "]");
    } else {
      assert PrintItems(v, k) + "]" == "]";
    }
  }

  lemma {:induction false} ItemsBack(cfg: string, off: nat, v: Attr, k: nat, acc: seq<Attr>, end: nat)
    requires v.List? && k <= |v.items| && Restorable(v)
    requires off <= |cfg| && Text(cfg, off, PrintItems(v, k) + "]") && end == off + |PrintItems(v, k)| + 1
    ensures end <= |cfg| && ParseItems(cfg, off, acc) == Parsed(acc + SignedItems(v, k), Skip(cfg, end))
    decreases v, |v.items| - k
  {
    ItemsFirst(cfg, off, v, k);
    if k == |v.items| {
      NoItems(cfg, off, acc);
      assert acc + SignedItems(v, k) == acc;
    } else {
      var o, next := ItemPlace(cfg, off, v, k);
      ItemRead(cfg, off, v.items[k], o, acc);
      ItemsBack(cfg, next, v, k + 1, acc + [Signed(v.items[k])], end);
      Consed(acc, Signed(v.items[k]), SignedItems(v, k + 1));
    }
  }

  /** Where the text of an item ends, and where the text of the next one starts. */
  lemma ItemPlace(cfg: string, off: nat, v: Attr, k: nat) returns (o: nat, next: nat)
    requires v.List? && k < |v.items| && off <= |cfg| && Text(cfg, off, PrintItems(v, k) + "]")
    ensures Text(cfg, off, Print(v.items[k])) && o == off + |Print(v.items[k])|
    ensures o < |cfg| && (cfg[o] == ',' || cfg[o] == ']') && next == NextPart(cfg, o)
    ensures Text(cfg, next, PrintItems(v, k + 1) + "]")
    ensures off + |PrintItems(v, k)| == next + |PrintItems(v, k + 1)|
  {
    var piece, comma, rest := Print(v.items[k]), Comma(k, |v.items|), PrintItems(v, k + 1);
    ItemsText(cfg, off, v, k, piece, comma, rest);
    o, next := off + |piece|, off + |piece| + |comma|;
  }

  lemma {:induction false} ItemRead(cfg: string, off: nat, v: Attr, next: nat, acc: seq<Attr>)
    requires Restorable(v) && off < |cfg| && Starts(cfg[off]) && Text(cfg, off, Print(v)) && next == off + |Print(v)|
    requires next < |cfg| && (cfg[next] == ',' || cfg[next] == ']')
    ensures ParseItems(cfg, off, acc) == ParseItems(cfg, NextPart(cfg, next), acc + [Signed(v)])
    decreases v, Parts(v) + 3
  {
    Back(cfg, off, v, next);
    ItemStep(cfg, off, Signed(v), next, acc);
  }

  lemma NoItems(cfg: string, off: nat, acc: seq<Attr>)
    requires off < |cfg| && cfg[off] == ']'
    ensures ParseItems(cfg, off, acc) == Parsed(acc, Skip(cfg, off + 1))
  {
  }

  lemma Consed<T>(acc: seq<T>, x: T, rest: seq<T>)
    ensures acc + ([x] + rest) == acc + [x] + rest
  {
  }

  lemma ItemStep(cfg: string, off: nat, w: Attr, next: nat, acc: seq<Attr>)
    requires off < |cfg| && Starts(cfg[off]) && next < |cfg| && (cfg[next] == ',' || cfg[next] == ']')
    requires Parse(cfg, off) == Parsed(w, Skip(cfg, next))
    ensures ParseItems(cfg, off, acc) == ParseItems(cfg, NextPart(cfg, next), acc + [w])
  {
  }

  lemma ItemsText(cfg: string, off: nat, v: Attr, k: nat, piece: string, comma: string, rest: string)
    requires v.List? && k < |v.items| && off <= |cfg| && Text(cfg, off, PrintItems(v, k) + "]")
    requires piece == Print(v.items[k]) && comma == Comma(k, |v.items|) && rest == PrintItems(v, k + 1)
    ensures |PrintItems(v, k)| == |piece| + |comma| + |rest|
    ensures PartAt(cfg, off, off + |piece|, piece, comma, rest, "]")
  {
    ItemsTail(v, k);
    PartText(cfg, off, piece, comma, rest, "]");
  }

  lemma ItemsTail(v: Attr, k: nat)
    requires v.List? && k < |v.items|
    ensures Continues(Comma(k, |v.items|), PrintItems(v, k + 1) + "]", ']')
  {
    if k + 1 < |v.items| {
      FirstItem(v, k + 1, "]");
    } else {
      assert PrintItems(v, k + 1) + "]" == "]";
    }
  }

  /** After a comma another component starts; without one the bracket closes. */
  predicate Continues(comma: string, tail: string, close: char) {
    |tail| > 0 && ((comma == "," && Starts(tail[0])) || (comma == "" && tail[0] == close))
  }

  /** One component in front of the rest of the text. */
  ghost predicate PartAt(cfg: string, off: nat, next: nat, piece: string, comma: string, rest: string, close: string)
    requires close != ""
  {
    && Text(cfg, off, piece)
    && next < |cfg| && (cfg[next] == ',' || cfg[next] == close[0])
    && NextPart(cfg, next) == next + |comma|
    && Text(cfg, next + |comma|, rest + close)
  }

  lemma PartText(cfg: string, off: nat, piece: string, comma: string, rest: string, close: string)
    requires off <= |cfg| && Text(cfg, off, piece + comma + rest + close)
    requires (close == "]" || close == "}") && Continues(comma, rest + close, close[0])
    ensures PartAt(cfg, off, off + |piece|, piece, comma, rest, close)
  {
    Split3Text(cfg, off, piece, comma, rest, close);
    Behind(cfg, off + |piece|, comma, rest + close, close[0]);
  }

  lemma Split3Text(cfg: string, off: nat, piece: string, comma: string, rest: string, close: string)
    requires off <= |cfg| && Text(cfg, off, piece + comma + rest + close)
    ensures off + |piece| + |comma| <= |cfg|
    ensures Text(cfg, off, piece) && Text(cfg, off + |piece|, comma)
    ensures Text(cfg, off + |piece| + |comma|, rest + close)
  {
    TextIsWord(cfg, off, piece + comma + rest + close);
    Split3(cfg, off, piece, comma, rest, close);
    TextIsWord(cfg, off, piece);
    TextIsWord(cfg, off + |piece|, comma);
    TextIsWord(cfg, off + |piece| + |comma|, rest + close);
  }

  /** Behind a component: a comma and the start of the next one, or the closing bracket. */
  lemma Behind(cfg: string, next: nat, comma: string, tail: string, close: char)
    requires Text(cfg, next, comma) && Text(cfg, next + |comma|, tail)
    requires (close == ']' || close == '}') && Continues(comma, tail, close)
    ensures next < |cfg| && NextPart(cfg, next) == next + |comma|
    ensures cfg[next] == if comma == "" then close else ','
  {
    if comma == "," {
      AtComma(cfg, next);
    } else {
      AtClose(cfg, next);
    }
  }

  // ---------- dictionaries ----------

  /** A key that is not there yet is appended. */
  lemma {:induction false} AssignNew(acc: seq<Pair>, key: string, value: Attr)
    requires forall j :: 0 <= j < |acc| ==> acc[j].key != key
    ensures Assign(acc, key, value) == acc + [Pair(key, value)]
  {
    if acc != [] {
      AssignNew(acc[1..], key, value);
      assert [acc[0]] + (acc[1..] + [Pair(key, value)]) == acc + [Pair(key, value)];
    }
  }

  lemma DictResolved(v: Attr, off: nat)
    requires v.Dict? && NoService(v.pairs)
    ensures Resolve(SignedPairs(v, 0), off) == Parsed(Signed(v), off)
  {
    forall k | 0 <= k < |v.pairs| ensures SignedPairs(v, 0)[k] == Pair(v.pairs[k].key, Signed(v.pairs[k].value)) {
      SignedPairAt(v, 0, k);
    }
    NoServiceResolves(SignedPairs(v, 0), off);
  }

  /** The pairs read so far have the keys of the first k pairs. */
  ghost predicate SameKeys(acc: seq<Pair>, v: Attr, k: nat)
    requires v.Dict? && k <= |v.pairs|
  {
    |acc| == k && forall j :: 0 <= j < k ==> acc[j].key == v.pairs[j].key
  }

  lemma {:induction false} DictBack(cfg: string, off: nat, v: Attr, end: nat)
    requires v.Dict? && Restorable(v) && off <= |cfg| && Text(cfg, off, Print(v)) && end == off + |Print(v)|
    ensures end <= |cfg| && Parse(cfg, off) == Parsed(Signed(v), Skip(cfg, end))
    decreases v, Parts(v) + 1
  {
    Opened(cfg, off, '{', PrintPairs(v, 0), "}");
    PairsFirst(cfg, off + 1, v, 0);
    AtDict(cfg, off);
    PairsBack(cfg, off + 1, v, 0, [], end);
    assert [] + SignedPairs(v, 0) == SignedPairs(v, 0);
    DictResolved(v, Skip(cfg, end));
  }

  lemma AtDict(cfg: string, off: nat)
    requires off + 1 < |cfg| && cfg[off] == '{' && !IsSpace(cfg[off + 1])
    ensures Parse(cfg, off) ==
            var r := ParsePairs(cfg, off + 1, []);
            if r.Stopped() then Stop(r) else Resolve(r.value, r.off)
  {
    assert Skip(cfg, off + 1) == off + 1;
  }

  lemma PairsFirst(cfg: string, off: nat, v: Attr, k: nat)
    requires v.Dict? && k <= |v.pairs| && Text(cfg, off, PrintPairs(v, k) + "}")
    ensures off < |cfg| && cfg[off] == if k == |v.pairs| then '}' else '"'
  {
    if k < |v.pairs| {
      FirstPair(v, k, "}");
    } else {
      assert PrintPairs(v, k) + "}" == "}";
    }
  }

  lemma {:induction false} PairsBack(cfg: string, off: nat, v: Attr, k: nat, acc: seq<Pair>, end: nat)
    requires v.Dict? && k <= |v.pairs| && Restorable(v)
    requires SameKeys(acc, v, k)
    requires off <= |cfg| && Text(cfg, off, PrintPairs(v, k) + "}") && end == off + |PrintPairs(v, k)| + 1
    ensures end <= |cfg| && ParsePairs(cfg, off, acc) == Parsed(acc + SignedPairs(v, k), Skip(cfg, end))
    decreases v, |v.pairs| - k
  {
    PairsFirst(cfg, off, v, k);
    if k == |v.pairs| {
      NoPairs(cfg, off, acc);
      assert acc + SignedPairs(v, k) == acc;
    } else {
      var pair := Pair(v.pairs[k].key, Signed(v.pairs[k].value));
      var o, next := PairPlace(cfg, off, v, k);
      NewKey(acc, v, k, pair);
      PairRead(cfg, off, v.pairs[k].key, v.pairs[k].value, o, acc);
      PairsBack(cfg, next, v, k + 1, acc + [pair], end);
      Consed(acc, pair, SignedPairs(v, k + 1));
    }
  }

  lemma NewKey(acc: seq<Pair>, v: Attr, k: nat, pair: Pair)
    requires v.Dict? && k < |v.pairs| && SameKeys(acc, v, k) && DistinctKeys(v.pairs) && pair.key == v.pairs[k].key
    ensures forall j :: 0 <= j < |acc| ==> acc[j].key != pair.key
    ensures SameKeys(acc + [pair], v, k + 1)
  {
  }

  lemma PairPlace(cfg: string, off: nat, v: Attr, k: nat) returns (o: nat, next: nat)
    requires v.Dict? && k < |v.pairs| && off <= |cfg| && Text(cfg, off, PrintPairs(v, k) + "}")
    ensures Text(cfg, off, Quoted(v.pairs[k].key) + ":" + Print(v.pairs[k].value))
    ensures o == off + |Quoted(v.pairs[k].key) + ":" + Print(v.pairs[k].value)|
    ensures o < |cfg| && (cfg[o] == ',' || cfg[o] == '}') && next == NextPart(cfg, o)
    ensures Text(cfg, next, PrintPairs(v, k + 1) + "}")
    ensures off + |PrintPairs(v, k)| == next + |PrintPairs(v, k + 1)|
  {
    var piece := Quoted(v.pairs[k].key) + ":" + Print(v.pairs[k].value);
    var comma, rest := Comma(k, |v.pairs|), PrintPairs(v, k + 1);
    PairsText(cfg, off, v, k, piece, comma, rest);
    o, next := off + |piece|, off + |piece| + |comma|;
  }

  lemma {:induction false} PairRead(cfg: string, off: nat, key: string, value: Attr, next: nat, acc: seq<Pair>)
    requires Plain(key) && Restorable(value) && forall j :: 0 <= j < |acc| ==> acc[j].key != key
    requires off < |cfg| && cfg[off] == '"' && Text(cfg, off, Quoted(key) + ":" + Print(value))
    requires next == off + |Quoted(key) + ":" + Print(value)|
    requires next < |cfg| && (cfg[next] == ',' || cfg[next] == '}')
    ensures ParsePairs(cfg, off, acc) == ParsePairs(cfg, NextPart(cfg, next), acc + [Pair(key, Signed(value))])
    decreases value, Parts(value) + 4
  {
    EntryBack(cfg, off, key, value, next);
    AssignNew(acc, key, Signed(value));
    PairStep(cfg, off, Pair(key, Signed(value)), next, acc);
  }

  lemma NoPairs(cfg: string, off: nat, acc: seq<Pair>)
    requires off < |cfg| && cfg[off] == '}'
    ensures ParsePairs(cfg, off, acc) == Parsed(acc, Skip(cfg, off + 1))
  {
  }

  lemma PairStep(cfg: string, off: nat, p: Pair, next: nat, acc: seq<Pair>)
    requires off < |cfg| && cfg[off] == '"' && next < |cfg| && (cfg[next] == ',' || cfg[next] == '}')
    requires ParseEntry(cfg, off) == Parsed(p, Skip(cfg, next))
    ensures ParsePairs(cfg, off, acc) == ParsePairs(cfg, NextPart(cfg, next), Assign(acc, p.key, p.value))
  {
  }

  lemma PairsText(cfg: string, off: nat, v: Attr, k: nat, piece: string, comma: string, rest: string)
    requires v.Dict? && k < |v.pairs| && off <= |cfg| && Text(cfg, off, PrintPairs(v, k) + "}")
    requires piece == Quoted(v.pairs[k].key) + ":" + Print(v.pairs[k].value)
    requires comma == Comma(k, |v.pairs|) && rest == PrintPairs(v, k + 1)
    ensures |PrintPairs(v, k)| == |piece| + |comma| + |rest|
    ensures PartAt(cfg, off, off + |piece|, piece, comma, rest, "}")
  {
    PairsTail(v, k);
    PartText(cfg, off, piece, comma, rest, "}");
  }

  lemma PairsTail(v: Attr, k: nat)
    requires v.Dict? && k < |v.pairs|
    ensures Continues(Comma(k, |v.pairs|), PrintPairs(v, k + 1) + "}", '}')
  {
    if k + 1 < |v.pairs| {
      FirstPair(v, k + 1, "}");
    } else {
      assert PrintPairs(v, k + 1) + "}" == "}";
    }
  }

  lemma {:induction false} EntryBack(cfg: string, off: nat, key: string, value: Attr, next: nat)
    requires Plain(key) && Restorable(value)
    requires off <= |cfg| && Text(cfg, off, Quoted(key) + ":" + Print(value))
    requires next == off + |Quoted(key) + ":" + Print(value)| && Ended(cfg, next)
    ensures next <= |cfg| && ParseEntry(cfg, off) == Parsed(Pair(key, Signed(value)), Skip(cfg, next))
    decreases value, Parts(value) + 3
  {
    var o := off + |Quoted(key)|;
    EntryText(cfg, off, Quoted(key), Print(value));
    TextBack(cfg, off, key, o);
    FirstOf(cfg, o + 1, value);
    Back(cfg, o + 1, value, next);
    EntryRead(cfg, off, key, o, Signed(value), Skip(cfg, next));
  }

  lemma EntryText(cfg: string, off: nat, key: string, value: string)
    requires off <= |cfg| && Text(cfg, off, key + ":" + value)
    ensures Text(cfg, off, key) && off + |key| < |cfg| && cfg[off + |key|] == ':'
    ensures Text(cfg, off + |key| + 1, value)
  {
    assert key + ":" + value + "" == key + ":" + value;
    Split3Text(cfg, off, key, ":", value, "");
    assert value + "" == value;
  }

  lemma EntryRead(cfg: string, off: nat, key: string, o: nat, w: Attr, e: nat)
    requires off <= |cfg| && o + 1 < |cfg| && cfg[o] == ':' && !IsSpace(cfg[o + 1])
    requires Parse(cfg, off) == Parsed(Str(key), Skip(cfg, o)) && Parse(cfg, o + 1) == Parsed(w, e)
    ensures ParseEntry(cfg, off) == Parsed(Pair(key, w), e)
  {
    AtColon(cfg, o);
    EntryIs(cfg, off, Parse(cfg, off), o, Parse(cfg, o + 1));
  }

  lemma AtColon(cfg: string, o: nat)
    requires o + 1 < |cfg| && cfg[o] == ':' && !IsSpace(cfg[o + 1])
    ensures Skip(cfg, o) == o && Skip(cfg, o + 1) == o + 1
  {
  }

  // ---------- the round trip ----------

  /** The printed form is read back completely, as the same tree with its integers signed. */
  lemma RoundTrip(v: Attr)
    requires Restorable(v)
    ensures Parse(Print(v), 0) == Parsed(Signed(v), |Print(v)|)
  {
    var cfg := Print(v);
    TextIsWord(cfg, 0, cfg);
    Back(cfg, 0, v, |cfg|);
    assert Skip(cfg, |cfg|) == |cfg|;
  }

  /** `to_config` followed by `from_config` on its text. */
  method Reload(v: Attr) returns (r: Outcome<Attr>)
    ensures r == Parse(Print(v), 0)
    ensures Restorable(v) ==> r == Parsed(Signed(v), |Print(v)|)
  {
    var buf := new AutoBuffer();
    AttributeToString(v, buf);
    assert "" + Print(v) == Print(v);
    r := AttributeScanner.StringToAttribute(buf.text, 0);
    if Restorable(v) {
      RoundTrip(v);
    }
  }

  /** Printing what was read back gives the same text, so a second round changes nothing at all. */
  lemma {:induction false} PrintSigned(v: Attr)
    requires Restorable(v)
    ensures Print(Signed(v)) == Print(v)
    decreases v, Parts(v) + 1
  {
    match v {
      case UInt(u) => assert Bits.Wrap64(Bits.ToInt64(u)) == u;
      case List(_) => PrintSignedItems(v, 0);
      case Dict(_) => PrintSignedPairs(v, 0);
      case _ =>
    }
  }

  lemma {:induction false} PrintSignedItems(v: Attr, k: nat)
    requires v.List? && Restorable(v) && k <= |v.items|
    ensures Signed(v).List? && |Signed(v).items| == |v.items|
    ensures k < |v.items| ==> Signed(v).items[k] == Signed(v.items[k])
    ensures PrintItems(Signed(v), k) == PrintItems(v, k)
    decreases v, |v.items| - k
  {
    if k < |v.items| {
      SignedItemAt(v, 0, k);
      PrintSigned(v.items[k]);
      PrintSignedItems(v, k + 1);
    }
  }

  lemma {:induction false} SignedItemAt(v: Attr, j: nat, k: nat)
    requires v.List? && j <= k < |v.items|
    ensures SignedItems(v, j)[k - j] == Signed(v.items[k])
    decreases k - j
  {
    if j < k {
      SignedItemAt(v, j + 1, k);
    }
  }

  lemma {:induction false} SignedPairAt(v: Attr, j: nat, k: nat)
    requires v.Dict? && j <= k < |v.pairs|
    ensures SignedPairs(v, j)[k - j] == Pair(v.pairs[k].key, Signed(v.pairs[k].value))
    decreases k - j
  {
    if j < k {
      SignedPairAt(v, j + 1, k);
    }
  }

  lemma {:induction false} PrintSignedPairs(v: Attr, k: nat)
    requires v.Dict? && Restorable(v) && k <= |v.pairs|
    ensures Signed(v).Dict? && |Signed(v).pairs| == |v.pairs|
    ensures PrintPairs(Signed(v), k) == PrintPairs(v, k)
    decreases v, |v.pairs| - k
  {
    if k < |v.pairs| {
      SignedPairAt(v, 0, k);
      PrintSigned(v.pairs[k].value);
      PrintSignedPairs(v, k + 1);
    }
  }

  /** For a text value the condition is exact: it survives alone exactly when it is plain. */
  lemma StringSurvives(s: string)
    ensures Parse(Print(Str(s)), 0) == Parsed(Str(s), |Print(Str(s))|) <==> Plain(s)
  {
    if Plain(s) {
      RoundTrip(Str(s));
    } else {
      var cfg := Quoted(s);
      assert cfg[0] == '"' && Skip(cfg, 0) == 0;
      var end := StringEnd(cfg, 1, '"');
      NoQuoteBefore(cfg, 1);
      if end == 1 + |s| {
        assert cfg[1..end] == s;
        assert forall k :: 0 <= k < |s| ==> s[k] == cfg[1 + k];
      }
    }
  }

  lemma {:induction false} NoQuoteBefore(cfg: string, off: nat)
    requires off <= |cfg|
    ensures forall k :: off <= k < StringEnd(cfg, off, '"') ==> cfg[k] != '"' && cfg[k] != '\0'
    decreases |cfg| - off
  {
    if off < |cfg| && cfg[off] != '"' && cfg[off] != '\0' {
      NoQuoteBefore(cfg, off + 1);
    }
  }
}
