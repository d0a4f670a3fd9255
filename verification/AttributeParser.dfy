/** Reading an attribute back from text: the specification the scanner is proved against. */
module AttributeParser {
  import Bits
  import opened AttributeTree

  /** How reading at an offset ends. `Undefined` marks text on which the original has no defined
      behaviour, `Unmodelled` a floating-point number or a reference to a registered service. */
  datatype Outcome<T> = Parsed(value: T, off: nat) | Failed | Undefined | Unmodelled {
    predicate Stopped() { !Parsed? }
  }

  function Stop<T, U>(r: Outcome<T>): Outcome<U>
    requires r.Stopped()
  {
    match r
    case Failed => Failed
    case Undefined => Undefined
    case Unmodelled => Unmodelled
  }

  /** The character at an offset of a zero-terminated text. */
  function CharAt(cfg: string, off: nat): char {
    if off < |cfg| then cfg[off] else '\0'
  }

  // ---------- specification ----------

  predicate IsSpace(c: char) {
    c == ' ' || c == '\r' || c == '\n' || c == '\t'
  }

  function Skip(cfg: string, off: nat): (r: nat)
    requires off <= |cfg|
    ensures off <= r <= |cfg| && !IsSpace(CharAt(cfg, r))
    decreases |cfg| - off
  {
    if IsSpace(CharAt(cfg, off)) then Skip(cfg, off + 1) else off
  }

  /** The next delimiter, or the end of the text. */
  function StringEnd(cfg: string, off: nat, quote: char): (r: nat)
    requires off <= |cfg|
    ensures off <= r <= |cfg|
    decreases |cfg| - off
  {
    if CharAt(cfg, off) == quote || CharAt(cfg, off) == '\0' then off else StringEnd(cfg, off + 1, quote)
  }

  function ParseString(cfg: string, off: nat): (r: Outcome<Attr>)
    requires off < |cfg| && CharAt(cfg, off) != '\0'
    ensures r.Parsed? ==> off < r.off <= |cfg| && r.value.Str?
  {
    var end := StringEnd(cfg, off + 1, cfg[off]);
    if end - (off + 1) >= 1024 then Undefined
    else if CharAt(cfg, end) != cfg[off] then Failed
    else Parsed(Str(cfg[off + 1..end]), Skip(cfg, end + 1))
  }

  /** Bitwise or. */
  function OrBits(x: nat, y: nat): nat {
    if x == 0 then y else if y == 0 then x
    else (if x % 2 == 1 || y % 2 == 1 then 1 else 0) + 2 * OrBits(x / 2, y / 2)
  }

  /** The eight bits a character adds; characters that are no digits are not refused. */
  function CharBits(c: char): nat {
    if 'A' <= c <= 'F' then c as int - 'A' as int + 10
    else if 'a' <= c <= 'f' then c as int - 'a' as int + 10
    else (c as int - '0' as int) % 256
  }

  /** The low eight bits of (b << 4) | d. */
  function ShiftIn(b: nat, d: nat): nat {
    16 * OrBits(b % 16, d / 16) + d % 16
  }

  function Nibble(b: nat, c: char): nat {
    ShiftIn(b, CharBits(c))
  }

  /** The offset behind an optional `0x`. */
  function HexPrefix(cfg: string, off: nat): nat {
    if CharAt(cfg, off) == '0' && CharAt(cfg, off + 1) == 'x' then off + 2 else off
  }

  function ByteAt(cfg: string, off: nat): nat
    requires off + 2 <= |cfg|
  {
    Nibble(Nibble(0, cfg[off]), cfg[off + 1])
  }

  /** One byte, and the offset of what follows it; the digits are not looked for beyond the end. */
  function ParseByte(cfg: string, off: nat): (r: Outcome<nat>)
    requires off <= |cfg|
    ensures r.Parsed? ==> off < r.off <= |cfg|
  {
    var o := HexPrefix(cfg, off);
    if o + 2 > |cfg| then Undefined else Parsed(ByteAt(cfg, o), Skip(cfg, o + 2))
  }

  function ParseBytes(cfg: string, off: nat, acc: seq<nat>): (r: Outcome<seq<nat>>)
    requires off <= |cfg|
    ensures r.Parsed? ==> off < r.off <= |cfg|
    decreases |cfg| - off
  {
    if CharAt(cfg, off) == ')' then Parsed(acc, Skip(cfg, off + 1))
    else if CharAt(cfg, off) == '\0' then Failed
    else
      var b := ParseByte(cfg, off);
      if b.Stopped() then Stop(b)
      else if CharAt(cfg, b.off) == ')' then Parsed(acc + [b.value], Skip(cfg, b.off + 1))
      else if CharAt(cfg, b.off) != ',' then Failed
      else ParseBytes(cfg, Skip(cfg, b.off + 1), acc + [b.value])
  }

  /** The end of a run of at most n hexadecimal digits. */
  function DigitsEnd(cfg: string, off: nat, n: nat): (r: nat)
    requires off <= |cfg|
    ensures off <= r <= |cfg|
    ensures forall k :: off <= k < r ==> IsHex(cfg[k])
    decreases n
  {
    if n == 0 || !IsHex(CharAt(cfg, off)) then off else DigitsEnd(cfg, off + 1, n - 1)
  }

  predicate AllHex(s: string) {
    forall k :: 0 <= k < |s| ==> IsHex(s[k])
  }

  /** The value of the digits up to the first one that the base does not have. */
  function Digits(s: string, base: nat, acc: nat): nat
    requires AllHex(s)
    decreases |s|
  {
    if s == [] || DigitValue(s[0]) >= base then acc
    else Digits(s[1..], base, base * acc + DigitValue(s[0]))
  }

  /** `strtoull` with base 0 on the collected digits: the prefix selects the base, too large saturates. */
  function StrToULL(hex: bool, s: string): (r: nat)
    requires AllHex(s)
    ensures r < 0x1_0000_0000_0000_0000
  {
    var base := if hex then 16 else if s != [] && s[0] == '0' then 8 else 10;
    var v := Digits(s, base, 0);
    if v < 0x1_0000_0000_0000_0000 then v else 0xFFFF_FFFF_FFFF_FFFF
  }

  /** Two's complement negation of a 64-bit number. */
  function Negated(t: int): int {
    if t == -0x8000_0000_0000_0000 then t else 0 - t
  }

  function NumberValue(hex: bool, negative: bool, digits: string): int
    requires AllHex(digits)
  {
    var t := Bits.ToInt64(StrToULL(hex, digits));
    if negative then Negated(t) else t
  }

  /** A run of digits, of which some characters are already used up by a prefix. */
  function ParseDigits(cfg: string, off: nat, used: nat, negative: bool): (r: Outcome<Attr>)
    requires off <= |cfg| && used <= 63
    ensures r.Parsed? ==> off <= r.off <= |cfg|
  {
    var end := DigitsEnd(cfg, off, 63 - used);
    if CharAt(cfg, end) == '.' then Unmodelled
    else Parsed(Int(NumberValue(used == 2, negative, cfg[off..end])), Skip(cfg, end))
  }

  function ParseNumber(cfg: string, off: nat): (r: Outcome<Attr>)
    requires off <= |cfg|
    ensures r.Parsed? ==> off <= r.off <= |cfg|
  {
    if CharAt(cfg, off) == '0' && CharAt(cfg, off + 1) == 'x' then ParseDigits(cfg, off + 2, 2, false)
    else if CharAt(cfg, off) == '-' then ParseDigits(cfg, off + 1, 0, true)
    else ParseDigits(cfg, off, 0, false)
  }

  /** Assignment through the index operator of a dictionary: the key's value is replaced, or a pair appended. */
  function Assign(pairs: seq<Pair>, key: string, value: Attr): seq<Pair> {
    if pairs == [] then [Pair(key, value)]
    else if pairs[0].key == key then [Pair(key, value)] + pairs[1..]
    else [pairs[0]] + Assign(pairs[1..], key, value)
  }

  /** The value stored under a key, `Nil` if there is none. */
  function ValueOf(pairs: seq<Pair>, key: string): Attr {
    if pairs == [] then Nil
    else if pairs[0].key == key && pairs[0].value != Nil then pairs[0].value
    else ValueOf(pairs[1..], key)
  }

  /** The first value other than nil under a key, nil if there is none. */
  ghost predicate Under(pairs: seq<Pair>, key: string, v: Attr) {
    || (v == Nil && forall j :: 0 <= j < |pairs| && pairs[j].key == key ==> pairs[j].value == Nil)
    || exists j :: UnderAt(pairs, key, v, j)
  }

  ghost predicate UnderAt(pairs: seq<Pair>, key: string, v: Attr, j: int) {
    && 0 <= j < |pairs| && pairs[j] == Pair(key, v) && v != Nil
    && forall i :: 0 <= i < j && pairs[i].key == key ==> pairs[i].value == Nil
  }

  lemma {:induction false} ValueOfIs(pairs: seq<Pair>, key: string)
    ensures Under(pairs, key, ValueOf(pairs, key))
  {
    if pairs != [] {
      var rest, v := pairs[1..], ValueOf(pairs, key);
      if pairs[0].key == key && pairs[0].value != Nil {
        assert UnderAt(pairs, key, v, 0);
      } else {
        ValueOfIs(rest, key);
        if v == Nil && forall j :: 0 <= j < |rest| && rest[j].key == key ==> rest[j].value == Nil {
          forall j | 0 <= j < |pairs| && pairs[j].key == key ensures pairs[j].value == Nil {
            assert j > 0 ==> pairs[j] == rest[j - 1];
          }
        } else {
          var j :| UnderAt(rest, key, v, j);
          UnderRest(pairs, key, v, j);
        }
      }
    }
  }

  lemma UnderRest(pairs: seq<Pair>, key: string, v: Attr, j: int)
    requires pairs != [] && (pairs[0].key == key ==> pairs[0].value == Nil) && UnderAt(pairs[1..], key, v, j)
    ensures UnderAt(pairs, key, v, j + 1)
  {
    forall i | 0 <= i < j + 1 && pairs[i].key == key ensures pairs[i].value == Nil {
      assert i > 0 ==> pairs[i] == pairs[1..][i - 1];
    }
  }

  /** The first pair with the key has got the value, or a new pair stands at the end. */
  ghost predicate Stored(pairs: seq<Pair>, key: string, value: Attr, r: seq<Pair>) {
    || ((forall j :: 0 <= j < |pairs| ==> pairs[j].key != key) && r == pairs + [Pair(key, value)])
    || exists j :: StoredAt(pairs, key, value, r, j)
  }

  ghost predicate StoredAt(pairs: seq<Pair>, key: string, value: Attr, r: seq<Pair>, j: int) {
    && 0 <= j < |pairs| && pairs[j].key == key && r == pairs[j := Pair(key, value)]
    && forall i :: 0 <= i < j ==> pairs[i].key != key
  }

  lemma {:induction false} AssignIs(pairs: seq<Pair>, key: string, value: Attr)
    ensures Stored(pairs, key, value, Assign(pairs, key, value))
  {
    if pairs != [] {
      var rest, r := pairs[1..], Assign(pairs, key, value);
      if pairs[0].key == key {
        assert r == pairs[0 := Pair(key, value)];
        assert StoredAt(pairs, key, value, r, 0);
      } else {
        AssignIs(rest, key, value);
        var t := Assign(rest, key, value);
        if forall j :: 0 <= j < |rest| ==> rest[j].key != key {
          assert forall j :: 0 < j < |pairs| ==> pairs[j] == rest[j - 1];
          assert r == pairs + [Pair(key, value)];
        } else {
          var j :| StoredAt(rest, key, value, t, j);
          StoredRest(pairs, key, value, t, j);
        }
      }
    }
  }

  lemma StoredRest(pairs: seq<Pair>, key: string, value: Attr, t: seq<Pair>, j: int)
    requires pairs != [] && pairs[0].key != key && StoredAt(pairs[1..], key, value, t, j)
    ensures StoredAt(pairs, key, value, [pairs[0]] + t, j + 1)
  {
    assert [pairs[0]] + t == pairs[j + 1 := Pair(key, value)];
    forall i | 0 <= i < j + 1 ensures pairs[i].key != key {
      assert i > 0 ==> pairs[i] == pairs[1..][i - 1];
    }
  }

  const TypeKey: string := "Type"
  const ServiceInterface: string := "IService"

  /** A dictionary that names its type stands for a service when the type is the service interface. */
  function Resolve(pairs: seq<Pair>, off: nat): (r: Outcome<Attr>)
    ensures r.Parsed? ==> r.off == off && r.value == Dict(pairs)
  {
    var t := ValueOf(pairs, TypeKey);
    if t == Nil then Parsed(Dict(pairs), off)
    else if !t.Str? then Undefined
    else if t.s == ServiceInterface then Unmodelled
    else Parsed(Dict(pairs), off)
  }

  /** What becomes of a dictionary whose first value under "Type" that is not nil is t. */
  lemma ResolveCases(pairs: seq<Pair>, off: nat, t: Attr, j: int)
    requires UnderAt(pairs, "Type", t, j)
    ensures Resolve(pairs, off) == if !t.Str? then Undefined else if t.s == "IService" then Unmodelled
                                   else Parsed(Dict(pairs), off)
  {
    ValueOfIs(pairs, TypeKey);
    var v := ValueOf(pairs, TypeKey);
    if v != Nil {
      var i :| UnderAt(pairs, "Type", v, i);
      assert i == j;
    }
  }

  /** The bits of a byte of text: those of the character, and above them those read before. */
  lemma {:induction false} OrBitsAre(x: nat, y: nat, i: nat)
    ensures Bits.Bit(OrBits(x, y), i) == 1 <==> Bits.Bit(x, i) == 1 || Bits.Bit(y, i) == 1
    decreases i
  {
    if x == 0 {
      Bits.BitAbove(0, 0, i);
    } else if y == 0 {
      Bits.BitAbove(0, 0, i);
    } else if i > 0 {
      OrBitsAre(x / 2, y / 2, i - 1);
    }
  }

  lemma ShiftInBits(b: nat, d: nat, i: nat)
    requires i < 8
    ensures Bits.Bit(ShiftIn(b, d), i) == 1 <==> Bits.Bit(d, i) == 1 || (i >= 4 && Bits.Bit(b, i - 4) == 1)
  {
    var high := OrBits(b % 16, d / 16);
    Nibbles(high, d % 16, i);
    NibbleBits(d, i);
    if i >= 4 {
      OrBitsAre(b % 16, d / 16, i - 4);
      NibbleBits(b, i - 4);
    }
  }

  /** Four bits above four others. */
  lemma Nibbles(high: nat, low: nat, i: nat)
    requires low < 16
    ensures Bits.Bit(16 * high + low, i) == if i < 4 then Bits.Bit(low, i) else Bits.Bit(high, i - 4)
  {
    Bits.Pow2Table();
    Bits.ShlPow(high, 4);
    Bits.SplitUnique(16 * high + low, 4, high, low);
    if i < 4 {
      Bits.BitOfLow(16 * high + low, 4, i);
    } else {
      Bits.BitOfShr(16 * high + low, 4, i - 4);
    }
  }

  lemma NibbleBits(v: nat, i: nat)
    ensures i < 4 ==> Bits.Bit(v % 16, i) == Bits.Bit(v, i)
    ensures i >= 4 ==> Bits.Bit(v / 16, i - 4) == Bits.Bit(v, i)
  {
    Nibbles(v / 16, v % 16, i);
    assert v == 16 * (v / 16) + v % 16;
  }

  predicate Word(cfg: string, off: nat, w: string) {
    off + |w| <= |cfg| && forall k :: 0 <= k < |w| ==> cfg[off + k] == w[k]
  }

  /** The constants and, failing those, a number; reading nothing at all is an error. */
  function ParseWord(cfg: string, o: nat): (r: Outcome<Attr>)
    requires o <= |cfg|
    ensures r.Parsed? ==> o < r.off <= |cfg|
  {
    if Word(cfg, o, "None") then Parsed(Nil, Skip(cfg, o + 4))
    else if Word(cfg, o, "false") || Word(cfg, o, "False") then Parsed(Bool(false), Skip(cfg, o + 5))
    else if Word(cfg, o, "true") || Word(cfg, o, "True") then Parsed(Bool(true), Skip(cfg, o + 4))
    else
      var r := ParseNumber(cfg, o);
      if r.Parsed? && r.off == o then Failed else r
  }

  function Parse(cfg: string, off: nat): (r: Outcome<Attr>)
    requires off <= |cfg|
    ensures r.Parsed? ==> off < r.off <= |cfg|
    decreases |cfg| - off, 0
  {
    var o := Skip(cfg, off);
    var c := CharAt(cfg, o);
    if c == '\'' || c == '"' then ParseString(cfg, o)
    else if c == '[' then
      var r := ParseItems(cfg, Skip(cfg, o + 1), []);
      if r.Stopped() then Stop(r) else Parsed(List(r.value), r.off)
    else if c == '{' then
      var r := ParsePairs(cfg, Skip(cfg, o + 1), []);
      if r.Stopped() then Stop(r) else Resolve(r.value, r.off)
    else if c == '(' then
      var r := ParseBytes(cfg, Skip(cfg, o + 1), []);
      if r.Stopped() then Stop(r) else Parsed(Data(r.value), r.off)
    else ParseWord(cfg, o)
  }

  /** The offset of the next component: behind a comma, if there is one. */
  function NextPart(cfg: string, off: nat): (r: nat)
    requires off <= |cfg|
    ensures off <= r <= |cfg|
  {
    var o := Skip(cfg, off);
    if CharAt(cfg, o) == ',' then Skip(cfg, o + 1) else o
  }

  function ParseItems(cfg: string, off: nat, acc: seq<Attr>): (r: Outcome<seq<Attr>>)
    requires off <= |cfg|
    ensures r.Parsed? ==> off < r.off <= |cfg|
    decreases |cfg| - off, 1
  {
    if CharAt(cfg, off) == ']' then Parsed(acc, Skip(cfg, off + 1))
    else if CharAt(cfg, off) == '\0' then Failed
    else
      var r := Parse(cfg, off);
      if r.Stopped() then Stop(r) else ParseItems(cfg, NextPart(cfg, r.off), acc + [r.value])
  }

  /** Only text can be a key. */
  function EntryOf(key: Attr, v: Outcome<Attr>): Outcome<Pair> {
    if v.Stopped() then Stop(v)
    else if !key.Str? then Undefined
    else Parsed(Pair(key.s, v.value), v.off)
  }

  /** One `key : value` entry. */
  function ParseEntry(cfg: string, off: nat): (r: Outcome<Pair>)
    requires off <= |cfg|
    ensures r.Parsed? ==> off < r.off <= |cfg|
    decreases |cfg| - off, 1
  {
    var k := Parse(cfg, off);
    if k.Stopped() then Stop(k)
    else
      var o := Skip(cfg, k.off);
      if CharAt(cfg, o) != ':' then Failed
      else
        EntryOf(k.value, Parse(cfg, Skip(cfg, o + 1)))
  }

  function ParsePairs(cfg: string, off: nat, acc: seq<Pair>): (r: Outcome<seq<Pair>>)
    requires off <= |cfg|
    ensures r.Parsed? ==> off < r.off <= |cfg|
    decreases |cfg| - off, 2
  {
    if CharAt(cfg, off) == '}' then Parsed(acc, Skip(cfg, off + 1))
    else if CharAt(cfg, off) == '\0' then Failed
    else
      var r := ParseEntry(cfg, off);
      if r.Stopped() then Stop(r)
      else ParsePairs(cfg, NextPart(cfg, r.off), Assign(acc, r.value.key, r.value.value))
  }

  // ---------- the grammar, case by case ----------

  lemma ParseIsString(cfg: string, off: nat, o: nat)
    requires off <= |cfg| && o == Skip(cfg, off) && (CharAt(cfg, o) == '\'' || CharAt(cfg, o) == '"')
    ensures Parse(cfg, off) == ParseString(cfg, o)
  {
  }

  lemma ParseIsList(cfg: string, off: nat, o: nat)
    requires off <= |cfg| && o == Skip(cfg, off) && CharAt(cfg, o) == '['
    ensures var r := ParseItems(cfg, Skip(cfg, o + 1), []);
            Parse(cfg, off) == if r.Stopped() then Stop(r) else Parsed(List(r.value), r.off)
  {
  }

  lemma ParseIsDict(cfg: string, off: nat, o: nat)
    requires off <= |cfg| && o == Skip(cfg, off) && CharAt(cfg, o) == '{'
    ensures var r := ParsePairs(cfg, Skip(cfg, o + 1), []);
            Parse(cfg, off) == if r.Stopped() then Stop(r) else Resolve(r.value, r.off)
  {
  }

  lemma ParseIsData(cfg: string, off: nat, o: nat)
    requires off <= |cfg| && o == Skip(cfg, off) && CharAt(cfg, o) == '('
    ensures var r := ParseBytes(cfg, Skip(cfg, o + 1), []);
            Parse(cfg, off) == if r.Stopped() then Stop(r) else Parsed(Data(r.value), r.off)
  {
  }

  lemma ParseIsWord(cfg: string, off: nat, o: nat)
    requires off <= |cfg| && o == Skip(cfg, off)
    requires var c := CharAt(cfg, o); c != '\'' && c != '"' && c != '[' && c != '{' && c != '('
    ensures Parse(cfg, off) == ParseWord(cfg, o)
  {
  }

  lemma EntryIs(cfg: string, start: nat, key: Outcome<Attr>, off: nat, value: Outcome<Attr>)
    requires start <= |cfg| && key == Parse(cfg, start) && key.Parsed?
    requires off == Skip(cfg, key.off) && CharAt(cfg, off) == ':' && value == Parse(cfg, Skip(cfg, off + 1))
    ensures ParseEntry(cfg, start) == EntryOf(key.value, value)
  {
  }
}
