/** The scanner that advances an offset through the text, proved against the grammar. */
module AttributeScanner {
  import opened AttributeTree
  import opened AttributeParser

  method SkipSpecialSymbols(cfg: string, start: nat) returns (off: nat)
    requires start <= |cfg|
    ensures off == Skip(cfg, start)
  {
    off := start;
    while IsSpace(CharAt(cfg, off))
      invariant start <= off <= |cfg| && Skip(cfg, start) == Skip(cfg, off)
      decreases |cfg| - off
    {
      off := off + 1;
    }
  }

  method ScanString(cfg: string, start: nat) returns (r: Outcome<Attr>)
    requires start < |cfg| && CharAt(cfg, start) != '\0'
    ensures r == ParseString(cfg, start)
  {
    var quote, off, size := cfg[start], start + 1, 0;
    while CharAt(cfg, off + size) != quote && CharAt(cfg, off + size) != '\0'
      invariant off + size <= |cfg| && StringEnd(cfg, off, quote) == StringEnd(cfg, off + size, quote)
      decreases |cfg| - (off + size)
    {
      size := size + 1;
    }
    if size >= 1024 {
      return Undefined;
    }
    var s := cfg[off..off + size];
    off := off + size;
    if CharAt(cfg, off) != quote {
      return Failed;
    }
    off := SkipSpecialSymbols(cfg, off + 1);
    r := Parsed(Str(s), off);
  }

  method ScanNibbles(cfg: string, start: nat) returns (value: nat)
    requires start + 2 <= |cfg|
    ensures value == ByteAt(cfg, start)
  {
    value := 0;
    for n := 0 to 2
      invariant value == if n == 0 then 0 else if n == 1 then Nibble(0, cfg[start]) else ByteAt(cfg, start)
    {
      value := Nibble(value, cfg[start + n]);
    }
  }

  method ScanPrefix(cfg: string, start: nat) returns (off: nat)
    ensures off == HexPrefix(cfg, start)
  {
    off := start;
    if CharAt(cfg, off) == '0' && CharAt(cfg, off + 1) == 'x' {
      off := off + 2;
    }
  }

  method ScanByte(cfg: string, start: nat) returns (r: Outcome<nat>)
    requires start <= |cfg|
    ensures r == ParseByte(cfg, start)
  {
    var off := ScanPrefix(cfg, start);
    if off + 2 > |cfg| {
      return Undefined;
    }
    var value := ScanNibbles(cfg, off);
    var next := SkipSpecialSymbols(cfg, off + 2);
    r := Parsed(value, next);
  }

  method ScanBytes(cfg: string, start: nat) returns (r: Outcome<seq<nat>>)
    requires start <= |cfg|
    ensures r == ParseBytes(cfg, start, [])
  {
    var off, buf := start, [];
    while CharAt(cfg, off) != ')' && CharAt(cfg, off) != '\0'
      invariant off <= |cfg| && ParseBytes(cfg, start, []) == ParseBytes(cfg, off, buf)
      decreases |cfg| - off
    {
      var b := ScanByte(cfg, off);
      if b.Stopped() {
        return Stop(b);
      }
      buf, off := buf + [b.value], b.off;
      if CharAt(cfg, off) == ')' {
        break;
      }
      if CharAt(cfg, off) != ',' {
        return Failed;
      }
      off := SkipSpecialSymbols(cfg, off + 1);
    }
    if CharAt(cfg, off) != ')' {
      return Failed;
    }
    off := SkipSpecialSymbols(cfg, off + 1);
    r := Parsed(buf, off);
  }

  method ScanDigits(cfg: string, start: nat, used: nat) returns (digits: string, off: nat)
    requires start <= |cfg| && used <= 63
    ensures off == DigitsEnd(cfg, start, 63 - used) && digits == cfg[start..off]
  {
    digits, off := "", start;
    var count := used;
    while count < 63 && IsHex(CharAt(cfg, off))
      invariant start <= off <= |cfg| && count <= 63
      invariant digits == cfg[start..off]
      invariant DigitsEnd(cfg, start, 63 - used) == DigitsEnd(cfg, off, 63 - count)
      decreases |cfg| - off
    {
      assert cfg[start..off + 1] == cfg[start..off] + [cfg[off]];
      digits := digits + [cfg[off]];
      off, count := off + 1, count + 1;
    }
  }

  method ScanRun(cfg: string, start: nat, used: nat, negative: bool) returns (r: Outcome<Attr>)
    requires start <= |cfg| && used <= 63
    ensures r == ParseDigits(cfg, start, used, negative)
  {
    var digits, off := ScanDigits(cfg, start, used);
    if CharAt(cfg, off) == '.' {
      return Unmodelled;
    }
    var t := NumberValue(used == 2, negative, digits);
    off := SkipSpecialSymbols(cfg, off);
    r := Parsed(Int(t), off);
  }

  method ScanNumber(cfg: string, start: nat) returns (r: Outcome<Attr>)
    requires start <= |cfg|
    ensures r == ParseNumber(cfg, start)
  {
    var off, count, negative := start, 0, false;
    if CharAt(cfg, off) == '0' && CharAt(cfg, off + 1) == 'x' {
      off, count := off + 2, 2;
    } else if CharAt(cfg, off) == '-' {
      off, negative := off + 1, true;
    }
    r := ScanRun(cfg, off, count, negative);
  }

  /** Linear search for the key; a new pair goes to the end. */
  method AssignKey(pairs: seq<Pair>, key: string, value: Attr) returns (r: seq<Pair>)
    ensures r == Assign(pairs, key, value) && Stored(pairs, key, value, r)
  {
    AssignIs(pairs, key, value);
    for i := 0 to |pairs|
      invariant Assign(pairs, key, value) == pairs[..i] + Assign(pairs[i..], key, value)
    {
      AssignStep(pairs, i, key, value);
      if pairs[i].key == key {
        return pairs[i := Pair(key, value)];
      }
    }
    r := pairs + [Pair(key, value)];
  }

  lemma {:induction false} AssignStep(pairs: seq<Pair>, i: nat, key: string, value: Attr)
    requires i < |pairs|
    ensures pairs[..i] + Assign(pairs[i..], key, value) ==
            if pairs[i].key == key then pairs[i := Pair(key, value)]
            else pairs[..i + 1] + Assign(pairs[i + 1..], key, value)
  {
    var tail := pairs[i..];
    assert tail[0] == pairs[i] && tail[1..] == pairs[i + 1..];
    if pairs[i].key == key {
      assert Assign(tail, key, value) == [Pair(key, value)] + tail[1..];
    } else {
      Shift(pairs, i, Assign(tail[1..], key, value));
    }
  }

  lemma Shift(pairs: seq<Pair>, i: nat, rest: seq<Pair>)
    requires i < |pairs|
    ensures pairs[..i] + ([pairs[i]] + rest) == pairs[..i + 1] + rest
  {
  }

  /** Is there a value other than nil under the key? */
  method FindKey(pairs: seq<Pair>, key: string) returns (r: Attr)
    ensures r == ValueOf(pairs, key) && Under(pairs, key, r)
  {
    ValueOfIs(pairs, key);
    for i := 0 to |pairs|
      invariant ValueOf(pairs, key) == ValueOf(pairs[i..], key)
    {
      if pairs[i].key == key && pairs[i].value != Nil {
        return pairs[i].value;
      }
      assert pairs[i..][1..] == pairs[i + 1..];
    }
    r := Nil;
  }

  method ScanItems(cfg: string, start: nat) returns (r: Outcome<seq<Attr>>)
    requires start <= |cfg|
    ensures r == ParseItems(cfg, start, [])
    decreases |cfg| - start, 1
  {
    var off, items := start, [];
    while CharAt(cfg, off) != ']' && CharAt(cfg, off) != '\0'
      invariant start <= off <= |cfg| && ParseItems(cfg, start, []) == ParseItems(cfg, off, items)
      decreases |cfg| - off
    {
      var item := StringToAttribute(cfg, off);
      if item.Stopped() {
        return Stop(item);
      }
      items := items + [item.value];
      off := ScanNextPart(cfg, item.off);
    }
    if CharAt(cfg, off) != ']' {
      return Failed;
    }
    off := SkipSpecialSymbols(cfg, off + 1);
    r := Parsed(items, off);
  }

  method ScanNextPart(cfg: string, start: nat) returns (off: nat)
    requires start <= |cfg|
    ensures off == NextPart(cfg, start)
  {
    off := SkipSpecialSymbols(cfg, start);
    if CharAt(cfg, off) == ',' {
      off := SkipSpecialSymbols(cfg, off + 1);
    }
  }

  method ScanEntry(cfg: string, start: nat) returns (r: Outcome<Pair>)
    requires start <= |cfg|
    ensures r == ParseEntry(cfg, start)
    decreases |cfg| - start, 1
  {
    var key := StringToAttribute(cfg, start);
    if key.Stopped() {
      return Stop(key);
    }
    var off := SkipSpecialSymbols(cfg, key.off);
    if CharAt(cfg, off) != ':' {
      return Failed;
    }
    var first := SkipSpecialSymbols(cfg, off + 1);
    var value := StringToAttribute(cfg, first);
    EntryIs(cfg, start, key, off, value);
    r := EntryOf(key.value, value);
  }

  method ScanPairs(cfg: string, start: nat) returns (r: Outcome<seq<Pair>>)
    requires start <= |cfg|
    ensures r == ParsePairs(cfg, start, [])
    decreases |cfg| - start, 2
  {
    var off, pairs := start, [];
    while CharAt(cfg, off) != '}' && CharAt(cfg, off) != '\0'
      invariant start <= off <= |cfg| && ParsePairs(cfg, start, []) == ParsePairs(cfg, off, pairs)
      decreases |cfg| - off
    {
      var entry := ScanEntry(cfg, off);
      if entry.Stopped() {
        return Stop(entry);
      }
      pairs := AssignKey(pairs, entry.value.key, entry.value.value);
      off := ScanNextPart(cfg, entry.off);
    }
    if CharAt(cfg, off) != '}' {
      return Failed;
    }
    off := SkipSpecialSymbols(cfg, off + 1);
    r := Parsed(pairs, off);
  }

  method ResolveDict(pairs: seq<Pair>, off: nat) returns (r: Outcome<Attr>)
    ensures r == Resolve(pairs, off)
  {
    r := Parsed(Dict(pairs), off);
    var t := FindKey(pairs, TypeKey);
    if t != Nil {
      if !t.Str? {
        return Undefined;
      }
      if t.s == ServiceInterface {
        return Unmodelled;
      }
    }
  }

  /** `string_to_attribute`: what is read at an offset, and where the next character to read is. */
  method StringToAttribute(cfg: string, start: nat) returns (r: Outcome<Attr>)
    requires start <= |cfg|
    ensures r == Parse(cfg, start)
    decreases |cfg| - start, 0
  {
    var off := SkipSpecialSymbols(cfg, start);
    var c := CharAt(cfg, off);
    if c == '\'' || c == '"' {
      r := ScanString(cfg, off);
      ParseIsString(cfg, start, off);
    } else if c == '[' {
      var first := SkipSpecialSymbols(cfg, off + 1);
      var items := ScanItems(cfg, first);
      r := if items.Stopped() then Stop(items) else Parsed(List(items.value), items.off);
      ParseIsList(cfg, start, off);
    } else if c == '{' {
      r := ScanDict(cfg, off);
      ParseIsDict(cfg, start, off);
    } else if c == '(' {
      var first := SkipSpecialSymbols(cfg, off + 1);
      var bytes := ScanBytes(cfg, first);
      r := if bytes.Stopped() then Stop(bytes) else Parsed(Data(bytes.value), bytes.off);
      ParseIsData(cfg, start, off);
    } else {
      r := ScanWord(cfg, off);
      ParseIsWord(cfg, start, off);
    }
  }

  method ScanDict(cfg: string, off: nat) returns (r: Outcome<Attr>)
    requires off < |cfg|
    ensures var p := ParsePairs(cfg, Skip(cfg, off + 1), []);
            r == if p.Stopped() then Stop(p) else Resolve(p.value, p.off)
    decreases |cfg| - off - 1, 3
  {
    var first := SkipSpecialSymbols(cfg, off + 1);
    var pairs := ScanPairs(cfg, first);
    if pairs.Stopped() {
      return Stop(pairs);
    }
    r := ResolveDict(pairs.value, pairs.off);
  }

  /** The constants and, failing those, a number; reading nothing at all is an error. */
  method ScanWord(cfg: string, start: nat) returns (r: Outcome<Attr>)
    requires start <= |cfg|
    ensures r == ParseWord(cfg, start)
  {
    var off := start;
    if Word(cfg, off, "None") {
      off := SkipSpecialSymbols(cfg, off + 4);
      r := Parsed(Nil, off);
    } else if Word(cfg, off, "false") || Word(cfg, off, "False") {
      off := SkipSpecialSymbols(cfg, off + 5);
      r := Parsed(Bool(false), off);
    } else if Word(cfg, off, "true") || Word(cfg, off, "True") {
      off := SkipSpecialSymbols(cfg, off + 4);
      r := Parsed(Bool(true), off);
    } else {
      r := ScanNumber(cfg, off);
      if r.Parsed? && r.off == start {
        return Failed;
      }
    }
  }
}
