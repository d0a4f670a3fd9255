/** Attribute values and their textual form. */
module AttributeTree {
  import opened Bits

  datatype Pair = Pair(key: string, value: Attr)

  datatype Attr =
    | Nil
    | Int(i: int)
    | UInt(u: nat)
    | Bool(b: bool)
    | Str(s: string)
    | Data(bytes: seq<nat>)
    | List(items: seq<Attr>)
    | Dict(pairs: seq<Pair>)

  lemma SignRoundTrip(i: int)
    requires -0x8000_0000_0000_0000 <= i < 0x8000_0000_0000_0000
    ensures Wrap64(i) < 0x1_0000_0000_0000_0000 && ToInt64(Wrap64(i)) == i
  {
  }

  // ---------- hexadecimal text ----------

  function Digit(d: nat, ten: char): char
    requires d < 16 && (ten == 'a' || ten == 'A')
  {
    if d < 10 then ('0' as int + d) as char else (ten as int + (d - 10)) as char
  }

  predicate IsHex(c: char) {
    '0' <= c <= '9' || 'a' <= c <= 'f' || 'A' <= c <= 'F'
  }

  function DigitValue(c: char): nat
    requires IsHex(c)
  {
    if c <= '9' then c as int - '0' as int
    else if c <= 'F' then c as int - 'A' as int + 10
    else c as int - 'a' as int + 10
  }

  lemma DigitRoundTrip(d: nat, ten: char)
    requires d < 16 && (ten == 'a' || ten == 'A')
    ensures IsHex(Digit(d, ten)) && DigitValue(Digit(d, ten)) == d
  {
  }

  /** Lower-case hexadecimal digits without leading zeros, as `%x` prints them. */
  function Hex(n: nat): string {
    if n < 16 then [Digit(n, 'a')] else Hex(n / 16) + [Digit(n % 16, 'a')]
  }

  /** A byte as `%02X` prints it. */
  function ByteText(b: nat): string {
    [Digit(b % 256 / 16, 'A'), Digit(b % 16, 'A')]
  }

  // ---------- the printed form ----------

  function Quoted(s: string): string {
    ['"'] + s + ['"']
  }

  function Print(v: Attr): string
    decreases v, Parts(v) + 1
  {
    match v
    case Nil => "None"
    case Int(i) => "0x" + Hex(Wrap64(i))
    case UInt(u) => "0x" + Hex(u)
    case Bool(b) => if b then "True" else "False"
    case Str(s) => Quoted(s)
    case Data(bytes) => "(" + PrintBytes(bytes, 0) + ")"
    case List(items) => "[" + PrintItems(v, 0) + "]"
    case Dict(pairs) => "{" + PrintPairs(v, 0) + "}"
  }

  /** The number of components of a value. */
  function Parts(v: Attr): nat {
    match v
    case Data(bytes) => |bytes|
    case List(items) => |items|
    case Dict(pairs) => |pairs|
    case _ => 0
  }

  /** A comma before all but the last component. */
  function Comma(k: nat, n: nat): string {
    if k + 1 < n then "," else ""
  }

  function PrintBytes(bytes: seq<nat>, k: nat): string
    requires k <= |bytes|
    decreases |bytes| - k
  {
    if k == |bytes| then "" else "0x" + ByteText(bytes[k]) + Comma(k, |bytes|) + PrintBytes(bytes, k + 1)
  }

  function PrintItems(v: Attr, k: nat): string
    requires v.List? && k <= |v.items|
    decreases v, |v.items| - k
  {
    if k == |v.items| then "" else Print(v.items[k]) + Comma(k, |v.items|) + PrintItems(v, k + 1)
  }

  function PrintPairs(v: Attr, k: nat): string
    requires v.Dict? && k <= |v.pairs|
    decreases v, |v.pairs| - k
  {
    if k == |v.pairs| then ""
    else Quoted(v.pairs[k].key) + ":" + Print(v.pairs[k].value) + Comma(k, |v.pairs|) + PrintPairs(v, k + 1)
  }

  // ---------- the printer ----------

  /** An append-only text buffer. */
  class AutoBuffer {
    var text: string

    constructor ()
      ensures text == ""
    {
      text := "";
    }

    method WriteString(s: string)
      modifies this
      ensures text == old(text) + s
    {
      text := text + s;
    }

    method WriteUInt64(v: nat)
      modifies this
      ensures text == old(text) + ("0x" + Hex(v))
    {
      text := text + ("0x" + Hex(v));
    }

    method WriteByte(v: nat)
      modifies this
      ensures text == old(text) + ("0x" + ByteText(v))
    {
      text := text + ("0x" + ByteText(v));
    }
  }

  /** `attribute_to_string`: the printed form is appended to the buffer. */
  method AttributeToString(v: Attr, buf: AutoBuffer)
    modifies buf
    ensures buf.text == old(buf.text) + Print(v)
    decreases v, 1
  {
    match v {
      case Nil => buf.WriteString("None");
      case Int(i) => buf.WriteUInt64(Wrap64(i));
      case UInt(u) => buf.WriteUInt64(u);
      case Bool(b) =>
        if b {
          buf.WriteString("True");
        } else {
          buf.WriteString("False");
        }
      case Str(s) =>
        buf.WriteString("\"");
        buf.WriteString(s);
        buf.WriteString("\"");
      case Data(bytes) => BytesToString(bytes, buf);
      case List(_) => ListToString(v, buf);
      case Dict(_) => DictToString(v, buf);
    }
  }

  /** Appending one more piece in front of what is still to come. */
  lemma Piece(done: string, piece: string, comma: string, rest: string, close: string)
    ensures done + (piece + comma + rest) + close == done + piece + comma + rest + close
  {
    assert piece + comma + rest == piece + (comma + rest);
    assert done + (piece + (comma + rest)) == done + piece + (comma + rest);
    assert done + piece + (comma + rest) == done + piece + comma + rest;
  }

  lemma NoComma(s: string)
    ensures s + "" == s
  {
  }

  method BytesToString(bytes: seq<nat>, buf: AutoBuffer)
    modifies buf
    ensures buf.text == old(buf.text) + ("(" + PrintBytes(bytes, 0) + ")")
  {
    ghost var whole := old(buf.text) + ("(" + PrintBytes(bytes, 0) + ")");
    buf.WriteString("(");
    if |bytes| > 0 {
      for n := 0 to |bytes| - 1
        invariant whole == buf.text + PrintBytes(bytes, n) + ")"
      {
        Piece(buf.text, "0x" + ByteText(bytes[n]), Comma(n, |bytes|), PrintBytes(bytes, n + 1), ")");
        buf.WriteByte(bytes[n]);
        buf.WriteString(",");
      }
      LastByte(bytes);
      buf.WriteByte(bytes[|bytes| - 1]);
    }
    buf.WriteString(")");
  }

  lemma LastByte(bytes: seq<nat>)
    requires |bytes| > 0
    ensures PrintBytes(bytes, |bytes| - 1) == "0x" + ByteText(bytes[|bytes| - 1])
  {
    var last := "0x" + ByteText(bytes[|bytes| - 1]);
    assert PrintBytes(bytes, |bytes|) == "";
    assert PrintBytes(bytes, |bytes| - 1) == last + "" + "";
  }

  method ListToString(v: Attr, buf: AutoBuffer)
    requires v.List?
    modifies buf
    ensures buf.text == old(buf.text) + ("[" + PrintItems(v, 0) + "]")
    decreases v, 0
  {
    ghost var whole := old(buf.text) + ("[" + PrintItems(v, 0) + "]");
    buf.WriteString("[");
    for i := 0 to |v.items|
      invariant whole == buf.text + PrintItems(v, i) + "]"
    {
      Piece(buf.text, Print(v.items[i]), Comma(i, |v.items|), PrintItems(v, i + 1), "]");
      AttributeToString(v.items[i], buf);
      NoComma(buf.text);
      if i < |v.items| - 1 {
        buf.WriteString(",");
      }
    }
    buf.WriteString("]");
  }

  method DictToString(v: Attr, buf: AutoBuffer)
    requires v.Dict?
    modifies buf
    ensures buf.text == old(buf.text) + ("{" + PrintPairs(v, 0) + "}")
    decreases v, 0
  {
    ghost var whole := old(buf.text) + ("{" + PrintPairs(v, 0) + "}");
    buf.WriteString("{");
    for i := 0 to |v.pairs|
      invariant whole == buf.text + PrintPairs(v, i) + "}"
    {
      ghost var done := buf.text;
      ghost var entry := Quoted(v.pairs[i].key) + ":" + Print(v.pairs[i].value);
      Piece(done, entry, Comma(i, |v.pairs|), PrintPairs(v, i + 1), "}");
      KeyToString(v.pairs[i].key, buf);
      AttributeToString(v.pairs[i].value, buf);
      Entry(done, Quoted(v.pairs[i].key) + ":", Print(v.pairs[i].value));
      NoComma(buf.text);
      if i < |v.pairs| - 1 {
        buf.WriteString(",");
      }
    }
    buf.WriteString("}");
  }

  lemma Entry(done: string, key: string, value: string)
    ensures done + key + value == done + (key + value)
  {
  }

  method KeyToString(key: string, buf: AutoBuffer)
    modifies buf
    ensures buf.text == old(buf.text) + (Quoted(key) + ":")
  {
    buf.WriteString("\"");
    buf.WriteString(key);
    buf.WriteString("\"");
    buf.WriteString(":");
  }
}
