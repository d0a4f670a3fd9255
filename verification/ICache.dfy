/** The instruction cache: an even and an odd bank of four ways with 64 lines of 32 bytes, a rotating
    replacement word per set, and fetches of two half-words that may straddle two lines. There is no
    valid bit: a line answers as soon as its tag matches. */
module ICache {

  const TAG_LIMIT: nat := 0x10_0000       // tags have 20 bits

  /** What the system bus holds at each byte address. */
  type Bus = nat -> nat

  function HalfWord(bus: Bus, a: nat): nat {
    bus(a) + 256 * bus(a + 1)
  }

  function Word32(bus: Bus, a: nat): (nat, nat) {
    (HalfWord(bus, a), HalfWord(bus, a + 2))
  }

  /** A 64-bit register, as the four half-words of its `buf16` view. */
  datatype Reg64 = Reg64(b0: nat, b1: nat, b2: nat, b3: nat) {
    function Buf16(b: nat): nat {
      if b == 0 then b0 else if b == 1 then b1 else if b == 2 then b2 else b3
    }
  }

  /** An eight-byte bus read. */
  function Word64(bus: Bus, a: nat): Reg64 {
    Reg64(HalfWord(bus, a), HalfWord(bus, a + 2), HalfWord(bus, a + 4), HalfWord(bus, a + 6))
  }

  // ---------- address fields ----------

  /** A line of the bus: the cache sees its tag, index and bank, and drops the address bits from 32 on. */
  datatype BusLine = BusLine(top: nat, tag: nat, index: nat, odd: nat) {
    /** The line's address within 32 bits. */
    function Base(): nat { 4096 * tag + 64 * index + 32 * odd }
    /** The line's full address. */
    function Address(): nat { 0x1_0000_0000 * top + Base() }
    predicate Fits() { tag < TAG_LIMIT && index < 64 && odd <= 1 }

    /** The following line, which lies in the other bank. */
    function Next(): BusLine {
      if odd == 0 then BusLine(top, tag, index, 1)
      else if index < 63 then BusLine(top, tag, index + 1, 0)
      else if tag + 1 < TAG_LIMIT then BusLine(top, tag + 1, 0, 0)
      else BusLine(top + 1, 0, 0, 0)
    }
  }

  datatype Place = Place(line: BusLine, off: nat) {
    /** A fetch reaches into the following line when it starts at its last half-word. */
    predicate Straddles() { off >= 30 }
  }

  predicate At(p: Place, adr: nat) {
    adr == p.line.Address() + p.off && p.line.Fits() && p.off < 32
  }

  /** The `getAdr*` functions: every field cut out with a mask and a shift. */
  function Cut(adr: nat): Place {
    Place(BusLine(adr / 0x1_0000_0000, adr % 0x1_0000_0000 / 4096, adr % 4096 / 64, adr / 32 % 2), adr % 32)
  }

  function AdrLine(adr: nat): nat { adr % 0x1_0000_0000 / 32 * 32 }

  lemma CutAt(adr: nat)
    ensures At(Cut(adr), adr)
  {
    var top, low := adr / 0x1_0000_0000, adr % 0x1_0000_0000;
    var t, r := low / 4096, low % 4096;
    LowBits(adr, 0x10_0000 * top + t, r);
    var i, s := r / 64, r % 64;
    SplitLine(adr, 0x400_0000 * top + 64 * t + i, s);
  }

  lemma LowBits(adr: nat, q: nat, r: nat)
    requires adr == 4096 * q + r && r < 4096
    ensures adr % 4096 == r
  {
  }

  lemma SplitLine(adr: nat, q: nat, s: nat)
    requires adr == 64 * q + s && s < 64
    ensures s == 32 * (adr / 32 % 2) + adr % 32
  {
    assert adr / 32 == 2 * q + s / 32;
  }

  lemma AtUnique(p: Place, o: Place, adr: nat)
    requires At(p, adr) && At(o, adr)
    ensures p == o
  {
    var l, m := p.line, o.line;
    assert l.Base() + p.off < 0x1_0000_0000 && m.Base() + o.off < 0x1_0000_0000;
    assert l.top == m.top;
    assert l.tag == m.tag;
    assert l.index == m.index;
    assert l.odd == m.odd;
  }

  /** The fields of an address, by the equation that defines them. */
  ghost function PlaceOf(adr: nat): (p: Place)
    ensures At(p, adr)
  {
    CutAt(adr);
    var p :| At(p, adr);
    p
  }

  method Split(adr: nat) returns (p: Place)
    ensures p == PlaceOf(adr)
  {
    p := Cut(adr);
    CutAt(adr);
    AtUnique(p, PlaceOf(adr), adr);
  }

  lemma PlaceIs(p: Place, adr: nat)
    requires At(p, adr)
    ensures PlaceOf(adr) == p
  {
    AtUnique(p, PlaceOf(adr), adr);
  }

  lemma LineOf(adr: nat, top: nat, q: nat, off: nat)
    requires adr == 0x1_0000_0000 * top + 32 * q + off && off < 32 && q < 0x800_0000
    ensures adr % 32 == off && AdrLine(adr) == 32 * q
  {
    assert adr % 0x1_0000_0000 == 32 * q + off;
  }

  lemma LineAt(p: Place, adr: nat)
    requires At(p, adr)
    ensures adr % 32 == p.off && AdrLine(adr) == p.line.Base()
  {
    LineOf(adr, p.line.top, 128 * p.line.tag + 2 * p.line.index + p.line.odd, p.off);
  }

  lemma NextFits(l: BusLine)
    requires l.Fits()
    ensures l.Next().Fits() && l.Next().odd == 1 - l.odd && l.Next().Address() == l.Address() + 32
    ensures l.Next().Base() != l.Base()
  {
  }

  /** The next half-word lies in the same line, or at the start of the following line. */
  lemma NextHalf(addr: nat)
    ensures var p := PlaceOf(addr);
            PlaceOf(addr + 2) ==
              if p.Straddles() then Place(p.line.Next(), p.off - 30) else Place(p.line, p.off + 2)
  {
    var p := PlaceOf(addr);
    if p.Straddles() {
      NextFits(p.line);
      PlaceInLine(p.line.Next(), p.off - 30, p.line.Next().Address(), addr + 2);
    } else {
      PlaceInLine(p.line, p.off + 2, p.line.Address(), addr + 2);
    }
  }

  lemma PlaceInLine(l: BusLine, off: nat, base: nat, adr: nat)
    requires l.Fits() && off < 32 && base == l.Address() && adr == base + off
    ensures PlaceOf(adr) == Place(l, off)
  {
    PlaceIs(Place(l, off), adr);
  }

  method UseOverlay(addr: nat) returns (b: bool)
    ensures b <==> PlaceOf(addr).Straddles()
  {
    LineAt(PlaceOf(addr), addr);
    b := addr % 32 / 2 == 15;
  }

  method CrossesLine(addr: nat) returns (b: bool)
    ensures b <==> PlaceOf(addr).Straddles()
  {
    NextHalf(addr);
    NextFits(PlaceOf(addr).line);
    LineAt(PlaceOf(addr), addr);
    LineAt(PlaceOf(addr + 2), addr + 2);
    b := AdrLine(addr) != AdrLine(addr + 2);
  }

  /** The line looked up in the other bank. */
  method Overlay(addr: nat) returns (tag: nat, index: nat)
    ensures var l := PlaceOf(addr).line.Next(); tag == l.tag && index == l.index
  {
    ghost var p := PlaceOf(addr);
    ghost var l := p.line.Next();
    NextFits(p.line);
    LineAt(Place(l, p.off), addr + 32);
    var o := Split(AdrLine(addr + 32));
    AtUnique(o, Place(l.(top := 0), 0), AdrLine(addr + 32));
    tag, index := o.line.tag, o.line.index;
  }

  // ---------- one bank ----------

  datatype Line = Line(tag: nat, mem64: seq<Reg64>) {
    ghost predicate Shape() { |mem64| == 4 }
  }

  /** Ways (each a sequence of lines) and the replacement words of one bank. */
  datatype Bank = Bank(ways: seq<seq<Line>>, lru: seq<nat>) {
    ghost predicate Shape() { ShapedWays(ways) && |lru| == 64 }
  }

  ghost predicate ShapedWays(ways: seq<seq<Line>>) {
    && |ways| == 4
    && (forall n :: 0 <= n < 4 ==> |ways[n]| == 64)
    && (forall n, i :: 0 <= n < 4 && 0 <= i < 64 ==> ways[n][i].Shape())
  }

  ghost predicate HoldsBus(bus: Bus, line: Line, base: nat) {
    line.Shape() && forall w :: 0 <= w < 4 ==> line.mem64[w] == Word64(bus, base + 8 * w)
  }

  /** One half-word of a line, wrapping inside it. */
  function LineHalf(line: Line, off: nat): nat
    requires line.Shape()
  {
    line.mem64[off / 8 % 4].Buf16(off / 2 % 4)
  }

  /** The number of the half-word an address lies in. */
  ghost function Half(a: nat): (h: nat)
    ensures 2 * h <= a <= 2 * h + 1
  {
    assert 2 * (a / 2) <= a <= 2 * (a / 2) + 1;
    var h: nat :| 2 * h <= a <= 2 * h + 1;
    h
  }

  /** An address with its lowest bit cleared. */
  ghost function Even(a: nat): nat { 2 * Half(a) }

  lemma HalfPosition(off: nat)
    requires off < 32
    ensures off / 8 % 4 == off / 8 < 4 && off / 2 % 4 < 4 && Even(off) == 8 * (off / 8) + 2 * (off / 2 % 4)
  {
    assert Half(off) == off / 2;
  }

  lemma LineHalfIsBus(bus: Bus, line: Line, base: nat, off: nat)
    requires HoldsBus(bus, line, base) && off < 32
    ensures LineHalf(line, off) == HalfWord(bus, base + Even(off))
  {
    HalfPosition(off);
    assert line.mem64[off / 8] == Word64(bus, base + 8 * (off / 8));
  }

  // ---------- replacement ----------

  /** The replacement word whose next victim is way k: a rotation of 0, 1, 2, 3 packed in two bits each. */
  function Rotation(k: nat): nat {
    if k == 0 then 0xE4 else if k == 1 then 0x39 else if k == 2 then 0x4E else 0x93
  }

  predicate IsRotation(b: nat) {
    b == Rotation(b % 4)
  }

  /** The victim moves to the end of the word. */
  function NextLru(b: nat): nat {
    b / 4 + b % 4 * 64
  }

  lemma NextLruRotates(b: nat)
    requires IsRotation(b)
    ensures IsRotation(NextLru(b)) && NextLru(b) % 4 == (b % 4 + 1) % 4
  {
  }

  /** The line as the bus holds it. */
  function Image(bus: Bus, l: BusLine): Line {
    var base := l.Address();
    Line(l.tag, seq(4, w requires 0 <= w => Word64(bus, base + 8 * w)))
  }

  /** Line fill: the victim way of the set takes over the line. */
  function Fill(bus: Bus, bank: Bank, l: BusLine): Bank
    requires |bank.ways| == 4 && |bank.lru| == 64 && l.index < 64
    requires forall n :: 0 <= n < 4 ==> |bank.ways[n]| == 64
  {
    var n := bank.lru[l.index] % 4;
    Bank(bank.ways[n := bank.ways[n][l.index := Image(bus, l)]],
         bank.lru[l.index := NextLru(bank.lru[l.index])])
  }

  /** A fill changes the victim's line of one set and nothing else. */
  lemma FillLines(bus: Bus, bank: Bank, l: BusLine)
    requires bank.Shape() && l.index < 64
    ensures var r, v := Fill(bus, bank, l), bank.lru[l.index] % 4;
            && r.Shape()
            && r.ways[v][l.index] == Image(bus, l)
            && (forall n, i :: 0 <= n < 4 && 0 <= i < 64 && (n != v || i != l.index) ==>
                                 r.ways[n][i] == bank.ways[n][i])
  {
    var r := Fill(bus, bank, l);
    forall n, i | 0 <= n < 4 && 0 <= i < 64 ensures r.ways[n][i].Shape() {
      assert bank.ways[n][i].Shape();
    }
  }

  /** Way `hit` is the last of the set whose tag matches; 4 stands for none. */
  ghost predicate IsHit(ways: seq<seq<Line>>, tag: nat, index: nat, hit: nat)
    requires ShapedWays(ways) && index < 64
  {
    && hit <= 4
    && (hit < 4 ==> ways[hit][index].tag == tag)
    && (forall m :: 0 <= m < 4 && (hit == 4 || hit < m) ==> ways[m][index].tag != tag)
  }

  lemma HitUnique(ways: seq<seq<Line>>, tag: nat, index: nat, h: nat, k: nat)
    requires ShapedWays(ways) && index < 64 && IsHit(ways, tag, index, h) && IsHit(ways, tag, index, k)
    ensures h == k
  {
  }

  ghost function Hit(ways: seq<seq<Line>>, tag: nat, index: nat): (hit: nat)
    requires ShapedWays(ways) && index < 64
    ensures IsHit(ways, tag, index, hit)
  {
    if ways[3][index].tag == tag then 3
    else if ways[2][index].tag == tag then 2
    else if ways[1][index].tag == tag then 1
    else if ways[0][index].tag == tag then 0
    else 4
  }

  /** Some way of the set holds the line. */
  ghost predicate Holds(bank: Bank, tag: nat, index: nat)
    requires bank.Shape() && index < 64
  {
    Hit(bank.ways, tag, index) < 4
  }

  /** What a bank delivers for a half-word: that of the last matching way, or 0. */
  ghost function HalfOf(bank: Bank, tag: nat, index: nat, off: nat): nat
    requires bank.Shape() && index < 64
  {
    var hit := Hit(bank.ways, tag, index);
    if hit == 4 then 0 else LineHalf(bank.ways[hit][index], off)
  }

  method LookUp(bank: Bank, tag: nat, index: nat, off: nat) returns (hit: nat, half0: nat, half1: nat)
    requires bank.Shape() && index < 64
    ensures hit == Hit(bank.ways, tag, index)
    ensures half0 == HalfOf(bank, tag, index, off) && half1 == HalfOf(bank, tag, index, off + 2)
  {
    hit, half0, half1 := 4, 0, 0;
    for n := 0 to 4
      invariant hit == 4 || hit < n
      invariant forall m :: 0 <= m < n && (hit == 4 || hit < m) ==> bank.ways[m][index].tag != tag
      invariant hit == 4 ==> half0 == half1 == 0
      invariant hit < 4 ==>
                  && bank.ways[hit][index].tag == tag
                  && half0 == LineHalf(bank.ways[hit][index], off)
                  && half1 == LineHalf(bank.ways[hit][index], off + 2)
    {
      var line := bank.ways[n][index];
      if line.tag == tag {
        hit, half0, half1 := n, LineHalf(line, off), LineHalf(line, off + 2);
      }
    }
    HitUnique(bank.ways, tag, index, hit, Hit(bank.ways, tag, index));
  }

  // ---------- line refill ----------

  predicate Strobe(wstrb: nat, i: nat) {
    wstrb / (if i == 0 then 1 else if i == 1 then 2 else if i == 2 then 4 else 8) % 2 == 1
  }

  /** Write the selected words of a line, and its tag if any is selected. */
  method WriteLine(line: Line, tag: nat, wstrb: nat, wdata: Reg64) returns (r: Line)
    requires line.Shape()
    ensures r.Shape()
    ensures forall i :: 0 <= i < 4 ==> r.mem64[i] == if Strobe(wstrb, i) then wdata else line.mem64[i]
    ensures r.tag == if exists i :: 0 <= i < 4 && Strobe(wstrb, i) then tag else line.tag
  {
    r := line;
    for i := 0 to 4
      invariant r.Shape()
      invariant forall k :: 0 <= k < 4 ==> r.mem64[k] == if k < i && Strobe(wstrb, k) then wdata else line.mem64[k]
      invariant r.tag == if exists k :: 0 <= k < i && Strobe(wstrb, k) then tag else line.tag
    {
      if Strobe(wstrb, i) {
        r := Line(tag, r.mem64[i := wdata]);
      }
    }
  }

  /** A single strobe writes a single word. */
  method WriteWord(line: Line, tag: nat, wstrb: nat, wdata: Reg64, ghost burst: nat) returns (r: Line)
    requires line.Shape() && burst < 4
    requires wstrb == if burst == 0 then 1 else if burst == 1 then 2 else if burst == 2 then 4 else 8
    ensures r == Line(tag, line.mem64[burst := wdata])
  {
    OneStrobe(burst, wstrb);
    assert Strobe(wstrb, burst);
    r := WriteLine(line, tag, wstrb, wdata);
    assert r.mem64 == line.mem64[burst := wdata];
  }

  /** Four bursts of eight bytes replace the line. */
  method ReadLine(bus: Bus, line: Line, l: BusLine) returns (r: Line)
    requires line.Shape()
    ensures r == Image(bus, l)
  {
    r := ReadBursts(bus, line, l.tag, l.Address());
    assert r.mem64 == Image(bus, l).mem64;
  }

  method ReadBursts(bus: Bus, line: Line, tag: nat, base: nat) returns (r: Line)
    requires line.Shape()
    ensures r.tag == tag && HoldsBus(bus, r, base)
  {
    r := line;
    var wstrb, adr := 1, base;
    for burst := 0 to 4
      invariant wstrb == if burst == 0 then 1 else if burst == 1 then 2 else if burst == 2 then 4
                         else if burst == 3 then 8 else 16
      invariant adr == base + 8 * burst
      invariant r.Shape() && (burst > 0 ==> r.tag == tag)
      invariant forall w :: 0 <= w < burst ==> r.mem64[w] == Word64(bus, base + 8 * w)
    {
      r := WriteWord(r, tag, wstrb, Word64(bus, adr), burst);
      wstrb, adr := wstrb * 2, adr + 8;
    }
  }

  lemma OneStrobe(burst: nat, wstrb: nat)
    requires burst < 4
    requires wstrb == if burst == 0 then 1 else if burst == 1 then 2 else if burst == 2 then 4 else 8
    ensures forall i :: 0 <= i < 4 ==> (Strobe(wstrb, i) <==> i == burst)
  {
  }

  /** The victim named by the replacement word is refilled and moves to the end of the word. */
  method Replace(bus: Bus, bank: Bank, l: BusLine) returns (r: Bank)
    requires bank.Shape() && l.index < 64
    ensures r == Fill(bus, bank, l)
  {
    var lru := bank.lru[l.index] % 4;
    var word := bank.lru[l.index] / 4;
    var line := ReadLine(bus, bank.ways[lru][l.index], l);
    r := Bank(bank.ways[lru := bank.ways[lru][l.index := line]], bank.lru[l.index := word + lru * 64]);
  }

  // ---------- the cache ----------

  datatype Banks = Banks(even: Bank, odd: Bank) {
    function Of(parity: nat): Bank { if parity == 0 then even else odd }
    function With(parity: nat, bank: Bank): Banks {
      if parity == 0 then Banks(bank, odd) else Banks(even, bank)
    }
    ghost predicate Shape() { even.Shape() && odd.Shape() }
  }

  ghost predicate Cached(s: Banks, l: BusLine)
    requires s.Shape() && l.index < 64
  {
    Holds(s.Of(l.odd), l.tag, l.index)
  }

  /** The simple form of an access: a line that is not cached is filled into its bank. */
  ghost function Touch(bus: Bus, s: Banks, l: BusLine): (r: Banks)
    requires s.Shape() && l.index < 64
    ensures r.Shape()
  {
    FillLines(bus, s.Of(l.odd), l);
    if Cached(s, l) then s else s.With(l.odd, Fill(bus, s.Of(l.odd), l))
  }

  /** A fetch of two half-words touches both of their lines. */
  ghost function Fetched(bus: Bus, s: Banks, addr: nat): (r: Banks)
    requires s.Shape()
    ensures r.Shape()
  {
    Touch(bus, Touch(bus, s, PlaceOf(addr).line), PlaceOf(addr + 2).line)
  }

  /** The two half-words the banks deliver for an address. */
  ghost function Selected(s: Banks, addr: nat): (nat, nat)
    requires s.Shape()
  {
    var p, o := PlaceOf(addr), PlaceOf(addr + 2);
    (HalfOf(s.Of(p.line.odd), p.line.tag, p.line.index, p.off),
     HalfOf(s.Of(o.line.odd), o.line.tag, o.line.index, o.off))
  }

  /** What a fetch returns. */
  ghost function FetchWord(bus: Bus, s: Banks, addr: nat): (nat, nat)
    requires s.Shape()
  {
    Selected(Fetched(bus, s, addr), addr)
  }

  /** A touched line is cached, whatever the banks contained. */
  lemma TouchCaches(bus: Bus, s: Banks, l: BusLine)
    requires s.Shape() && l.Fits()
    ensures Cached(Touch(bus, s, l), l)
  {
    FillLines(bus, s.Of(l.odd), l);
  }

  /** Touching a line of the other bank, or a cached line, keeps the bank. */
  lemma OtherBank(bus: Bus, s: Banks, l: BusLine, m: BusLine)
    requires s.Shape() && l.Fits() && m.Fits()
    requires l.odd != m.odd || (Cached(s, l) && l == m)
    ensures Touch(bus, s, m).Of(l.odd) == s.Of(l.odd)
  {
  }

  /** The second line of a fetch: the same one, or one of the other bank. */
  lemma SecondLine(addr: nat)
    ensures var l, m := PlaceOf(addr).line, PlaceOf(addr + 2).line;
            if PlaceOf(addr).Straddles() then m == l.Next() && m.odd != l.odd else m == l
  {
    NextHalf(addr);
    NextFits(PlaceOf(addr).line);
  }

  /** After a fetch both lines are in the cache: the second refill does not evict the first line. */
  lemma FetchedHoldsBoth(bus: Bus, s: Banks, addr: nat)
    requires s.Shape()
    ensures Cached(Fetched(bus, s, addr), PlaceOf(addr).line)
    ensures Cached(Fetched(bus, s, addr), PlaceOf(addr + 2).line)
    ensures var l := PlaceOf(addr).line; Fetched(bus, s, addr).Of(l.odd) == Touch(bus, s, l).Of(l.odd)
  {
    var l, m := PlaceOf(addr).line, PlaceOf(addr + 2).line;
    TouchCaches(bus, s, l);
    TouchCaches(bus, Touch(bus, s, l), m);
    SecondLine(addr);
    OtherBank(bus, Touch(bus, s, l), l, m);
  }

  /** Whether the second line is missing can be decided before the first refill. */
  lemma SecondTouch(bus: Bus, s: Banks, addr: nat)
    requires s.Shape()
    ensures var l, m := PlaceOf(addr).line, PlaceOf(addr + 2).line;
            Cached(Touch(bus, s, l), m) <==> !PlaceOf(addr).Straddles() || Cached(s, m)
  {
    var l, m := PlaceOf(addr).line, PlaceOf(addr + 2).line;
    TouchCaches(bus, s, l);
    SecondLine(addr);
    if PlaceOf(addr).Straddles() {
      OtherBank(bus, s, m, l);
    }
  }

  /** Half-words of one line do not see the lowest address bit. */
  lemma OverlayHalf(line: Line, off: nat)
    requires line.Shape() && 30 <= off < 32
    ensures LineHalf(line, off - 30) == LineHalf(line, 0)
  {
  }

  lemma OverlayDelivers(bank: Bank, tag: nat, index: nat, off: nat)
    requires bank.Shape() && index < 64 && 30 <= off < 32
    ensures HalfOf(bank, tag, index, off - 30) == HalfOf(bank, tag, index, 0)
  {
    var hit := Hit(bank.ways, tag, index);
    if hit < 4 {
      OverlayHalf(bank.ways[hit][index], off);
    }
  }

  /** The state after construction: any line memories, and the replacement words set. */
  ghost function Cold(even: seq<seq<Line>>, odd: seq<seq<Line>>): Banks {
    Banks(Bank(even, seq(64, _ => 0xE4)), Bank(odd, seq(64, _ => 0xE4)))
  }

  class ICacheFunctional {
    const bus: Bus
    var wayEven: seq<seq<Line>>
    var wayOdd: seq<seq<Line>>
    var lruEven: seq<nat>
    var lruOdd: seq<nat>

    function State(): Banks
      reads this
    {
      Banks(Bank(wayEven, lruEven), Bank(wayOdd, lruOdd))
    }

    /** The line memories start with whatever they contain; only the replacement words are set. */
    constructor (sysbus: Bus, even: seq<seq<Line>>, odd: seq<seq<Line>>)
      requires ShapedWays(even) && ShapedWays(odd)
      ensures bus == sysbus && State() == Cold(even, odd) && State().Shape()
    {
      bus := sysbus;
      wayEven, wayOdd := even, odd;
      lruEven, lruOdd := seq(64, _ => 0xE4), seq(64, _ => 0xE4);
    }

    /** Look both banks up and pick the half-words; 4 means that no way matched. */
    method GetCachedValue(addr: nat) returns (half0: nat, half1: nat, hit0: nat, hit1: nat)
      requires State().Shape()
      ensures hit0 <= 4 && hit1 <= 4
      ensures hit0 == 4 <==> !Cached(State(), PlaceOf(addr).line)
      ensures hit1 == 4 <==> !Cached(State(), PlaceOf(addr + 2).line)
      ensures (half0, half1) == Selected(State(), addr)
    {
      var p := Split(addr);
      var tag, index := Overlay(addr);
      NextHalf(addr);
      NextFits(p.line);
      var home, other := if p.line.odd == 0 then State().even else State().odd,
                         if p.line.odd == 0 then State().odd else State().even;
      var homeHit, home0, home1 := LookUp(home, p.line.tag, p.line.index, p.off);
      var otherHit, other0, _ := LookUp(other, tag, index, 0);
      half0, hit0 := home0, homeHit;
      var useOverlay := UseOverlay(addr);
      if useOverlay {
        OverlayDelivers(other, tag, index, p.off);
        half1, hit1 := other0, otherHit;
      } else {
        half1, hit1 := home1, homeHit;
      }
    }

    method RefillLine(l: BusLine)
      requires State().Shape() && l.index < 64 && !Cached(State(), l)
      modifies this
      ensures State() == old(Touch(bus, State(), l))
    {
      if l.odd == 0 {
        var bank := Replace(bus, Bank(wayEven, lruEven), l);
        wayEven, lruEven := bank.ways, bank.lru;
      } else {
        var bank := Replace(bus, Bank(wayOdd, lruOdd), l);
        wayOdd, lruOdd := bank.ways, bank.lru;
      }
    }

    /** Both refills, decided by the hits seen before the first of them. */
    method RefillMissing(addr: nat, hit0: nat, hit1: nat)
      requires State().Shape()
      requires hit0 == 4 <==> !Cached(State(), PlaceOf(addr).line)
      requires hit1 == 4 <==> !Cached(State(), PlaceOf(addr + 2).line)
      modifies this
      ensures State() == old(Fetched(bus, State(), addr))
    {
      var p := Split(addr);
      var o := Split(addr + 2);
      SecondTouch(bus, State(), addr);
      if hit0 == 4 {
        RefillLine(p.line);
      }
      var crosses := CrossesLine(addr);
      if hit1 == 4 && crosses {
        RefillLine(o.line);
      }
    }

    /** One fetch, from any contents of the line memories: both lines are cached afterwards, and the second
        report is raised exactly when the half-words are not those of the bus. */
    method BTransport(addr: nat) returns (half0: nat, half1: nat, notCached: bool, wrongData: bool)
      requires State().Shape()
      modifies this
      ensures State() == old(Fetched(bus, State(), addr))
      ensures (half0, half1) == old(FetchWord(bus, State(), addr))
      ensures !notCached
      ensures wrongData <==> (half0, half1) != Word32(bus, addr)
    {
      FetchedHoldsBoth(bus, State(), addr);
      var hit0, hit1;
      half0, half1, hit0, hit1 := GetCachedValue(addr);
      RefillMissing(addr, hit0, hit1);
      half0, half1, hit0, hit1 := GetCachedValue(addr);
      notCached := hit0 == 4 || hit1 == 4;
      wrongData := HalfWord(bus, addr) != half0 || HalfWord(bus, addr + 2) != half1;
    }
  }

  // ---------- runs ----------

  /** The words a run of fetches returns. */
  ghost function RunWords(bus: Bus, s: Banks, addrs: seq<nat>): (words: seq<(nat, nat)>)
    requires s.Shape()
    ensures |words| == |addrs|
    decreases |addrs|
  {
    if addrs == [] then []
    else [FetchWord(bus, s, addrs[0])] + RunWords(bus, Fetched(bus, s, addrs[0]), addrs[1..])
  }

  /** The banks after a run of fetches. */
  ghost function RunState(bus: Bus, s: Banks, addrs: seq<nat>): (r: Banks)
    requires s.Shape()
    ensures r.Shape()
    decreases |addrs|
  {
    if addrs == [] then s else RunState(bus, Fetched(bus, s, addrs[0]), addrs[1..])
  }

  /** The aligned words the bus holds at the addresses of a run. */
  ghost function BusWords(bus: Bus, addrs: seq<nat>): (words: seq<(nat, nat)>) {
    seq(|addrs|, k requires 0 <= k < |addrs| => Word32(bus, Even(addrs[k])))
  }

  lemma RunStep(bus: Bus, s: Banks, addrs: seq<nat>, k: nat, words: seq<(nat, nat)>)
    requires s.Shape() && k < |addrs|
    ensures words + RunWords(bus, s, addrs[k..]) ==
            words + [FetchWord(bus, s, addrs[k])] + RunWords(bus, Fetched(bus, s, addrs[k]), addrs[k + 1..])
    ensures RunState(bus, s, addrs[k..]) == RunState(bus, Fetched(bus, s, addrs[k]), addrs[k + 1..])
  {
    assert addrs[k..][0] == addrs[k] && addrs[k..][1..] == addrs[k + 1..];
  }

  method FetchAll(cache: ICacheFunctional, addrs: seq<nat>) returns (words: seq<(nat, nat)>)
    requires cache.State().Shape()
    modifies cache
    ensures cache.State().Shape()
    ensures words == old(RunWords(cache.bus, cache.State(), addrs))
    ensures cache.State() == old(RunState(cache.bus, cache.State(), addrs))
  {
    words := [];
    ghost var start := cache.State();
    for k := 0 to |addrs|
      invariant cache.State().Shape()
      invariant RunWords(cache.bus, start, addrs) == words + RunWords(cache.bus, cache.State(), addrs[k..])
      invariant RunState(cache.bus, start, addrs) == RunState(cache.bus, cache.State(), addrs[k..])
    {
      RunStep(cache.bus, cache.State(), addrs, k, words);
      var half0, half1, _, _ := cache.BTransport(addrs[k]);
      words := words + [(half0, half1)];
    }
    assert addrs[|addrs|..] == [];
  }

  // ---------- the first lines of a set ----------

  /** The line fits no address, or holds what the bus holds. */
  ghost predicate LineCoherent(bus: Bus, line: Line, index: nat, odd: nat) {
    line.Shape() && (line.tag < TAG_LIMIT ==> HoldsBus(bus, line, BusLine(0, line.tag, index, odd).Base()))
  }

  /** The line was filled from some address of the bus that the cache takes for one of its tag. */
  ghost predicate FilledFrom(bus: Bus, line: Line, index: nat, odd: nat) {
    line.tag < TAG_LIMIT && exists top: nat :: line == Image(bus, BusLine(top, line.tag, index, odd))
  }

  /** The replacement word names way k next, the ways before k hold lines filled from the bus, the others what they
      held at the start; k == 4 once all ways have been refilled. */
  ghost predicate SetFilled(bus: Bus, bank: Bank, start: seq<seq<Line>>, odd: nat, i: nat, k: nat)
    requires bank.Shape() && ShapedWays(start) && i < 64
  {
    && k <= 4 && IsRotation(bank.lru[i]) && (k < 4 ==> bank.lru[i] % 4 == k)
    && (forall n :: 0 <= n < k ==> FilledFrom(bus, bank.ways[n][i], i, odd))
    && (forall n :: k <= n < 4 ==> bank.ways[n][i] == start[n][i])
  }

  ghost predicate SetReached(bus: Bus, bank: Bank, start: seq<seq<Line>>, odd: nat, i: nat)
    requires bank.Shape() && ShapedWays(start) && i < 64
  {
    exists k: nat :: SetFilled(bus, bank, start, odd, i, k)
  }

  ghost predicate BankReached(bus: Bus, bank: Bank, start: seq<seq<Line>>, odd: nat) {
    && bank.Shape() && ShapedWays(start)
    && (forall i :: 0 <= i < 64 ==> SetReached(bus, bank, start, odd, i))
  }

  ghost predicate Reached(bus: Bus, s: Banks, even: seq<seq<Line>>, odd: seq<seq<Line>>) {
    BankReached(bus, s.even, even, 0) && BankReached(bus, s.odd, odd, 1)
  }

  /** The bus ignores the address bits from 32 on, at one half-word. */
  ghost predicate Folds(bus: Bus, top: nat, h: nat) {
    HalfWord(bus, 0x1_0000_0000 * top + 2 * h) == HalfWord(bus, 2 * h)
  }

  /** The bus decodes 32 address bits. */
  ghost predicate Bus32(bus: Bus) {
    forall top: nat, h: nat :: h < 0x8000_0000 ==> Folds(bus, top, h)
  }

  lemma WordFolds(bus: Bus, top: nat, w: nat, a: nat, b: nat)
    requires Bus32(bus) && w < 0x2000_0000 && a == 0x1_0000_0000 * top + b && b == 8 * w
    ensures Word64(bus, a) == Word64(bus, b)
  {
    FoldHalf(bus, top, 4 * w, a, b);
    FoldHalf(bus, top, 4 * w + 1, a + 2, b + 2);
    FoldHalf(bus, top, 4 * w + 2, a + 4, b + 4);
    FoldHalf(bus, top, 4 * w + 3, a + 6, b + 6);
  }

  lemma FoldHalf(bus: Bus, top: nat, h: nat, a: nat, b: nat)
    requires Bus32(bus) && h < 0x8000_0000 && a == 0x1_0000_0000 * top + b && b == 2 * h
    ensures HalfWord(bus, a) == HalfWord(bus, b)
  {
    assert Folds(bus, top, h);
  }

  /** A refill leaves a coherent line if the bus decodes 32 bits. */
  lemma ImageCoherent(bus: Bus, l: BusLine)
    requires Bus32(bus) && l.Fits()
    ensures LineCoherent(bus, Image(bus, l), l.index, l.odd)
  {
    forall w | 0 <= w < 4 ensures Image(bus, l).mem64[w] == Word64(bus, l.Base() + 8 * w) {
      ImageWord(bus, l, w);
    }
  }

  lemma ImageWord(bus: Bus, l: BusLine, w: nat)
    requires Bus32(bus) && l.Fits() && w < 4
    ensures Word64(bus, l.Address() + 8 * w) == Word64(bus, l.Base() + 8 * w)
  {
    var x := 512 * l.tag + 8 * l.index + 4 * l.odd + w;
    WordFolds(bus, l.top, x, l.Address() + 8 * w, l.Base() + 8 * w);
  }

  /** A refill advances the set it goes to and leaves the others alone. */
  lemma FillReached(bus: Bus, bank: Bank, start: seq<seq<Line>>, l: BusLine)
    requires BankReached(bus, bank, start, l.odd) && l.Fits()
    ensures BankReached(bus, Fill(bus, bank, l), start, l.odd)
  {
    var r := Fill(bus, bank, l);
    FillLines(bus, bank, l);
    forall i | 0 <= i < 64 ensures SetReached(bus, r, start, l.odd, i) {
      assert SetReached(bus, bank, start, l.odd, i);
      var k: nat :| SetFilled(bus, bank, start, l.odd, i, k);
      if i == l.index {
        assert Image(bus, l) == Image(bus, BusLine(l.top, l.tag, i, l.odd));
        NextLruRotates(bank.lru[i]);
        assert SetFilled(bus, r, start, l.odd, i, if k < 4 then k + 1 else 4);
      } else {
        assert SetFilled(bus, r, start, l.odd, i, k);
      }
    }
  }

  lemma TouchReached(bus: Bus, s: Banks, even: seq<seq<Line>>, odd: seq<seq<Line>>, l: BusLine)
    requires Reached(bus, s, even, odd) && l.Fits()
    ensures Reached(bus, Touch(bus, s, l), even, odd)
  {
    if !Cached(s, l) {
      if l.odd == 0 {
        FillReached(bus, s.even, even, l);
      } else {
        FillReached(bus, s.odd, odd, l);
      }
    }
  }

  lemma FetchedReached(bus: Bus, s: Banks, even: seq<seq<Line>>, odd: seq<seq<Line>>, addr: nat)
    requires Reached(bus, s, even, odd)
    ensures Reached(bus, Fetched(bus, s, addr), even, odd)
  {
    TouchReached(bus, s, even, odd, PlaceOf(addr).line);
    TouchReached(bus, Touch(bus, s, PlaceOf(addr).line), even, odd, PlaceOf(addr + 2).line);
  }

  lemma ColdReached(bus: Bus, even: seq<seq<Line>>, odd: seq<seq<Line>>)
    requires ShapedWays(even) && ShapedWays(odd)
    ensures Reached(bus, Cold(even, odd), even, odd)
  {
    forall i | 0 <= i < 64
      ensures SetReached(bus, Cold(even, odd).even, even, 0, i)
      ensures SetReached(bus, Cold(even, odd).odd, odd, 1, i)
    {
      assert SetFilled(bus, Cold(even, odd).even, even, 0, i, 0);
      assert SetFilled(bus, Cold(even, odd).odd, odd, 1, i, 0);
    }
  }

  /** Line n of a set is found at the start: its tag fits an address and no later way carries the same tag. */
  ghost predicate Exposed(start: seq<seq<Line>>, n: nat, i: nat)
    requires ShapedWays(start) && n < 4 && i < 64
  {
    start[n][i].tag < TAG_LIMIT && IsHit(start, start[n][i].tag, i, n)
  }

  /** Every line found at the start holds what the bus holds. */
  ghost predicate StartCoherent(bus: Bus, start: seq<seq<Line>>, odd: nat)
    requires ShapedWays(start)
  {
    forall n: nat, i: nat :: n < 4 && i < 64 && Exposed(start, n, i) ==> LineCoherent(bus, start[n][i], i, odd)
  }

  /** A line that a reached bank finds holds what the bus holds: refills never uncover a masked line of the
      start, since they take the ways in order. */
  lemma HitCoherent(bus: Bus, bank: Bank, start: seq<seq<Line>>, odd: nat, tag: nat, i: nat,
                    base: nat)
    requires BankReached(bus, bank, start, odd) && StartCoherent(bus, start, odd) && Bus32(bus) && odd <= 1
    requires tag < TAG_LIMIT && i < 64 && Holds(bank, tag, i) && base == BusLine(0, tag, i, odd).Base()
    ensures HoldsBus(bus, bank.ways[Hit(bank.ways, tag, i)][i], base)
  {
    var hit := Hit(bank.ways, tag, i);
    assert SetReached(bus, bank, start, odd, i);
    var k: nat :| SetFilled(bus, bank, start, odd, i, k);
    if hit >= k {
      assert Exposed(start, hit, i);
    } else {
      assert FilledFrom(bus, bank.ways[hit][i], i, odd);
      var top: nat :| bank.ways[hit][i] == Image(bus, BusLine(top, tag, i, odd));
      ImageCoherent(bus, BusLine(top, tag, i, odd));
    }
    assert LineCoherent(bus, bank.ways[hit][i], i, odd);
  }

  /** A cached line delivers the half-words of the bus. */
  lemma Delivers(bus: Bus, s: Banks, even: seq<seq<Line>>, odd: seq<seq<Line>>, addr: nat)
    requires Reached(bus, s, even, odd) && Bus32(bus)
    requires StartCoherent(bus, even, 0) && StartCoherent(bus, odd, 1)
    requires Cached(s, PlaceOf(addr).line)
    ensures var p := PlaceOf(addr);
            HalfOf(s.Of(p.line.odd), p.line.tag, p.line.index, p.off) == HalfWord(bus, Even(addr))
  {
    var p := PlaceOf(addr);
    if p.line.odd == 0 {
      BankDelivers(bus, s.even, even, p, addr);
    } else {
      BankDelivers(bus, s.odd, odd, p, addr);
    }
  }

  lemma BankDelivers(bus: Bus, bank: Bank, start: seq<seq<Line>>, p: Place, addr: nat)
    requires At(p, addr) && Bus32(bus)
    requires BankReached(bus, bank, start, p.line.odd) && StartCoherent(bus, start, p.line.odd)
    requires Holds(bank, p.line.tag, p.line.index)
    ensures HalfOf(bank, p.line.tag, p.line.index, p.off) == HalfWord(bus, Even(addr))
  {
    ReachedHalf(bus, bank, start, p.line, p.off, p.line.Base());
    HalfFolds(bus, p.line, p.off, addr, p.line.Base());
  }

  lemma ReachedHalf(bus: Bus, bank: Bank, start: seq<seq<Line>>, l: BusLine, off: nat, base: nat)
    requires l.Fits() && off < 32 && base == l.Base()
    requires BankReached(bus, bank, start, l.odd) && StartCoherent(bus, start, l.odd) && Bus32(bus)
    requires Holds(bank, l.tag, l.index)
    ensures HalfOf(bank, l.tag, l.index, off) == HalfWord(bus, base + Even(off))
  {
    HitCoherent(bus, bank, start, l.odd, l.tag, l.index, base);
    DeliversLine(bus, bank, l.tag, l.index, off, base);
  }

  lemma DeliversLine(bus: Bus, bank: Bank, tag: nat, index: nat, off: nat, base: nat)
    requires bank.Shape() && index < 64 && off < 32 && Holds(bank, tag, index)
    requires HoldsBus(bus, bank.ways[Hit(bank.ways, tag, index)][index], base)
    ensures HalfOf(bank, tag, index, off) == HalfWord(bus, base + Even(off))
  {
    LineHalfIsBus(bus, bank.ways[Hit(bank.ways, tag, index)][index], base, off);
  }

  lemma HalfFolds(bus: Bus, l: BusLine, off: nat, addr: nat, base: nat)
    requires Bus32(bus) && l.Fits() && off < 32 && addr == l.Address() + off && base == l.Base()
    ensures HalfWord(bus, base + Even(off)) == HalfWord(bus, Even(addr))
  {
    var h := 2048 * l.tag + 32 * l.index + 16 * l.odd + Half(off);
    assert Half(addr) == 0x8000_0000 * l.top + h;
    FoldHalf(bus, l.top, h, Even(addr), base + Even(off));
  }

  lemma EvenNext(addr: nat)
    ensures Even(addr + 2) == Even(addr) + 2
  {
  }

  lemma FetchDelivers(bus: Bus, s: Banks, even: seq<seq<Line>>, odd: seq<seq<Line>>, addr: nat)
    requires Reached(bus, s, even, odd) && Bus32(bus)
    requires StartCoherent(bus, even, 0) && StartCoherent(bus, odd, 1)
    ensures FetchWord(bus, s, addr) == Word32(bus, Even(addr))
  {
    FetchedReached(bus, s, even, odd, addr);
    FetchedHoldsBoth(bus, s, addr);
    Delivers(bus, Fetched(bus, s, addr), even, odd, addr);
    Delivers(bus, Fetched(bus, s, addr), even, odd, addr + 2);
    EvenNext(addr);
  }

  lemma {:induction false} RunDelivers(
    bus: Bus, s: Banks, even: seq<seq<Line>>, odd: seq<seq<Line>>, addrs: seq<nat>)
    requires Reached(bus, s, even, odd) && Bus32(bus)
    requires StartCoherent(bus, even, 0) && StartCoherent(bus, odd, 1)
    ensures RunWords(bus, s, addrs) == BusWords(bus, addrs)
    decreases |addrs|
  {
    if addrs != [] {
      FetchDelivers(bus, s, even, odd, addrs[0]);
      FetchedReached(bus, s, even, odd, addrs[0]);
      RunDelivers(bus, Fetched(bus, s, addrs[0]), even, odd, addrs[1..]);
      BusWordsSplit(bus, addrs);
    }
  }

  lemma BusWordsSplit(bus: Bus, addrs: seq<nat>)
    requires addrs != []
    ensures BusWords(bus, addrs) == [Word32(bus, Even(addrs[0]))] + BusWords(bus, addrs[1..])
  {
  }

  // ---------- stale lines ----------

  /** The first half-word of a fetch comes from the bank as the first touch leaves it. */
  lemma FirstHalf(bus: Bus, s: Banks, addr: nat)
    requires s.Shape()
    ensures var p := PlaceOf(addr);
            FetchWord(bus, s, addr).0 ==
              HalfOf(Touch(bus, s, p.line).Of(p.line.odd), p.line.tag, p.line.index, p.off)
  {
    FetchedHoldsBoth(bus, s, addr);
  }

  lemma HalfAt(line: Line, w: nat, b: nat)
    requires line.Shape() && w < 4 && b < 4
    ensures LineHalf(line, 2 * (4 * w + b)) == line.mem64[w].Buf16(b)
  {
    var off := 2 * (4 * w + b);
    assert off / 8 == w && off / 2 == 4 * w + b;
  }

  ghost predicate HalfRight(bus: Bus, line: Line, base: nat, h: nat)
    requires line.Shape()
  {
    LineHalf(line, 2 * h) == HalfWord(bus, base + 2 * h)
  }

  lemma WordRight(bus: Bus, line: Line, base: nat, w: nat)
    requires line.Shape() && w < 4
    requires forall h :: 4 * w <= h < 4 * w + 4 ==> HalfRight(bus, line, base, h)
    ensures line.mem64[w] == Word64(bus, base + 8 * w)
  {
    PartsRight(bus, line, base, w, base + 8 * w);
  }

  lemma PartsRight(bus: Bus, line: Line, base: nat, w: nat, a: nat)
    requires line.Shape() && w < 4 && a == base + 8 * w
    requires forall h :: 4 * w <= h < 4 * w + 4 ==> HalfRight(bus, line, base, h)
    ensures line.mem64[w] == Word64(bus, a)
  {
    PartRight(bus, line, base, w, 0, a);
    PartRight(bus, line, base, w, 1, a + 2);
    PartRight(bus, line, base, w, 2, a + 4);
    PartRight(bus, line, base, w, 3, a + 6);
  }

  lemma PartRight(bus: Bus, line: Line, base: nat, w: nat, b: nat, a: nat)
    requires line.Shape() && w < 4 && b < 4 && a == base + 8 * w + 2 * b
    requires HalfRight(bus, line, base, 4 * w + b)
    ensures line.mem64[w].Buf16(b) == HalfWord(bus, a)
  {
    HalfAt(line, w, b);
  }

  /** A line that differs from the bus differs in one of its half-words. */
  lemma WrongHalf(bus: Bus, line: Line, base: nat) returns (h: nat)
    requires line.Shape() && !HoldsBus(bus, line, base)
    ensures h < 16 && !HalfRight(bus, line, base, h)
  {
    var w :| 0 <= w < 4 && line.mem64[w] != Word64(bus, base + 8 * w);
    if forall h :: 4 * w <= h < 4 * w + 4 ==> HalfRight(bus, line, base, h) {
      WordRight(bus, line, base, w);
      assert false;
    }
    h :| 4 * w <= h < 4 * w + 4 && !HalfRight(bus, line, base, h);
  }

  /** A line found at the start that differs from the bus is returned by a fetch. */
  lemma StaleFetch(bus: Bus, even: seq<seq<Line>>, odd: seq<seq<Line>>, parity: nat, n: nat, i: nat)
    returns (h: nat)
    requires ShapedWays(even) && ShapedWays(odd) && parity <= 1 && n < 4 && i < 64
    requires var start := if parity == 0 then even else odd;
             Exposed(start, n, i) && !LineCoherent(bus, start[n][i], i, parity)
    ensures FetchWord(bus, Cold(even, odd), 2 * h) != Word32(bus, 2 * h)
  {
    var start: seq<seq<Line>> := if parity == 0 then even else odd;
    var k := WrongHalf(bus, start[n][i], BusLine(0, start[n][i].tag, i, parity).Base());
    h := StaleHalf(bus, even, odd, start, BusLine(0, start[n][i].tag, i, parity), n, k);
  }

  lemma StaleHalf(bus: Bus, even: seq<seq<Line>>, odd: seq<seq<Line>>, start: seq<seq<Line>>, l: BusLine,
                  n: nat, k: nat)
    returns (h: nat)
    requires ShapedWays(even) && ShapedWays(odd) && start == (if l.odd == 0 then even else odd)
    requires l.Fits() && l.top == 0 && n < 4 && k < 16 && IsHit(start, l.tag, l.index, n)
    requires !HalfRight(bus, start[n][l.index], l.Base(), k)
    ensures FetchWord(bus, Cold(even, odd), 2 * h) != Word32(bus, 2 * h)
  {
    h := 2048 * l.tag + 32 * l.index + 16 * l.odd + k;
    PlaceIs(Place(l, 2 * k), 2 * h);
    ColdHalf(bus, even, odd, start, l, n, 2 * k, 2 * h);
    assert l.Base() + 2 * k == 2 * h;
  }

  lemma ColdHalf(bus: Bus, even: seq<seq<Line>>, odd: seq<seq<Line>>, start: seq<seq<Line>>, l: BusLine,
                 n: nat, off: nat, addr: nat)
    requires ShapedWays(even) && ShapedWays(odd) && start == (if l.odd == 0 then even else odd)
    requires l.Fits() && n < 4 && IsHit(start, l.tag, l.index, n) && PlaceOf(addr) == Place(l, off)
    ensures FetchWord(bus, Cold(even, odd), addr).0 == LineHalf(start[n][l.index], off)
  {
    ColdHit(bus, even, odd, l, n);
    CachedHalf(bus, Cold(even, odd), addr);
  }

  /** A line found at the start is not refilled by the first fetch. */
  lemma ColdHit(bus: Bus, even: seq<seq<Line>>, odd: seq<seq<Line>>, l: BusLine, n: nat)
    requires ShapedWays(even) && ShapedWays(odd) && l.Fits() && n < 4
    requires IsHit(if l.odd == 0 then even else odd, l.tag, l.index, n)
    ensures Touch(bus, Cold(even, odd), l) == Cold(even, odd)
    ensures Hit(Cold(even, odd).Of(l.odd).ways, l.tag, l.index) == n
  {
    HitUnique(Cold(even, odd).Of(l.odd).ways, l.tag, l.index, n,
              Hit(Cold(even, odd).Of(l.odd).ways, l.tag, l.index));
  }

  /** The first half-word of a fetch that hits comes from the bank as it is. */
  lemma CachedHalf(bus: Bus, s: Banks, addr: nat)
    requires s.Shape() && Cached(s, PlaceOf(addr).line)
    ensures var p := PlaceOf(addr);
            FetchWord(bus, s, addr).0 == HalfOf(s.Of(p.line.odd), p.line.tag, p.line.index, p.off)
  {
    FirstHalf(bus, s, addr);
  }

  lemma AliasedPlace(top: nat, a: nat)
    requires a < 0x1_0000_0000
    ensures var p := PlaceOf(a);
            PlaceOf(0x1_0000_0000 * top + a) == Place(p.line.(top := top), p.off)
  {
    var p := PlaceOf(a);
    assert p.line.top == 0;
    PlaceIs(Place(p.line.(top := top), p.off), 0x1_0000_0000 * top + a);
  }

  /** Addresses that differ from bit 32 on share their line: the second fetch repeats the first. */
  lemma AliasedFetch(bus: Bus, s: Banks, top: nat, a: nat, b: nat)
    requires s.Shape() && a < 0x1_0000_0000 && b == 0x1_0000_0000 * top + a
    ensures FetchWord(bus, Fetched(bus, s, a), b).0 == FetchWord(bus, s, a).0
  {
    AliasedPlace(top, a);
    FetchedHoldsBoth(bus, s, a);
    SharedHalf(bus, Fetched(bus, s, a), a, b);
  }

  lemma SharedHalf(bus: Bus, s: Banks, a: nat, b: nat)
    requires s.Shape() && Cached(s, PlaceOf(a).line)
    requires PlaceOf(b) == Place(PlaceOf(a).line.(top := PlaceOf(b).line.top), PlaceOf(a).off)
    ensures FetchWord(bus, s, b).0 == Selected(s, a).0
  {
    CachedHalf(bus, s, b);
  }

  /** Every fetch of every run from a cold start returns what the bus holds. */
  ghost predicate RunsRight(bus: Bus, even: seq<seq<Line>>, odd: seq<seq<Line>>)
    requires ShapedWays(even) && ShapedWays(odd)
  {
    forall addrs :: RunWords(bus, Cold(even, odd), addrs) == BusWords(bus, addrs)
  }

  lemma OneFetch(bus: Bus, even: seq<seq<Line>>, odd: seq<seq<Line>>, addr: nat)
    requires ShapedWays(even) && ShapedWays(odd) && RunsRight(bus, even, odd)
    ensures FetchWord(bus, Cold(even, odd), addr) == Word32(bus, Even(addr))
  {
    var words := RunWords(bus, Cold(even, odd), [addr]);
    assert words == BusWords(bus, [addr]);
    assert words[0] == FetchWord(bus, Cold(even, odd), addr);
  }

  lemma TwoFetches(bus: Bus, even: seq<seq<Line>>, odd: seq<seq<Line>>, a: nat, b: nat)
    requires ShapedWays(even) && ShapedWays(odd) && RunsRight(bus, even, odd)
    ensures FetchWord(bus, Fetched(bus, Cold(even, odd), a), b) == Word32(bus, Even(b))
  {
    var addrs := [a, b];
    var words := RunWords(bus, Cold(even, odd), addrs);
    assert words == BusWords(bus, addrs);
    assert addrs[1..] == [b];
    assert words[1] == RunWords(bus, Fetched(bus, Cold(even, odd), a), [b])[0];
  }

  lemma RightStart(bus: Bus, even: seq<seq<Line>>, odd: seq<seq<Line>>, parity: nat)
    requires ShapedWays(even) && ShapedWays(odd) && parity <= 1 && RunsRight(bus, even, odd)
    ensures StartCoherent(bus, if parity == 0 then even else odd, parity)
  {
    var start := if parity == 0 then even else odd;
    forall n: nat, i: nat | n < 4 && i < 64 && Exposed(start, n, i)
      ensures LineCoherent(bus, start[n][i], i, parity)
    {
      RightLine(bus, even, odd, parity, n, i);
    }
  }

  lemma RightLine(bus: Bus, even: seq<seq<Line>>, odd: seq<seq<Line>>, parity: nat, n: nat, i: nat)
    requires ShapedWays(even) && ShapedWays(odd) && parity <= 1 && RunsRight(bus, even, odd) && n < 4 && i < 64
    requires Exposed(if parity == 0 then even else odd, n, i)
    ensures LineCoherent(bus, (if parity == 0 then even else odd)[n][i], i, parity)
  {
    if !LineCoherent(bus, (if parity == 0 then even else odd)[n][i], i, parity) {
      var h := StaleFetch(bus, even, odd, parity, n, i);
      OneFetch(bus, even, odd, 2 * h);
      EvenIs(2 * h, h);
      assert false;
    }
  }

  lemma RightBus(bus: Bus, even: seq<seq<Line>>, odd: seq<seq<Line>>)
    requires ShapedWays(even) && ShapedWays(odd) && RunsRight(bus, even, odd)
    ensures Bus32(bus)
  {
    forall top: nat, h: nat | h < 0x8000_0000 ensures Folds(bus, top, h) {
      FetchesFold(bus, even, odd, top, h, 2 * h, 0x1_0000_0000 * top + 2 * h);
    }
  }

  lemma FetchesFold(bus: Bus, even: seq<seq<Line>>, odd: seq<seq<Line>>, top: nat, h: nat, a: nat, b: nat)
    requires ShapedWays(even) && ShapedWays(odd) && RunsRight(bus, even, odd)
    requires h < 0x8000_0000 && a == 2 * h && b == 0x1_0000_0000 * top + a
    ensures Folds(bus, top, h)
  {
    FirstOfRun(bus, even, odd, a, h);
    SecondOfRun(bus, even, odd, a, b, 0x8000_0000 * top + h);
    AliasedFetch(bus, Cold(even, odd), top, a, b);
    HalvesFold(bus, top, h, a, b);
  }

  lemma HalvesFold(bus: Bus, top: nat, h: nat, a: nat, b: nat)
    requires a == 2 * h && b == 0x1_0000_0000 * top + a && HalfWord(bus, b) == HalfWord(bus, a)
    ensures Folds(bus, top, h)
  {
  }

  lemma FirstOfRun(bus: Bus, even: seq<seq<Line>>, odd: seq<seq<Line>>, a: nat, h: nat)
    requires ShapedWays(even) && ShapedWays(odd) && RunsRight(bus, even, odd) && a == 2 * h
    ensures FetchWord(bus, Cold(even, odd), a).0 == HalfWord(bus, a)
  {
    OneFetch(bus, even, odd, a);
    EvenIs(a, h);
  }

  lemma SecondOfRun(bus: Bus, even: seq<seq<Line>>, odd: seq<seq<Line>>, a: nat, b: nat, h: nat)
    requires ShapedWays(even) && ShapedWays(odd) && RunsRight(bus, even, odd) && b == 2 * h
    ensures FetchWord(bus, Fetched(bus, Cold(even, odd), a), b).0 == HalfWord(bus, b)
  {
    TwoFetches(bus, even, odd, a, b);
    EvenIs(b, h);
  }

  lemma EvenIs(a: nat, h: nat)
    requires a == 2 * h
    ensures Even(a) == a
  {
  }

  /** The cache is transparent from a cold start exactly when the line memories it starts with expose no
      line that differs from the bus, and the bus decodes no more address bits than the tags keep. */
  lemma ColdStartExact(bus: Bus, even: seq<seq<Line>>, odd: seq<seq<Line>>)
    requires ShapedWays(even) && ShapedWays(odd)
    ensures RunsRight(bus, even, odd) <==>
            StartCoherent(bus, even, 0) && StartCoherent(bus, odd, 1) && Bus32(bus)
  {
    if StartCoherent(bus, even, 0) && StartCoherent(bus, odd, 1) && Bus32(bus) {
      ColdReached(bus, even, odd);
      forall addrs ensures RunWords(bus, Cold(even, odd), addrs) == BusWords(bus, addrs) {
        RunDelivers(bus, Cold(even, odd), even, odd, addrs);
      }
    }
    if RunsRight(bus, even, odd) {
      RightStart(bus, even, odd, 0);
      RightStart(bus, even, odd, 1);
      RightBus(bus, even, odd);
    }
  }

  ghost predicate Zeroed(ways: seq<seq<Line>>)
    requires ShapedWays(ways)
  {
    forall n, i :: 0 <= n < 4 && 0 <= i < 64 ==>
                     ways[n][i].tag == 0 && forall w :: 0 <= w < 4 ==> ways[n][i].mem64[w] == Reg64(0, 0, 0, 0)
  }

  lemma ZeroedBank(bank: Bank, index: nat, off: nat)
    requires bank.Shape() && Zeroed(bank.ways) && index < 64
    ensures Holds(bank, 0, index) && HalfOf(bank, 0, index, off) == 0
  {
    assert bank.ways[3][index].tag == 0;
  }

  lemma FirstPage(addr: nat)
    requires addr < 4096
    ensures PlaceOf(addr).line.tag == 0
  {
  }

  /** Line memories that are all zero answer every fetch from the first page with zeros, whatever the bus
      holds. */
  lemma ZeroedFetch(bus: Bus, even: seq<seq<Line>>, odd: seq<seq<Line>>, addr: nat)
    requires ShapedWays(even) && ShapedWays(odd) && Zeroed(even) && Zeroed(odd) && addr + 2 < 4096
    ensures FetchWord(bus, Cold(even, odd), addr) == (0, 0)
  {
    var s, p, o := Cold(even, odd), PlaceOf(addr), PlaceOf(addr + 2);
    FirstPage(addr);
    FirstPage(addr + 2);
    ZeroedBank(s.Of(p.line.odd), p.line.index, p.off);
    ZeroedBank(s.Of(o.line.odd), o.line.index, o.off);
    assert Fetched(bus, s, addr) == s;
  }

  ghost predicate Unused(ways: seq<seq<Line>>)
    requires ShapedWays(ways)
  {
    forall n, i :: 0 <= n < 4 && 0 <= i < 64 ==> ways[n][i].tag >= TAG_LIMIT
  }

  /** Line memories whose tags fit no address make the cache transparent. */
  lemma UnusedStart(bus: Bus, even: seq<seq<Line>>, odd: seq<seq<Line>>)
    requires ShapedWays(even) && ShapedWays(odd) && Unused(even) && Unused(odd)
    ensures RunsRight(bus, even, odd) <==> Bus32(bus)
  {
    ColdStartExact(bus, even, odd);
  }

  // ---------- replacement over runs ----------

  /** Every state of every run is reached, for any bus and any line memories. */
  lemma {:induction false} RunReached(
    bus: Bus, s: Banks, even: seq<seq<Line>>, odd: seq<seq<Line>>, addrs: seq<nat>)
    requires Reached(bus, s, even, odd)
    ensures Reached(bus, RunState(bus, s, addrs), even, odd)
    decreases |addrs|
  {
    if addrs != [] {
      FetchedReached(bus, s, even, odd, addrs[0]);
      RunReached(bus, Fetched(bus, s, addrs[0]), even, odd, addrs[1..]);
    }
  }

  ghost predicate Rotations(bank: Bank)
    requires bank.Shape()
  {
    forall i :: 0 <= i < 64 ==> IsRotation(bank.lru[i])
  }

  /** After every run of fetches every replacement word is a rotation of 0, 1, 2, 3. */
  lemma RunRotations(bus: Bus, even: seq<seq<Line>>, odd: seq<seq<Line>>, addrs: seq<nat>)
    requires ShapedWays(even) && ShapedWays(odd)
    ensures var r := RunState(bus, Cold(even, odd), addrs); Rotations(r.even) && Rotations(r.odd)
  {
    var r := RunState(bus, Cold(even, odd), addrs);
    ColdReached(bus, even, odd);
    RunReached(bus, Cold(even, odd), even, odd, addrs);
    forall i | 0 <= i < 64 ensures IsRotation(r.even.lru[i]) && IsRotation(r.odd.lru[i]) {
      assert SetReached(bus, r.even, even, 0, i) && SetReached(bus, r.odd, odd, 1, i);
    }
  }

  /** c misses of its set after a line was filled into way v: it is there alone and 3 - c misses away from being
      the victim, or after the fourth miss it is gone. */
  ghost predicate Aged(bank: Bank, tag: nat, index: nat, v: nat, c: nat)
    requires bank.Shape() && index < 64
  {
    && v < 4 && c <= 4 && IsRotation(bank.lru[index])
    && (c <= 3 ==> v == (bank.lru[index] % 4 + 3 - c) % 4)
    && (forall n :: 0 <= n < 4 ==> (bank.ways[n][index].tag == tag <==> c <= 3 && n == v))
  }

  lemma AgedCached(bank: Bank, tag: nat, index: nat, v: nat, c: nat)
    requires bank.Shape() && index < 64 && Aged(bank, tag, index, v, c)
    ensures Holds(bank, tag, index) <==> c <= 3
  {
    if c <= 3 {
      assert bank.ways[v][index].tag == tag;
    }
  }

  /** One more refill of the set. */
  lemma AgedFill(bus: Bus, bank: Bank, tag: nat, m: BusLine, v: nat, c: nat)
    requires bank.Shape() && m.index < 64 && Aged(bank, tag, m.index, v, c) && c <= 3 && m.tag != tag
    ensures Fill(bus, bank, m).Shape() && Aged(Fill(bus, bank, m), tag, m.index, v, c + 1)
  {
    FillLines(bus, bank, m);
    NextLruRotates(bank.lru[m.index]);
    var r, w := Fill(bus, bank, m), bank.lru[m.index] % 4;
    forall n | 0 <= n < 4 ensures r.ways[n][m.index].tag == tag <==> c + 1 <= 3 && n == v {
      assert r.ways[n][m.index] == if n == w then Image(bus, m) else bank.ways[n][m.index];
    }
  }

  /** A line of a set is touched without being cached. */
  ghost predicate Missed(s: Banks, m: BusLine, odd: nat, index: nat)
    requires s.Shape() && m.index < 64
  {
    m.odd == odd && m.index == index && !Cached(s, m)
  }

  lemma AgedTouch(bus: Bus, s: Banks, l: BusLine, m: BusLine, v: nat, c: nat)
    requires s.Shape() && l.Fits() && m.Fits() && Aged(s.Of(l.odd), l.tag, l.index, v, c)
    requires Missed(s, m, l.odd, l.index) ==> c <= 3
    ensures Aged(Touch(bus, s, m).Of(l.odd), l.tag, l.index, v, if Missed(s, m, l.odd, l.index) then c + 1 else c)
  {
    AgedCached(s.Of(l.odd), l.tag, l.index, v, c);
    if Missed(s, m, l.odd, l.index) {
      AgedFill(bus, s.Of(l.odd), l.tag, m, v, c);
    } else {
      FillLines(bus, s.Of(m.odd), m);
    }
  }

  /** A fetch misses in a set, with one of its two lines. */
  ghost predicate SetMiss(s: Banks, addr: nat, odd: nat, index: nat)
    requires s.Shape()
  {
    Missed(s, PlaceOf(addr).line, odd, index) || Missed(s, PlaceOf(addr + 2).line, odd, index)
  }

  lemma AgedFetch(bus: Bus, s: Banks, l: BusLine, addr: nat, v: nat, c: nat)
    requires s.Shape() && l.Fits() && Aged(s.Of(l.odd), l.tag, l.index, v, c)
    requires SetMiss(s, addr, l.odd, l.index) ==> c <= 3
    ensures Aged(Fetched(bus, s, addr).Of(l.odd), l.tag, l.index, v,
                 if SetMiss(s, addr, l.odd, l.index) then c + 1 else c)
  {
    var p, o := PlaceOf(addr).line, PlaceOf(addr + 2).line;
    SecondLine(addr);
    SecondTouch(bus, s, addr);
    AgedTouch(bus, s, l, p, v, c);
    AgedTouch(bus, Touch(bus, s, p), l, o, v, if Missed(s, p, l.odd, l.index) then c + 1 else c);
  }

  /** How many fetches of a run miss in a set. */
  ghost function Misses(bus: Bus, s: Banks, addrs: seq<nat>, odd: nat, index: nat): nat
    requires s.Shape()
    decreases |addrs|
  {
    if addrs == [] then 0
    else (if SetMiss(s, addrs[0], odd, index) then 1 else 0)
         + Misses(bus, Fetched(bus, s, addrs[0]), addrs[1..], odd, index)
  }

  lemma {:induction false} AgedRun(bus: Bus, s: Banks, l: BusLine, addrs: seq<nat>, v: nat, c: nat, d: nat)
    requires s.Shape() && l.Fits() && Aged(s.Of(l.odd), l.tag, l.index, v, c)
    requires d == c + Misses(bus, s, addrs, l.odd, l.index) && d <= 4
    ensures Aged(RunState(bus, s, addrs).Of(l.odd), l.tag, l.index, v, d)
    decreases |addrs|
  {
    if addrs != [] {
      var n := if SetMiss(s, addrs[0], l.odd, l.index) then c + 1 else c;
      var t := Fetched(bus, s, addrs[0]);
      AgedFetch(bus, s, l, addrs[0], v, c);
      AgedRun(bus, t, l, addrs[1..], v, n, d);
    }
  }

  /** A missing line of a fetch is filled into its bank, and nothing else is. */
  lemma FetchFills(bus: Bus, s: Banks, addr: nat, l: BusLine)
    requires s.Shape() && (l == PlaceOf(addr).line || l == PlaceOf(addr + 2).line) && !Cached(s, l)
    ensures Fetched(bus, s, addr).Of(l.odd) == Fill(bus, s.Of(l.odd), l)
  {
    FetchedHoldsBoth(bus, s, addr);
    SecondLine(addr);
    SecondTouch(bus, s, addr);
    if l != PlaceOf(addr).line {
      OtherBank(bus, s, l, PlaceOf(addr).line);
    }
  }

  lemma FilledAged(bus: Bus, bank: Bank, l: BusLine)
    requires bank.Shape() && l.Fits() && IsRotation(bank.lru[l.index]) && !Holds(bank, l.tag, l.index)
    ensures Fill(bus, bank, l).Shape() && Aged(Fill(bus, bank, l), l.tag, l.index, bank.lru[l.index] % 4, 0)
  {
    FillLines(bus, bank, l);
    NextLruRotates(bank.lru[l.index]);
    var r, v := Fill(bus, bank, l), bank.lru[l.index] % 4;
    forall n | 0 <= n < 4 ensures r.ways[n][l.index].tag == l.tag <==> n == v {
      assert r.ways[n][l.index] == if n == v then Image(bus, l) else bank.ways[n][l.index];
    }
  }

  /** A line that a fetch of a run fills stays cached for three more misses of its set, whatever happens to other
      sets, and the fourth evicts it: for any bus and any line memories at the start. */
  lemma FilledSurvives(bus: Bus, even: seq<seq<Line>>, odd: seq<seq<Line>>, before: seq<nat>, addr: nat, l: BusLine,
                       after: seq<nat>)
    requires ShapedWays(even) && ShapedWays(odd) && (l == PlaceOf(addr).line || l == PlaceOf(addr + 2).line)
    requires !Cached(RunState(bus, Cold(even, odd), before), l)
    ensures var t := Fetched(bus, RunState(bus, Cold(even, odd), before), addr);
            var c := Misses(bus, t, after, l.odd, l.index);
            c <= 4 ==> (Cached(RunState(bus, t, after), l) <==> c <= 3)
  {
    var s := RunState(bus, Cold(even, odd), before);
    var bank, t := s.Of(l.odd), Fetched(bus, s, addr);
    RunRotations(bus, even, odd, before);
    FetchFills(bus, s, addr, l);
    FilledAged(bus, bank, l);
    if Misses(bus, t, after, l.odd, l.index) <= 4 {
      AgedRun(bus, t, l, after, bank.lru[l.index] % 4, 0, Misses(bus, t, after, l.odd, l.index));
      AgedCached(RunState(bus, t, after).Of(l.odd), l.tag, l.index, bank.lru[l.index] % 4,
                 Misses(bus, t, after, l.odd, l.index));
    }
  }
}
