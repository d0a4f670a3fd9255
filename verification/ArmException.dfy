/** Exception entry and exit of the Cortex core, with the PUSH and POP of a handler in between. */
module ArmException {
  import opened Bits
  import ArmFlags

  const EXC_RETURN: nat := 0xFFFF_FFF9

  function Wrap32(x: int): nat { x % 0x1_0000_0000 }

  // ---------- memory ----------

  type Memory = map<nat, nat>

  function Byte(m: Memory, a: nat): nat {
    if a in m then m[a] else 0
  }

  /** Little-endian 32-bit accesses. */
  function Read32(m: Memory, a: nat): nat {
    Byte(m, a) + 0x100 * Byte(m, a + 1) + 0x1_0000 * Byte(m, a + 2) + 0x100_0000 * Byte(m, a + 3)
  }

  function Write32(m: Memory, a: nat, w: nat): Memory {
    m[a := w % 0x100][a + 1 := w / 0x100 % 0x100][a + 2 := w / 0x1_0000 % 0x100][a + 3 := w / 0x100_0000 % 0x100]
  }

  lemma ReadBack(m: Memory, a: nat, w: nat)
    requires w < 0x1_0000_0000
    ensures Read32(Write32(m, a, w), a) == w
  {
    var r := Write32(m, a, w);
    assert Byte(r, a) == w % 0x100 && Byte(r, a + 1) == w / 0x100 % 0x100;
    assert Byte(r, a + 2) == w / 0x1_0000 % 0x100 && Byte(r, a + 3) == w / 0x100_0000 % 0x100;
    FourBytes(w);
  }

  lemma FourBytes(w: nat)
    requires w < 0x1_0000_0000
    ensures w == w % 0x100 + 0x100 * (w / 0x100 % 0x100) + 0x1_0000 * (w / 0x1_0000 % 0x100)
                 + 0x100_0000 * (w / 0x100_0000 % 0x100)
  {
    var x := w / 0x100;
    var y := x / 0x100;
    assert y == w / 0x1_0000;
    assert y / 0x100 == w / 0x100_0000;
  }

  lemma WriteElsewhere(m: Memory, a: nat, w: nat, b: nat)
    requires b < a || a + 4 <= b
    ensures Byte(Write32(m, a, w), b) == Byte(m, b)
  {
  }

  /** Two memories agree on the bytes of an address range. */
  ghost predicate SameBytes(m: Memory, n: Memory, from: nat, to: nat) {
    forall b :: from <= b < to ==> Byte(m, b) == Byte(n, b)
  }

  lemma SameWord(m: Memory, n: Memory, from: nat, to: nat, a: nat)
    requires SameBytes(m, n, from, to) && from <= a && a + 4 <= to
    ensures Read32(m, a) == Read32(n, a)
  {
  }

  // ---------- a stack of words ----------

  /** Words written one below the other. */
  function PushWords(m: Memory, a: nat, ws: seq<nat>): Memory
    decreases |ws|
  {
    if ws == [] then m
    else PushWords(Write32(m, Wrap64(a - 4), ws[0]), Wrap64(a - 4), ws[1..])
  }

  function Down(a: nat, n: nat): nat {
    if n == 0 then a else Wrap64(Down(a, n - 1) - 4)
  }

  lemma {:induction false} DownIs(a: nat, n: nat)
    requires 4 * n <= a < 0x1_0000_0000
    ensures Down(a, n) == a - 4 * n
  {
    if n > 0 {
      DownIs(a, n - 1);
    }
  }

  lemma {:induction false} DownStep(a: nat, n: nat)
    ensures Down(a, n + 1) == Down(Wrap64(a - 4), n)
  {
    if n > 0 {
      DownStep(a, n - 1);
    }
  }

  lemma {:induction false} PushAppend(m: Memory, a: nat, us: seq<nat>, ws: seq<nat>)
    ensures PushWords(m, a, us + ws) == PushWords(PushWords(m, a, us), Down(a, |us|), ws)
    decreases |us|
  {
    if us == [] {
      assert us + ws == ws;
    } else {
      assert (us + ws)[1..] == us[1..] + ws;
      PushAppend(Write32(m, Wrap64(a - 4), us[0]), Wrap64(a - 4), us[1..], ws);
      DownStep(a, |us| - 1);
    }
  }

  /** What the stack holds after the writes, and that memory above it is untouched. */
  lemma {:induction false} PushedAbove(m: Memory, a: nat, ws: seq<nat>, b: nat)
    requires 4 * |ws| <= a <= b && a < 0x1_0000_0000
    ensures Byte(PushWords(m, a, ws), b) == Byte(m, b)
    decreases |ws|
  {
    if ws != [] {
      PushedAbove(Write32(m, a - 4, ws[0]), a - 4, ws[1..], b);
      WriteElsewhere(m, a - 4, ws[0], b);
    }
  }

  lemma {:induction false} PushedWord(m: Memory, a: nat, ws: seq<nat>, k: nat)
    requires 4 * |ws| <= a < 0x1_0000_0000 && k < |ws| && ws[k] < 0x1_0000_0000
    ensures Read32(PushWords(m, a, ws), a - 4 * (k + 1)) == ws[k]
    decreases k
  {
    assert Wrap64(a - 4) == a - 4;
    if k == 0 {
      FirstPushed(m, a - 4, ws[0], ws[1..]);
    } else {
      PushedWord(Write32(m, a - 4, ws[0]), a - 4, ws[1..], k - 1);
    }
  }

  lemma FirstPushed(m: Memory, a: nat, w: nat, ws: seq<nat>)
    requires 4 * |ws| <= a < 0x1_0000_0000 && w < 0x1_0000_0000
    ensures Read32(PushWords(Write32(m, a, w), a, ws), a) == w
  {
    var n := Write32(m, a, w);
    ReadBack(m, a, w);
    KeptAbove(n, a, ws, a + 4);
    SameWord(PushWords(n, a, ws), n, a, a + 4, a);
  }

  lemma KeptAbove(m: Memory, a: nat, ws: seq<nat>, to: nat)
    requires 4 * |ws| <= a < 0x1_0000_0000
    ensures SameBytes(PushWords(m, a, ws), m, a, to)
  {
    forall b | a <= b < to ensures Byte(PushWords(m, a, ws), b) == Byte(m, b) {
      PushedAbove(m, a, ws, b);
    }
  }

  /** Four bytes from an address on hold a word, lowest byte first. */
  predicate WordAt(m: Memory, a: nat, w: int) {
    && 0 <= w < 0x1_0000_0000
    && Byte(m, a) == w % 0x100 && Byte(m, a + 1) == w / 0x100 % 0x100
    && Byte(m, a + 2) == w / 0x1_0000 % 0x100 && Byte(m, a + 3) == w / 0x100_0000
  }

  lemma WordReads(m: Memory, a: nat, w: int)
    requires WordAt(m, a, w)
    ensures Read32(m, a) == w
  {
    FourBytes(w);
  }

  lemma WordWritten(m: Memory, a: nat, w: nat)
    requires w < 0x1_0000_0000
    ensures WordAt(Write32(m, a, w), a, w)
  {
    assert w / 0x100_0000 % 0x100 == w / 0x100_0000;
  }

  lemma WordSame(m: Memory, n: Memory, from: nat, to: nat, a: nat, w: int)
    requires SameBytes(m, n, from, to) && from <= a && a + 4 <= to
    ensures WordAt(m, a, w) <==> WordAt(n, a, w)
  {
  }

  /** The k-th word written downwards from a. */
  lemma {:induction false} WordPushed(m: Memory, a: nat, ws: seq<nat>, k: nat)
    requires 4 * |ws| <= a < 0x1_0000_0000 && k < |ws| && ws[k] < 0x1_0000_0000
    ensures WordAt(PushWords(m, a, ws), a - 4 * (k + 1), ws[k])
    decreases k
  {
    assert Wrap64(a - 4) == a - 4;
    var n := Write32(m, a - 4, ws[0]);
    if k == 0 {
      WordWritten(m, a - 4, ws[0]);
      KeptAbove(n, a - 4, ws[1..], a);
      WordSame(PushWords(n, a - 4, ws[1..]), n, a - 4, a, a - 4, ws[0]);
    } else {
      WordPushed(n, a - 4, ws[1..], k - 1);
    }
  }

  /** Below the written words memory stays as it was. */
  lemma {:induction false} PushedBelow(m: Memory, a: nat, ws: seq<nat>, b: nat)
    requires 4 * |ws| <= a < 0x1_0000_0000 && b + 4 * |ws| < a
    ensures Byte(PushWords(m, a, ws), b) == Byte(m, b)
    decreases |ws|
  {
    if ws != [] {
      PushedBelow(Write32(m, a - 4, ws[0]), a - 4, ws[1..], b);
      WriteElsewhere(m, a - 4, ws[0], b);
    }
  }

  // ---------- the core ----------

  /** Registers r0 to r11 by number, the others by name. */
  datatype Core = Core(R: seq<nat>, r12: nat, sp: nat, lr: nat, pc: nat, cpsr: nat, npc: nat, mem: Memory) {
    predicate Shape() { |R| == 12 }

    /** Registers and next address hold 32-bit values. */
    predicate Words() {
      && Shape() && (forall i :: 0 <= i < 12 ==> R[i] < 0x1_0000_0000)
      && r12 < 0x1_0000_0000 && sp < 0x1_0000_0000 && lr < 0x1_0000_0000
      && cpsr < 0x1_0000_0000 && npc < 0x1_0000_0000
    }
  }

  /** The status word with the instruction-set bit T replaced. */
  function WithMode(cpsr: nat, thumb: nat): nat
    requires thumb <= 1
  {
    cpsr - cpsr / 32 % 2 * 32 + 32 * thumb
  }

  function EvenBelow(x: nat): nat { x - x % 2 }

  function OddFrom(x: nat): nat { x - x % 2 + 1 }

  /** The eight words of an exception frame, in the order they are stacked. */
  function Frame(s: Core): seq<nat>
    requires s.Shape()
  {
    [Wrap32(s.R[0]), Wrap32(s.R[1]), Wrap32(s.R[2]), Wrap32(s.R[3]), Wrap32(s.r12), Wrap32(s.lr),
     Wrap32(OddFrom(s.npc)), Wrap32(s.cpsr)]
  }

  /** Continue at a loaded address: bit 0 selects the instruction set. */
  function Branch(s: Core, target: nat): Core {
    s.(cpsr := WithMode(s.cpsr, target % 2), pc := EvenBelow(target), npc := EvenBelow(target))
  }

  function Enter(s: Core, idx: nat): Core
    requires s.Shape()
  {
    var m := PushWords(s.mem, Wrap32(s.sp), Frame(s));
    Entered(s, m, Read32(m, 4 * idx))
  }

  /** The core when the frame has been stacked and the vector loaded. */
  function Entered(s: Core, m: Memory, vector: nat): Core {
    s.(sp := Wrap32(s.sp - 32), lr := EXC_RETURN, cpsr := WithMode(s.cpsr, vector % 2),
       npc := EvenBelow(vector), mem := m)
  }

  function Up(a: nat, n: nat): nat { Wrap64(a + n) }

  /** r0 to r3 as the frame holds them. */
  function LowFromFrame(m: Memory, sp: nat): seq<nat> {
    [Read32(m, Up(sp, 28)), Read32(m, Up(sp, 24)), Read32(m, Up(sp, 20)), Read32(m, Up(sp, 16))]
  }

  function Exit(s: Core): Core
    requires s.Shape()
  {
    var npc := EvenBelow(Read32(s.mem, Up(s.sp, 4)));
    Core(LowFromFrame(s.mem, s.sp) + s.R[4..],
         Read32(s.mem, Up(s.sp, 12)), Wrap32(Up(s.sp, 32)), Read32(s.mem, Up(s.sp, 8)), npc,
         Read32(s.mem, Up(s.sp, 0)), npc, s.mem)
  }

  /** All of the upper 25 bits are set: the value asks for an exception exit. */
  predicate IsReturnCode(target: nat) {
    target % 0x1_0000_0000 / 128 == 0x1FF_FFFF
  }

  function LoadPC(s: Core, address: nat): Core
    requires s.Shape()
  {
    var npc := Read32(s.mem, address);
    if IsReturnCode(npc) then Exit(s) else Branch(s, npc)
  }

  /** The register list of a PUSH or POP: which of the low registers, and whether LR or PC. */
  datatype RegList = RegList(low: seq<bool>, extra: bool) {
    predicate Shape() { |low| <= 8 }
  }

  /** The listed registers below n, highest first. */
  function ListedWords(R: seq<nat>, low: seq<bool>, n: nat): seq<nat>
    requires n <= |low| <= |R|
  {
    if n == 0 then []
    else (if low[n - 1] then [Wrap32(R[n - 1])] else []) + ListedWords(R, low, n - 1)
  }

  function PushedWords(s: Core, l: RegList): seq<nat>
    requires s.Shape() && l.Shape()
  {
    (if l.extra then [Wrap32(s.lr)] else []) + ListedWords(s.R, l.low, |l.low|)
  }

  function Push(s: Core, l: RegList): Core
    requires s.Shape() && l.Shape()
  {
    var ws := PushedWords(s, l);
    s.(sp := Down(s.sp, |ws|), mem := PushWords(s.mem, s.sp, ws))
  }

  /** Load the listed registers from i on, upwards from an address. */
  function PopInto(m: Memory, R: seq<nat>, low: seq<bool>, i: nat, address: nat): (r: (seq<nat>, nat))
    requires i <= |low| <= |R|
    ensures |r.0| == |R|
    decreases |low| - i
  {
    if i == |low| then (R, address)
    else if low[i] then PopInto(m, R[i := Read32(m, address)], low, i + 1, Wrap32(address + 4))
    else PopInto(m, R, low, i + 1, address)
  }

  function Pop(s: Core, l: RegList): Core
    requires s.Shape() && l.Shape()
  {
    var (R, address) := PopInto(s.mem, s.R, l.low, 0, Wrap32(s.sp));
    if l.extra then LoadPC(s.(R := R, sp := Wrap32(address + 4)), address)
    else s.(R := R, sp := address)
  }

  // ---------- loading the registers back ----------

  /** Where a listed register sits among the stacked words. */
  lemma {:induction false} ListedAt(R: seq<nat>, low: seq<bool>, n: nat, i: nat)
    requires i < n <= |low| <= |R| && low[i]
    ensures var ws := ListedWords(R, low, n);
            |ListedWords(R, low, i)| < |ws| && ws[|ws| - 1 - |ListedWords(R, low, i)|] == Wrap32(R[i])
    decreases n
  {
    var head := if low[n - 1] then [Wrap32(R[n - 1])] else [];
    assert ListedWords(R, low, n) == head + ListedWords(R, low, n - 1);
    if i < n - 1 {
      ListedAt(R, low, n - 1, i);
    }
  }

  /** The stacked registers lie below `top` as PUSH left them. */
  ghost predicate StackHolds(m: Memory, ws: seq<nat>, top: nat) {
    4 * |ws| <= top < 0x1_0000_0000 && forall k :: 0 <= k < |ws| ==> Read32(m, top - 4 * (k + 1)) == ws[k]
  }

  /** Loading from register i on: the listed ones get their stacked values, the others stay. */
  ghost predicate Loaded(P: seq<nat>, Q: seq<nat>, R: seq<nat>, low: seq<bool>, i: nat) {
    && |low| <= |P| == |Q| == |R|
    && forall k :: 0 <= k < |P| ==> P[k] == if i <= k < |low| && low[k] then Wrap32(R[k]) else Q[k]
  }

  lemma {:induction false} PopIntoIs(
    m: Memory, Q: seq<nat>, R: seq<nat>, low: seq<bool>, i: nat, top: nat, address: nat)
    requires i <= |low| <= |Q| == |R| && StackHolds(m, ListedWords(R, low, |low|), top)
    requires address == top - 4 * |ListedWords(R, low, |low|)| + 4 * |ListedWords(R, low, i)|
    ensures PopInto(m, Q, low, i, address).1 == top && Loaded(PopInto(m, Q, low, i, address).0, Q, R, low, i)
    decreases |low| - i
  {
    if i < |low| {
      if low[i] {
        ListedWordAt(m, R, low, i, top, address);
        PopIntoIs(m, Q[i := Read32(m, address)], R, low, i + 1, top, address + 4);
      } else {
        PopIntoIs(m, Q, R, low, i + 1, top, address);
      }
    }
  }

  lemma ListedWordAt(m: Memory, R: seq<nat>, low: seq<bool>, i: nat, top: nat, address: nat)
    requires i < |low| <= |R| && low[i] && StackHolds(m, ListedWords(R, low, |low|), top)
    requires address == top - 4 * |ListedWords(R, low, |low|)| + 4 * |ListedWords(R, low, i)|
    ensures Read32(m, address) == Wrap32(R[i]) && Wrap32(address + 4) == address + 4
  {
    ListedAt(R, low, |low|, i);
    var ws := ListedWords(R, low, |low|);
    var k := |ws| - 1 - |ListedWords(R, low, i)|;
    assert Read32(m, top - 4 * (k + 1)) == ws[k];
  }

  // ---------- the round trip ----------

  /** Everything stacked between the interrupt and the handler's body. */
  function Stacked(s: Core, l: RegList): seq<nat>
    requires s.Shape() && l.Shape()
  {
    Frame(s) + ([EXC_RETURN] + ListedWords(s.R, l.low, |l.low|))
  }

  lemma EnteredIs(s: Core, m: Memory, vector: nat)
    requires s.Words() && 32 <= s.sp
    ensures var e := Entered(s, m, vector);
            e.sp == s.sp - 32 && e.R == s.R && e.lr == EXC_RETURN && e.mem == m
  {
  }

  lemma EnterIs(s: Core, idx: nat)
    requires s.Words() && 32 <= s.sp
    ensures var e := Enter(s, idx);
            e.sp == s.sp - 32 && e.R == s.R && e.lr == EXC_RETURN && e.mem == PushWords(s.mem, s.sp, Frame(s))
  {
    var fs := Frame(s);
    assert Wrap32(s.sp) == s.sp;
    var m := PushWords(s.mem, s.sp, fs);
    EnteredIs(s, m, Read32(m, 4 * idx));
  }

  lemma PushIs(e: Core, l: RegList, us: seq<nat>)
    requires e.Shape() && l.Shape() && l.extra && e.lr == EXC_RETURN && e.sp < 0x1_0000_0000
    requires us == [EXC_RETURN] + ListedWords(e.R, l.low, |l.low|) && 4 * |us| <= e.sp
    ensures Push(e, l).sp == e.sp - 4 * |us| && Push(e, l).mem == PushWords(e.mem, e.sp, us)
  {
    assert Wrap32(EXC_RETURN) == EXC_RETURN;
    assert PushedWords(e, l) == us;
    DownIs(e.sp, |us|);
  }

  lemma StackedBy(s: Core, idx: nat, l: RegList)
    requires s.Words() && l.Shape() && l.extra && 4 * |Stacked(s, l)| <= s.sp
    ensures var p := Push(Enter(s, idx), l);
            p.sp == s.sp - 4 * |Stacked(s, l)| && p.mem == PushWords(s.mem, s.sp, Stacked(s, l))
  {
    var us := [EXC_RETURN] + ListedWords(s.R, l.low, |l.low|);
    EnterIs(s, idx);
    PushIs(Enter(s, idx), l, us);
    FrameThenList(s.mem, s.sp, Frame(s), us);
  }

  lemma FrameThenList(m: Memory, sp: nat, fs: seq<nat>, us: seq<nat>)
    requires |fs| == 8 && 32 <= sp < 0x1_0000_0000
    ensures PushWords(m, sp, fs + us) == PushWords(PushWords(m, sp, fs), sp - 32, us)
  {
    PushAppend(m, sp, fs, us);
    DownIs(sp, |fs|);
  }

  /** The handler's body may do anything but move the stack pointer or change the stacked words. */
  ghost predicate BodyKeeps(s: Core, p: Core, h: Core) {
    h.Shape() && h.sp == p.sp && SameBytes(p.mem, h.mem, p.sp, s.sp)
  }

  lemma StackedWord(s: Core, idx: nat, l: RegList, h: Core, k: nat)
    requires s.Words() && l.Shape() && l.extra && 4 * |Stacked(s, l)| <= s.sp && k < |Stacked(s, l)|
    requires BodyKeeps(s, Push(Enter(s, idx), l), h) && Stacked(s, l)[k] < 0x1_0000_0000
    ensures Read32(h.mem, s.sp - 4 * (k + 1)) == Stacked(s, l)[k]
  {
    StackedBy(s, idx, l);
    var p := Push(Enter(s, idx), l);
    PushedWord(s.mem, s.sp, Stacked(s, l), k);
    SameWord(p.mem, h.mem, p.sp, s.sp, s.sp - 4 * (k + 1));
  }

  lemma {:induction false} ListedAreWords(R: seq<nat>, low: seq<bool>, n: nat)
    requires n <= |low| <= |R|
    ensures forall k :: 0 <= k < |ListedWords(R, low, n)| ==> ListedWords(R, low, n)[k] < 0x1_0000_0000
    decreases n
  {
    if n > 0 {
      ListedAreWords(R, low, n - 1);
    }
  }

  lemma StackedAreWords(s: Core, l: RegList)
    requires s.Shape() && l.Shape()
    ensures forall k :: 0 <= k < |Stacked(s, l)| ==> Stacked(s, l)[k] < 0x1_0000_0000
  {
    ListedAreWords(s.R, l.low, |l.low|);
    assert forall k :: 0 <= k < |Frame(s)| ==> Frame(s)[k] < 0x1_0000_0000;
  }

  /** The stacked words, seen from the handler's end. */
  lemma StackKept(s: Core, idx: nat, l: RegList, h: Core)
    requires s.Words() && l.Shape() && l.extra && 4 * |Stacked(s, l)| <= s.sp
    requires BodyKeeps(s, Push(Enter(s, idx), l), h)
    ensures StackHolds(h.mem, Stacked(s, l), s.sp) && h.sp == s.sp - 4 * |Stacked(s, l)|
  {
    StackedBy(s, idx, l);
    StackedAreWords(s, l);
    forall k | 0 <= k < |Stacked(s, l)| ensures Read32(h.mem, s.sp - 4 * (k + 1)) == Stacked(s, l)[k] {
      StackedWord(s, idx, l, h, k);
    }
  }

  lemma StackSplit(m: Memory, us: seq<nat>, ws: seq<nat>, top: nat)
    requires StackHolds(m, us + ws, top)
    ensures StackHolds(m, us, top) && StackHolds(m, ws, top - 4 * |us|)
  {
    forall k | 0 <= k < |us| ensures Read32(m, top - 4 * (k + 1)) == us[k] {
      assert (us + ws)[k] == us[k];
    }
    forall k | 0 <= k < |ws| ensures Read32(m, top - 4 * |us| - 4 * (k + 1)) == ws[k] {
      assert (us + ws)[|us| + k] == ws[k];
      assert Read32(m, top - 4 * (|us| + k + 1)) == ws[k];
    }
  }

  /** The words an exception exit finds. */
  ghost predicate FrameAt(m: Memory, a: nat, s: Core)
    requires s.Shape()
  {
    && Read32(m, a) == s.cpsr && Read32(m, a + 4) == OddFrom(s.npc) && Read32(m, a + 8) == s.lr
    && Read32(m, a + 12) == s.r12 && Read32(m, a + 16) == s.R[3] && Read32(m, a + 20) == s.R[2]
    && Read32(m, a + 24) == s.R[1] && Read32(m, a + 28) == s.R[0]
  }

  lemma FrameStacked(s: Core, m: Memory)
    requires s.Words() && StackHolds(m, Frame(s), s.sp)
    ensures FrameAt(m, s.sp - 32, s)
  {
    FrameIs(s);
    FrameReads(m, s.sp, Frame(s));
  }

  lemma FrameIs(s: Core)
    requires s.Words()
    ensures Frame(s) == [s.R[0], s.R[1], s.R[2], s.R[3], s.r12, s.lr, OddFrom(s.npc), s.cpsr]
  {
    OddFromBelow(s.npc);
    forall k | 0 <= k < 4 ensures Wrap32(s.R[k]) == s.R[k] {
      WordWraps(s.R[k]);
    }
    WordWraps(s.r12);
    WordWraps(s.lr);
    WordWraps(OddFrom(s.npc));
    WordWraps(s.cpsr);
  }

  lemma WordWraps(x: nat)
    requires x < 0x1_0000_0000
    ensures Wrap32(x) == x
  {
  }

  lemma OddFromBelow(x: nat)
    requires x < 0x1_0000_0000
    ensures OddFrom(x) < 0x1_0000_0000
  {
  }

  lemma FrameReads(m: Memory, sp: nat, fs: seq<nat>)
    requires |fs| == 8 && StackHolds(m, fs, sp)
    ensures Read32(m, sp - 32) == fs[7] && Read32(m, sp - 28) == fs[6] && Read32(m, sp - 24) == fs[5]
    ensures Read32(m, sp - 20) == fs[4] && Read32(m, sp - 16) == fs[3] && Read32(m, sp - 12) == fs[2]
    ensures Read32(m, sp - 8) == fs[1] && Read32(m, sp - 4) == fs[0]
  {
  }

  lemma EvenOfOdd(x: nat)
    ensures EvenBelow(OddFrom(x)) == EvenBelow(x)
  {
  }

  /** Registers an interrupt must not disturb: those of the frame, the ones the handler saved, and the stack pointer. */
  ghost predicate Resumed(s: Core, h: Core, r: Core, l: RegList) {
    && s.Shape() && h.Shape() && r.Shape()
    && (forall k :: 0 <= k < 12 ==>
          r.R[k] == if k < 4 || (k < |l.low| && l.low[k]) then s.R[k] else h.R[k])
    && r.r12 == s.r12 && r.sp == s.sp && r.lr == s.lr && r.cpsr == s.cpsr
    && r.npc == r.pc == EvenBelow(s.npc) && r.mem == h.mem
  }

  lemma ExitRestores(s: Core, c: Core)
    requires s.Words() && c.Shape() && 32 <= s.sp && c.sp == s.sp - 32 && FrameAt(c.mem, s.sp - 32, s)
    ensures Resumed(s, c, Exit(c), RegList([], true))
  {
    EvenOfOdd(s.npc);
    UpIs(c.sp);
  }

  lemma UpIs(a: nat)
    requires a + 32 < 0x1_0000_0000
    ensures Up(a, 0) == a && Up(a, 4) == a + 4 && Up(a, 8) == a + 8 && Up(a, 12) == a + 12 && Up(a, 16) == a + 16
    ensures Up(a, 20) == a + 20 && Up(a, 24) == a + 24 && Up(a, 28) == a + 28 && Wrap32(Up(a, 32)) == a + 32
  {
  }

  lemma PopReturns(s: Core, l: RegList, h: Core)
    requires s.Words() && l.Shape() && l.extra && h.Shape()
    requires StackHolds(h.mem, Stacked(s, l), s.sp) && h.sp == s.sp - 4 * |Stacked(s, l)|
    ensures Resumed(s, h, Pop(h, l), l)
  {
    var fs, ws := Frame(s), ListedWords(s.R, l.low, |l.low|);
    StackSplit(h.mem, fs, [EXC_RETURN] + ws, s.sp);
    StackSplit(h.mem, [EXC_RETURN], ws, s.sp - 32);
    FrameStacked(s, h.mem);
    PopIntoIs(h.mem, h.R, s.R, l.low, 0, s.sp - 36, h.sp);
    PopExits(s, l, h, PopInto(h.mem, h.R, l.low, 0, h.sp).0);
  }

  lemma PopExits(s: Core, l: RegList, h: Core, R: seq<nat>)
    requires s.Words() && l.Shape() && l.extra && h.Shape() && 36 <= s.sp && h.sp < 0x1_0000_0000
    requires PopInto(h.mem, h.R, l.low, 0, h.sp) == (R, s.sp - 36) && Loaded(R, h.R, s.R, l.low, 0)
    requires StackHolds(h.mem, [EXC_RETURN], s.sp - 32) && FrameAt(h.mem, s.sp - 32, s)
    ensures Resumed(s, h, Pop(h, l), l)
  {
    ReturnAddress(h.mem, s.sp);
    PopIsExit(h, l, R, s.sp - 36);
    ExitRestores(s, h.(R := R, sp := s.sp - 32));
    ResumedWith(s, h, R, Pop(h, l), l);
  }

  lemma PopIsExit(h: Core, l: RegList, R: seq<nat>, a: nat)
    requires l.Shape() && l.extra && h.Shape() && |R| == 12 && h.sp < 0x1_0000_0000 && a + 4 < 0x1_0000_0000
    requires PopInto(h.mem, h.R, l.low, 0, h.sp) == (R, a)
    requires IsReturnCode(Read32(h.mem, a))
    ensures Pop(h, l) == Exit(h.(R := R, sp := a + 4))
  {
    WordWraps(h.sp);
    WordWraps(a + 4);
    LoadedExit(h.(R := R, sp := a + 4), a);
  }

  lemma LoadedExit(c: Core, a: nat)
    requires c.Shape() && IsReturnCode(Read32(c.mem, a))
    ensures LoadPC(c, a) == Exit(c)
  {
  }

  lemma ResumedWith(s: Core, h: Core, R: seq<nat>, r: Core, l: RegList)
    requires h.Shape() && s.Words() && 32 <= s.sp && l.Shape() && Loaded(R, h.R, s.R, l.low, 0)
    requires Resumed(s, h.(R := R, sp := s.sp - 32), r, RegList([], true))
    ensures Resumed(s, h, r, l)
  {
    forall k | 0 <= k < 12
      ensures r.R[k] == if k < 4 || (k < |l.low| && l.low[k]) then s.R[k] else h.R[k]
    {
      assert Wrap32(s.R[k]) == s.R[k];
      assert 4 <= k ==> r.R[k] == R[k];
    }
  }

  lemma ReturnAddress(m: Memory, sp: nat)
    requires 36 <= sp < 0x1_0000_0000 && StackHolds(m, [EXC_RETURN], sp - 32)
    ensures Read32(m, sp - 36) == EXC_RETURN && IsReturnCode(EXC_RETURN)
  {
    assert [EXC_RETURN][0] == EXC_RETURN;
    assert Read32(m, sp - 32 - 4 * (0 + 1)) == [EXC_RETURN][0];
  }

  /** Entry, PUSH {list, LR}, any body that keeps the stack, POP {list, PC}: the interrupted program resumes. */
  lemma ExceptionRoundTrip(s: Core, idx: nat, l: RegList, h: Core)
    requires s.Words() && l.Shape() && l.extra && 4 * |Stacked(s, l)| <= s.sp
    requires BodyKeeps(s, Push(Enter(s, idx), l), h)
    ensures Resumed(s, h, Pop(h, l), l)
  {
    StackKept(s, idx, l, h);
    PopReturns(s, l, h);
  }

  // ---------- entry and exit, place by place ----------

  /** The status word c is b but for bit 5, which selects the Thumb instruction set. */
  predicate ModeSet(b: nat, c: nat, thumb: nat) {
    c % 32 == b % 32 && c / 32 % 2 == thumb && c / 64 == b / 64
  }

  lemma ModeIsSet(b: nat, thumb: nat)
    requires thumb <= 1
    ensures ModeSet(b, WithMode(b, thumb), thumb)
  {
    var h, m, l := b / 64, b / 32 % 2, b % 32;
    assert b == 64 * h + 32 * m + l;
    var c := WithMode(b, thumb);
    assert c == 64 * h + 32 * thumb + l;
  }

  /** The frame from an address on, lowest word first: status, return address with bit 0 set, LR, r12, r3 to r0. */
  ghost predicate FramePlaced(m: Memory, a: nat, s: Core)
    requires s.Shape()
  {
    && WordAt(m, a, s.cpsr) && ReturnPlaced(m, a + 4, s.npc) && WordAt(m, a + 8, s.lr) && WordAt(m, a + 12, s.r12)
    && WordAt(m, a + 16, s.R[3]) && WordAt(m, a + 20, s.R[2]) && WordAt(m, a + 24, s.R[1]) && WordAt(m, a + 28, s.R[0])
  }

  predicate ReturnPlaced(m: Memory, a: nat, npc: nat) {
    WordAt(m, a, if npc % 2 == 1 then npc else npc + 1)
  }

  /** The word at the vector address v decides where c goes on and in which instruction set. */
  ghost predicate VectorLoaded(s: Core, c: Core, v: nat) {
    forall w :: WordAt(s.mem, v, w) ==> c.npc == w - w % 2 && ModeSet(s.cpsr, c.cpsr, w % 2)
  }

  ghost predicate Untouched(m: Memory, n: Memory, from: int, to: int) {
    forall b: nat :: b < from || to <= b ==> Byte(n, b) == Byte(m, b)
  }

  /** The core c after exception idx has interrupted s; the vector must not lie in the frame. */
  ghost predicate ExceptionEntered(s: Core, c: Core, idx: nat)
    requires s.Shape() && 32 <= s.sp
  {
    && c.R == s.R && c.r12 == s.r12 && c.pc == s.pc
    && c.sp == s.sp - 32 && c.lr == 0xFFFF_FFF9
    && FramePlaced(c.mem, c.sp, s) && Untouched(s.mem, c.mem, c.sp, s.sp)
    && (4 * idx + 4 <= c.sp || s.sp <= 4 * idx ==> VectorLoaded(s, c, 4 * idx))
  }

  lemma FrameWordsPlaced(m: Memory, s: Core)
    requires s.Words() && 32 <= s.sp
    ensures FramePlaced(PushWords(m, s.sp, Frame(s)), s.sp - 32, s)
  {
    FrameIs(s);
    FrameTexts(m, s.sp, Frame(s));
    assert OddFrom(s.npc) == if s.npc % 2 == 1 then s.npc else s.npc + 1;
  }

  lemma FrameTexts(m: Memory, sp: nat, fs: seq<nat>)
    requires |fs| == 8 && 32 <= sp < 0x1_0000_0000 && forall k :: 0 <= k < 8 ==> fs[k] < 0x1_0000_0000
    ensures var n := PushWords(m, sp, fs);
            && WordAt(n, sp - 32, fs[7]) && WordAt(n, sp - 28, fs[6]) && WordAt(n, sp - 24, fs[5])
            && WordAt(n, sp - 20, fs[4]) && WordAt(n, sp - 16, fs[3]) && WordAt(n, sp - 12, fs[2])
            && WordAt(n, sp - 8, fs[1]) && WordAt(n, sp - 4, fs[0])
  {
    forall k | 0 <= k < 8 ensures WordAt(PushWords(m, sp, fs), sp - 4 * (k + 1), fs[k]) {
      WordPushed(m, sp, fs, k);
    }
    WordsDown(PushWords(m, sp, fs), sp, fs);
  }

  lemma WordsDown(n: Memory, sp: nat, fs: seq<nat>)
    requires |fs| == 8 && 32 <= sp && forall k :: 0 <= k < 8 ==> WordAt(n, sp - 4 * (k + 1), fs[k])
    ensures WordAt(n, sp - 32, fs[7]) && WordAt(n, sp - 28, fs[6]) && WordAt(n, sp - 24, fs[5])
    ensures WordAt(n, sp - 20, fs[4]) && WordAt(n, sp - 16, fs[3]) && WordAt(n, sp - 12, fs[2])
    ensures WordAt(n, sp - 8, fs[1]) && WordAt(n, sp - 4, fs[0])
  {
  }

  lemma OutsidePushed(m: Memory, sp: nat, fs: seq<nat>, b: nat)
    requires |fs| == 8 && 32 <= sp < 0x1_0000_0000 && (b < sp - 32 || sp <= b)
    ensures Byte(PushWords(m, sp, fs), b) == Byte(m, b)
  {
    if sp <= b {
      PushedAbove(m, sp, fs, b);
    } else {
      PushedBelow(m, sp, fs, b);
    }
  }

  /** Exception entry, place by place. */
  lemma EntryPlaces(s: Core, idx: nat)
    requires s.Words() && 32 <= s.sp
    ensures ExceptionEntered(s, Enter(s, idx), idx)
  {
    EnterIs(s, idx);
    FrameWordsPlaced(s.mem, s);
    FrameOnly(s.mem, s.sp, Frame(s));
    if 4 * idx + 4 <= s.sp - 32 || s.sp <= 4 * idx {
      VectorTaken(s, idx, 4 * idx);
    }
  }

  lemma FrameOnly(m: Memory, sp: nat, fs: seq<nat>)
    requires |fs| == 8 && 32 <= sp < 0x1_0000_0000
    ensures Untouched(m, PushWords(m, sp, fs), sp - 32, sp)
  {
    forall b: nat | b < sp - 32 || sp <= b ensures Byte(PushWords(m, sp, fs), b) == Byte(m, b) {
      OutsidePushed(m, sp, fs, b);
    }
  }

  lemma VectorTaken(s: Core, idx: nat, v: nat)
    requires s.Words() && 32 <= s.sp && v == 4 * idx && (v + 4 <= s.sp - 32 || s.sp <= v)
    ensures VectorLoaded(s, Enter(s, idx), v)
  {
    var m := PushWords(s.mem, s.sp, Frame(s));
    WordWraps(s.sp);
    FrameOnly(s.mem, s.sp, Frame(s));
    forall w | WordAt(s.mem, v, w) ensures Read32(m, v) == w && ModeSet(s.cpsr, WithMode(s.cpsr, w % 2), w % 2) {
      assert SameBytes(m, s.mem, v, v + 4);
      WordSame(m, s.mem, v, v + 4, v, w);
      WordReads(m, v, w);
      ModeIsSet(s.cpsr, w % 2);
    }
    EnteredVector(s, idx, m, v);
  }

  lemma EnteredVector(s: Core, idx: nat, m: Memory, v: nat)
    requires s.Shape() && m == PushWords(s.mem, Wrap32(s.sp), Frame(s)) && v == 4 * idx
    ensures Enter(s, idx).npc == EvenBelow(Read32(m, v)) && Enter(s, idx).cpsr == WithMode(s.cpsr, Read32(m, v) % 2)
  {
  }

  /** r is the word that the memory holds at an address. */
  ghost predicate Loads(m: Memory, a: nat, r: nat) {
    forall w :: WordAt(m, a, w) ==> r == w
  }

  /** The core c after an exception exit from s: the words of the frame at the stack pointer, whatever they are. */
  ghost predicate ExceptionLeft(s: Core, c: Core)
    requires s.Shape()
  {
    && c.Shape() && c.mem == s.mem && c.sp == s.sp + 32 && c.R[4..] == s.R[4..]
    && Loads(s.mem, s.sp, c.cpsr) && EvenLoaded(s.mem, s.sp + 4, c) && Loads(s.mem, s.sp + 8, c.lr)
    && Loads(s.mem, s.sp + 12, c.r12) && Loads(s.mem, s.sp + 16, c.R[3]) && Loads(s.mem, s.sp + 20, c.R[2])
    && Loads(s.mem, s.sp + 24, c.R[1]) && Loads(s.mem, s.sp + 28, c.R[0])
  }

  /** Execution goes on at the word that the memory holds, without bit 0. */
  ghost predicate EvenLoaded(m: Memory, a: nat, c: Core) {
    forall w :: WordAt(m, a, w) ==> c.pc == c.npc == w - w % 2
  }

  lemma ReadsWord(m: Memory, a: nat)
    ensures Loads(m, a, Read32(m, a))
  {
    forall w | WordAt(m, a, w) ensures Read32(m, a) == w {
      WordReads(m, a, w);
    }
  }

  lemma ExitPlaces(s: Core)
    requires s.Shape() && s.sp + 32 < 0x1_0000_0000
    ensures ExceptionLeft(s, Exit(s))
  {
    UpIs(s.sp);
    ReadsWord(s.mem, s.sp);
    ReadsWord(s.mem, s.sp + 4);
    ReadsWord(s.mem, s.sp + 8);
    ReadsWord(s.mem, s.sp + 12);
    ReadsWord(s.mem, s.sp + 16);
    ReadsWord(s.mem, s.sp + 20);
    ReadsWord(s.mem, s.sp + 24);
    ReadsWord(s.mem, s.sp + 28);
  }

  /** The core c after loading the program counter of s with the word w: from 0xFFFFFF80 on an exception exit, and
      otherwise a branch to w without bit 0, which selects the instruction set. */
  ghost predicate Branched(s: Core, c: Core, w: nat)
    requires s.Shape()
  {
    if w >= 0xFFFF_FF80 then s.sp + 32 < 0x1_0000_0000 ==> ExceptionLeft(s, c)
    else
      && c.pc == c.npc == w - w % 2 && ModeSet(s.cpsr, c.cpsr, w % 2)
      && c == s.(pc := c.pc, npc := c.npc, cpsr := c.cpsr)
  }

  /** The core c goes on at the word at an address. */
  ghost predicate Resumes(s: Core, c: Core, a: nat)
    requires s.Shape()
  {
    forall w :: WordAt(s.mem, a, w) ==> Branched(s, c, w)
  }

  lemma LoadPCPlaces(s: Core, address: nat, w: nat)
    requires s.Shape() && WordAt(s.mem, address, w)
    ensures Branched(s, LoadPC(s, address), w)
  {
    WordReads(s.mem, address, w);
    ReturnRange(w);
    if w >= 0xFFFF_FF80 {
      if s.sp + 32 < 0x1_0000_0000 {
        ExitPlaces(s);
      }
    } else {
      ModeIsSet(s.cpsr, w % 2);
    }
  }

  lemma BranchPlaces(s: Core, address: nat)
    requires s.Shape()
    ensures Resumes(s, LoadPC(s, address), address)
  {
    forall w | WordAt(s.mem, address, w) ensures Branched(s, LoadPC(s, address), w) {
      LoadPCPlaces(s, address, w);
    }
  }

  lemma ReturnRange(w: nat)
    requires w < 0x1_0000_0000
    ensures IsReturnCode(w) <==> w >= 0xFFFF_FF80
  {
    WordWraps(w);
  }

  // ---------- the instructions ----------

  /** The T1 encoding of PUSH and POP: bits 0 to 7 select low registers, bit 8 the extra one. */
  function Decode(instr: nat): (l: RegList)
    ensures l.Shape()
  {
    RegList(seq(8, i requires 0 <= i => Bit(instr, i) == 1), Bit(instr, 8) == 1)
  }

  function FlagsOf(cpsr: nat): ArmFlags.Flags {
    ArmFlags.Flags(cpsr / 0x8000_0000 % 2, cpsr / 0x4000_0000 % 2, cpsr / 0x2000_0000 % 2, cpsr / 0x1000_0000 % 2)
  }

  /** The status word keeps N, Z, C and V in bits 31 to 28. */
  lemma FlagPlaces(n: bit, z: bit, c: bit, v: bit, rest: nat)
    requires rest < 0x1000_0000
    ensures FlagsOf(n * 0x8000_0000 + z * 0x4000_0000 + c * 0x2000_0000 + v * 0x1000_0000 + rest)
         == ArmFlags.Flags(n, z, c, v)
  {
  }

  /** How many of the lowest i bits of an instruction are set. */
  function Listed(instr: nat, i: nat): nat {
    if i == 0 then 0 else Listed(instr, i - 1) + Bit(instr, i - 1)
  }

  lemma {:induction false} ListedGrows(instr: nat, i: nat, j: nat)
    requires i <= j
    ensures Listed(instr, i) <= Listed(instr, j) <= Listed(instr, i) + (j - i)
  {
    if i < j {
      ListedGrows(instr, i, j - 1);
    }
  }

  lemma {:induction false} ListedLength(R: seq<nat>, instr: nat, i: nat)
    requires i <= 8 <= |R|
    ensures |ListedWords(R, Decode(instr).low, i)| == Listed(instr, i)
  {
    if i > 0 {
      ListedLength(R, instr, i - 1);
    }
  }

  /** The core c after PUSH: the registers of the set bits, lowest at the bottom, and LR on top for bit 8. */
  ghost predicate Pushed(s: Core, c: Core, instr: nat)
    requires s.Shape()
  {
    && c == s.(sp := c.sp, mem := c.mem) && c.sp + 4 * Listed(instr, 9) == s.sp
    && (forall i :: 0 <= i < 8 && Bit(instr, i) == 1 ==>
          WordAt(c.mem, c.sp + 4 * Listed(instr, i), s.R[i] % 0x1_0000_0000))
    && (Bit(instr, 8) == 1 ==> WordAt(c.mem, c.sp + 4 * Listed(instr, 8), s.lr % 0x1_0000_0000))
    && Untouched(s.mem, c.mem, c.sp, s.sp)
  }

  lemma PushPlaces(s: Core, instr: nat)
    requires s.Shape() && 4 * Listed(instr, 9) <= s.sp < 0x1_0000_0000
    ensures Pushed(s, Push(s, Decode(instr)), instr)
  {
    var l := Decode(instr);
    var ws := PushedWords(s, l);
    ListedLength(s.R, instr, 8);
    DownIs(s.sp, |ws|);
    PushedOnly(s.mem, s.sp, ws);
    RegistersPushed(s, instr, l, ws);
    if l.extra {
      LinkPushed(s, l, ws);
    }
  }

  lemma RegistersPushed(s: Core, instr: nat, l: RegList, ws: seq<nat>)
    requires s.Shape() && l == Decode(instr) && ws == PushedWords(s, l) && 4 * |ws| <= s.sp < 0x1_0000_0000
    ensures forall i :: 0 <= i < 8 && Bit(instr, i) == 1 ==>
              WordAt(PushWords(s.mem, s.sp, ws), s.sp - 4 * |ws| + 4 * Listed(instr, i), Wrap32(s.R[i]))
  {
    forall i | 0 <= i < 8 && Bit(instr, i) == 1
      ensures WordAt(PushWords(s.mem, s.sp, ws), s.sp - 4 * |ws| + 4 * Listed(instr, i), Wrap32(s.R[i]))
    {
      ListedLength(s.R, instr, i);
      RegisterPushed(s, l, ws, i, Listed(instr, i), s.sp - 4 * |ws| + 4 * Listed(instr, i),
                     Wrap32(s.R[i]));
    }
  }

  lemma PushedOnly(m: Memory, a: nat, ws: seq<nat>)
    requires 4 * |ws| <= a < 0x1_0000_0000
    ensures Untouched(m, PushWords(m, a, ws), a - 4 * |ws|, a)
  {
    forall b: nat | b < a - 4 * |ws| || a <= b ensures Byte(PushWords(m, a, ws), b) == Byte(m, b) {
      if a <= b {
        PushedAbove(m, a, ws, b);
      } else {
        PushedBelow(m, a, ws, b);
      }
    }
  }

  lemma LinkPushed(s: Core, l: RegList, ws: seq<nat>)
    requires s.Shape() && l.Shape() && l.extra && ws == PushedWords(s, l) && 4 * |ws| <= s.sp < 0x1_0000_0000
    ensures WordAt(PushWords(s.mem, s.sp, ws), s.sp - 4, Wrap32(s.lr))
  {
    assert ws[0] == Wrap32(s.lr);
    WordPushed(s.mem, s.sp, ws, 0);
  }

  lemma RegisterPushed(s: Core, l: RegList, ws: seq<nat>, i: nat, below: nat, a: nat, w: nat)
    requires s.Shape() && l.Shape() && i < |l.low| && l.low[i] && ws == PushedWords(s, l) && w == Wrap32(s.R[i])
    requires below == |ListedWords(s.R, l.low, i)| && 4 * |ws| <= s.sp < 0x1_0000_0000
    requires a == s.sp - 4 * |ws| + 4 * below
    ensures WordAt(PushWords(s.mem, s.sp, ws), a, w)
  {
    RegisterIndex(s, l, ws, i, below, w);
    WordFrom(s.mem, s.sp, ws, |ws| - 1 - below, a, w);
  }

  lemma RegisterIndex(s: Core, l: RegList, ws: seq<nat>, i: nat, below: nat, w: nat)
    requires s.Shape() && l.Shape() && i < |l.low| && l.low[i] && ws == PushedWords(s, l) && w == Wrap32(s.R[i])
    requires below == |ListedWords(s.R, l.low, i)|
    ensures below < |ws| && ws[|ws| - 1 - below] == w
  {
    ListedAt(s.R, l.low, |l.low|, i);
    BehindLink(if l.extra then [Wrap32(s.lr)] else [], ListedWords(s.R, l.low, |l.low|), ws, below, w);
  }

  lemma BehindLink(link: seq<nat>, words: seq<nat>, ws: seq<nat>, below: nat, w: nat)
    requires ws == link + words && below < |words| && words[|words| - 1 - below] == w
    ensures below < |ws| && ws[|ws| - 1 - below] == w
  {
  }

  lemma WordFrom(m: Memory, sp: nat, ws: seq<nat>, k: nat, a: nat, w: nat)
    requires 4 * |ws| <= sp < 0x1_0000_0000 && k < |ws| && ws[k] == w < 0x1_0000_0000 && a + 4 * (k + 1) == sp
    ensures WordAt(PushWords(m, sp, ws), a, w)
  {
    WordPushed(m, sp, ws, k);
  }

  /** The core c after POP, if the registers of the set bits are loaded into R from the stack pointer up: it goes on
      at the word above them for bit 8. */
  ghost predicate Popped(s: Core, c: Core, instr: nat, R: seq<nat>)
    requires s.Shape()
  {
    var top := s.sp + 4 * Listed(instr, 8);
    && |R| == 12
    && (forall k :: 0 <= k < 12 ==>
          if k < 8 && Bit(instr, k) == 1 then Loads(s.mem, s.sp + 4 * Listed(instr, k), R[k]) else R[k] == s.R[k])
    && (Bit(instr, 8) == 0 ==> c == s.(R := R, sp := top))
    && (Bit(instr, 8) == 1 ==> Resumes(s.(R := R, sp := top + 4), c, top))
  }

  lemma {:induction false} PoppedFrom(m: Memory, R: seq<nat>, instr: nat, i: nat, a: nat)
    requires i <= 8 && |R| == 12 && a + 4 * (8 - i) < 0x1_0000_0000
    ensures var (Q, top) := PopInto(m, R, Decode(instr).low, i, a);
            && top == a + 4 * (Listed(instr, 8) - Listed(instr, i))
            && (forall k :: 0 <= k < 12 ==>
                  Q[k] == if i <= k < 8 && Bit(instr, k) == 1
                          then Read32(m, PlaceOf(instr, i, k, a)) else R[k])
    decreases 8 - i
  {
    if i < 8 {
      ListedGrows(instr, i + 1, 8);
      if Bit(instr, i) == 1 {
        WordWraps(a + 4);
        PoppedFrom(m, R[i := Read32(m, a)], instr, i + 1, a + 4);
      } else {
        PoppedFrom(m, R, instr, i + 1, a);
      }
      forall k | i < k < 8
        ensures PlaceOf(instr, i, k, a) == PlaceOf(instr, i + 1, k, if Bit(instr, i) == 1 then a + 4 else a)
      {
        ListedGrows(instr, i + 1, k);
      }
    }
  }

  /** Where register k lies when those from i on are loaded from a. */
  function PlaceOf(instr: nat, i: nat, k: nat, a: nat): nat
    requires i <= k
  {
    ListedGrows(instr, i, k);
    a + 4 * (Listed(instr, k) - Listed(instr, i))
  }

  lemma PopPlaces(s: Core, instr: nat) returns (R: seq<nat>)
    requires s.Shape() && s.sp + 36 < 0x1_0000_0000
    ensures Popped(s, Pop(s, Decode(instr)), instr, R)
  {
    var l := Decode(instr);
    var top := s.sp + 4 * Listed(instr, 8);
    ListedGrows(instr, 0, 8);
    WordWraps(s.sp);
    WordWraps(top + 4);
    PoppedFrom(s.mem, s.R, instr, 0, s.sp);
    R := PopInto(s.mem, s.R, l.low, 0, s.sp).0;
    forall k | 0 <= k < 8 && Bit(instr, k) == 1 ensures Loads(s.mem, s.sp + 4 * Listed(instr, k), R[k]) {
      ReadsWord(s.mem, PlaceOf(instr, 0, k, s.sp));
    }
    if Bit(instr, 8) == 1 {
      PopBranches(s, l, R, top);
    }
  }

  lemma PopBranches(s: Core, l: RegList, R: seq<nat>, top: nat)
    requires s.Shape() && l.Shape() && l.extra && |R| == 12 && s.sp < 0x1_0000_0000 && top + 4 < 0x1_0000_0000
    requires PopInto(s.mem, s.R, l.low, 0, s.sp) == (R, top)
    ensures Resumes(s.(R := R, sp := top + 4), Pop(s, l), top)
  {
    WordWraps(s.sp);
    WordWraps(top + 4);
    BranchPlaces(s.(R := R, sp := top + 4), top);
  }

  class CpuCortex {
    var R: seq<nat>
    var r12: nat
    var sp: nat
    var lr: nat
    var pc: nat
    var cpsr: nat
    var npc: nat
    var mem: Memory
    var addr: nat   // address of the current bus transaction

    ghost predicate Valid()
      reads this
    {
      |R| == 12
    }

    ghost function State(): Core
      reads this
    {
      Core(R, r12, sp, lr, pc, cpsr, npc, mem)
    }

    /** One word below the transaction address. */
    method StackWord(w: nat)
      modifies this`addr, this`mem
      ensures addr == Wrap64(old(addr) - 4) && mem == Write32(old(mem), addr, w)
    {
      addr := Wrap64(addr - 4);
      mem := Write32(mem, addr, w);
    }

    method StackWords(ws: seq<nat>)
      modifies this`addr, this`mem
      ensures addr == Down(old(addr), |ws|) && mem == PushWords(old(mem), old(addr), ws)
    {
      ghost var addr0, mem0 := addr, mem;
      for k := 0 to |ws|
        invariant addr == Down(addr0, k) && mem == PushWords(mem0, addr0, ws[..k])
      {
        PushAppend(mem0, addr0, ws[..k], [ws[k]]);
        OneWord(mem, addr, ws[k]);
        assert ws[..k + 1] == ws[..k] + [ws[k]];
        StackWord(ws[k]);
      }
      assert ws[..|ws|] == ws;
    }

    /** The next word upwards, the n-th byte from a base on. */
    method LoadWord(ghost base: nat, ghost n: nat) returns (w: nat)
      requires addr == Up(base, n)
      modifies this`addr
      ensures w == Read32(mem, Up(base, n)) && addr == Up(base, n + 4)
    {
      w := Read32(mem, addr);
      addr := Wrap64(addr + 4);
      UpStep(base, n);
    }

    method SetInstrMode(thumb: nat)
      requires thumb <= 1
      modifies this`cpsr
      ensures cpsr == WithMode(old(cpsr), thumb)
    {
      cpsr := cpsr - cpsr / 32 % 2 * 32 + 32 * thumb;
    }

    method StackFrame()
      requires Valid()
      modifies this`addr, this`mem
      ensures addr == Down(old(addr), |Frame(State())|) && mem == PushWords(old(mem), old(addr), Frame(State()))
    {
      StackWords([Wrap32(R[0]), Wrap32(R[1]), Wrap32(R[2]), Wrap32(R[3]), Wrap32(r12), Wrap32(lr),
                  Wrap32(OddFrom(npc)), Wrap32(cpsr)]);
    }

    method EnterException(idx: nat)
      requires Valid()
      modifies this
      ensures Valid() && State() == Enter(old(State()), idx)
      ensures old(State()).Words() && 32 <= old(sp) ==> ExceptionEntered(old(State()), State(), idx)
    {
      ghost var s := State();
      if s.Words() && 32 <= s.sp {
        EntryPlaces(s, idx);
      }
      addr := Wrap32(sp);
      StackFrame();
      DownWraps(s.sp, |Frame(s)|);
      TakeVector(idx, s);
    }

    /** The registers of the handler, once the frame is stacked. */
    method TakeVector(idx: nat, ghost s: Core)
      requires State() == s.(mem := mem) && Wrap32(addr) == Wrap32(s.sp - 32)
      modifies this`sp, this`lr, this`cpsr, this`npc
      ensures State() == Entered(s, mem, Read32(mem, 4 * idx))
    {
      sp, lr := Wrap32(addr), EXC_RETURN;
      var vector := Read32(mem, 4 * idx);
      SetInstrMode(vector % 2);
      npc := EvenBelow(vector);
    }

    method ExitException()
      requires Valid()
      modifies this
      ensures Valid() && State() == Exit(old(State()))
      ensures old(sp) + 32 < 0x1_0000_0000 ==> ExceptionLeft(old(State()), State())
    {
      ghost var s := State();
      if s.sp + 32 < 0x1_0000_0000 {
        ExitPlaces(s);
      }
      addr := Wrap64(sp);
      LoadStatus(s.sp);
      LoadLinks(s.sp);
      LoadLowRegisters(s.sp);
      sp := Wrap32(addr);
    }

    method LoadStatus(ghost base: nat)
      requires addr == Up(base, 0)
      modifies this`addr, this`cpsr, this`npc, this`pc
      ensures addr == Up(base, 8) && cpsr == Read32(mem, Up(base, 0))
      ensures npc == pc == EvenBelow(Read32(mem, Up(base, 4)))
    {
      cpsr := LoadWord(base, 0);
      var w := LoadWord(base, 4);
      npc := EvenBelow(w);
      pc := npc;
    }

    method LoadLinks(ghost base: nat)
      requires addr == Up(base, 8)
      modifies this`addr, this`lr, this`r12
      ensures addr == Up(base, 16) && lr == Read32(mem, Up(base, 8)) && r12 == Read32(mem, Up(base, 12))
    {
      lr := LoadWord(base, 8);
      r12 := LoadWord(base, 12);
    }

    method LoadLowRegisters(ghost base: nat)
      requires Valid() && addr == Up(base, 16)
      modifies this`addr, this`R
      ensures Valid() && addr == Up(base, 32) && R == LowFromFrame(mem, base) + old(R)[4..]
    {
      var r3 := LoadWord(base, 16);
      var r2 := LoadWord(base, 20);
      var r1 := LoadWord(base, 24);
      var r0 := LoadWord(base, 28);
      R := [r0, r1, r2, r3] + R[4..];
    }

    method LoadWritePC(address: nat)
      requires Valid()
      modifies this
      ensures Valid() && State() == LoadPC(old(State()), address)
      ensures Resumes(old(State()), State(), address)
    {
      BranchPlaces(State(), address);
      var target := Read32(mem, address);
      if IsReturnCode(target) {
        ExitException();
        return;
      }
      SetInstrMode(target % 2);
      pc := EvenBelow(target);
      npc := EvenBelow(target);
    }

    method PushT1(l: RegList)
      requires Valid() && l.Shape()
      modifies this
      ensures Valid() && State() == Push(old(State()), l)
    {
      ghost var s, done := State(), [];
      addr := sp;
      if l.extra {
        PushedNext(s.mem, s.sp, [], Wrap32(lr));
        done := [] + [Wrap32(lr)];
        StackWord(Wrap32(lr));
      }
      StackListed(l.low, s.mem, s.sp, done);
      sp := addr;
    }

    /** The loop over the low registers, highest first. */
    method StackListed(low: seq<bool>, ghost mem0: Memory, ghost base: nat, ghost before: seq<nat>)
      requires Valid() && |low| <= 8 && addr == Down(base, |before|) && mem == PushWords(mem0, base, before)
      modifies this`addr, this`mem
      ensures var ws := before + ListedWords(R, low, |low|);
              addr == Down(base, |ws|) && mem == PushWords(mem0, base, ws)
    {
      ghost var done := before;
      for i := |low| downto 0
        invariant addr == Down(base, |done|) && mem == PushWords(mem0, base, done)
        invariant done + ListedWords(R, low, i) == before + ListedWords(R, low, |low|)
      {
        if low[i] {
          PushedNext(mem0, base, done, Wrap32(R[i]));
          done := done + [Wrap32(R[i])];
          StackWord(Wrap32(R[i]));
        }
      }
      assert done == before + ListedWords(R, low, |low|);
    }

    method PopT1(l: RegList)
      requires Valid() && l.Shape()
      modifies this
      ensures Valid() && State() == Pop(old(State()), l)
    {
      ghost var s := State();
      var address := Wrap32(sp);
      for i := 0 to |l.low|
        invariant Valid() && State() == s.(R := R)
        invariant PopInto(mem, s.R, l.low, 0, Wrap32(s.sp)) == PopInto(mem, R, l.low, i, address)
      {
        if l.low[i] {
          R := R[i := Read32(mem, address)];
          address := Wrap32(address + 4);
        }
      }
      if l.extra {
        sp := Wrap32(address + 4);
        LoadWritePC(address);
      } else {
        sp := address;
      }
    }

    /** The instruction PUSH as it is executed; the length of the instruction is returned. */
    method ExecPush(instr: nat, itMask: nat, itCond: ArmFlags.Cond) returns (length: nat)
      requires Valid()
      modifies this
      ensures Valid() && length == 2
      ensures State() == if ArmFlags.ConditionPassed(FlagsOf(old(cpsr)), itMask, itCond)
                         then Push(old(State()), Decode(instr)) else old(State())
      ensures ArmFlags.ConditionPassed(FlagsOf(old(cpsr)), itMask, itCond) && 4 * Listed(instr, 9) <= old(sp) < P32 ==>
                Pushed(old(State()), State(), instr)
    {
      length := 2;
      if 4 * Listed(instr, 9) <= sp < P32 {
        PushPlaces(State(), instr);
      }
      if ArmFlags.ConditionPassed(FlagsOf(cpsr), itMask, itCond) {
        PushT1(Decode(instr));
      }
    }

    method ExecPop(instr: nat, itMask: nat, itCond: ArmFlags.Cond) returns (length: nat)
      requires Valid()
      modifies this
      ensures Valid() && length == 2
      ensures State() == if ArmFlags.ConditionPassed(FlagsOf(old(cpsr)), itMask, itCond)
                         then Pop(old(State()), Decode(instr)) else old(State())
      ensures ArmFlags.ConditionPassed(FlagsOf(old(cpsr)), itMask, itCond) && old(sp) + 36 < P32 ==>
                exists R :: Popped(old(State()), State(), instr, R)
    {
      length := 2;
      if sp + 36 < P32 {
        ghost var R := PopPlaces(State(), instr);
      }
      if ArmFlags.ConditionPassed(FlagsOf(cpsr), itMask, itCond) {
        PopT1(Decode(instr));
      }
    }
  }

  /** One more stacked word. */
  lemma PushedNext(m: Memory, a: nat, ws: seq<nat>, w: nat)
    ensures Down(a, |ws + [w]|) == Wrap64(Down(a, |ws|) - 4)
    ensures PushWords(m, a, ws + [w]) == Write32(PushWords(m, a, ws), Wrap64(Down(a, |ws|) - 4), w)
  {
    PushAppend(m, a, ws, [w]);
    OneWord(PushWords(m, a, ws), Down(a, |ws|), w);
  }

  lemma OneWord(m: Memory, a: nat, w: nat)
    ensures PushWords(m, a, [w]) == Write32(m, Wrap64(a - 4), w)
  {
    assert [w][1..] == [];
    assert PushWords(Write32(m, Wrap64(a - 4), w), Wrap64(a - 4), []) == Write32(m, Wrap64(a - 4), w);
  }

  /** Truncated to 32 bits, stack addresses do not depend on the wider wrap-around. */
  lemma DownWraps(sp: nat, n: nat)
    ensures Wrap32(Down(Wrap32(sp), n)) == Wrap32(sp - 4 * n)
  {
    DownMod(Wrap32(sp), n);
    ModShift(Wrap32(sp) - 4 * n, sp / 0x1_0000_0000);
  }

  lemma {:induction false} DownMod(a: nat, n: nat)
    ensures Wrap32(Down(a, n)) == Wrap32(a - 4 * n)
  {
    if n > 0 {
      DownMod(a, n - 1);
      WrapStep(Down(a, n - 1), a - 4 * (n - 1));
    }
  }

  lemma ModShift(x: int, k: int)
    ensures Wrap32(x + k * 0x1_0000_0000) == Wrap32(x)
  {
  }

  lemma WrapStep(x: nat, y: int)
    requires Wrap32(x) == Wrap32(y)
    ensures Wrap32(Wrap64(x - 4)) == Wrap32(y - 4)
  {
    var q := (x - 4) / 0x1_0000_0000_0000_0000;
    ModShift(x - 4, -q * 0x1_0000_0000);
    ModShift(y - 4, x / 0x1_0000_0000 - y / 0x1_0000_0000);
  }

  lemma UpStep(a: nat, n: nat)
    ensures Wrap64(Up(a, n) + 4) == Up(a, n + 4)
  {
  }
}
