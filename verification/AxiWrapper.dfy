/** The bus wrapper of the RTL core: a clocked burst state machine between AXI channels and a blocking bus. */
module AxiWrapper {
  import opened Bits

  const ADDR_LIMIT: nat := 0x1_0000_0000_0000   // 48-bit bus addresses
  const INCR: nat := 1
  const SLVERR: nat := 2

  datatype Option<T> = None | Some(value: T)

  datatype Request = Request(addr: nat, len: nat, burst: nat)

  datatype Phase = Idle | Read | Write | Reset

  datatype Regs = Regs(phase: Phase, addr: nat, len: nat, burst: nat, bValid: bool, bResp: nat,
                       rError: bool, wError: bool)

  /** What one clock sees: the requests raised, a pending reset, and whether the beat's bus access failed. */
  datatype Input = Input(ar: Option<Request>, aw: Option<Request>, reset: bool, failed: bool)

  datatype Output = Output(ready: bool, rValid: bool, rLast: bool, rResp: nat, wReady: bool, bValid: bool, bResp: nat)

  // ---------- combinational part ----------

  predicate Ready(r: Regs, i: Input) {
    match r.phase
    case Idle => !i.reset
    case Read => r.len == 0
    case Write => r.len == 0
    case Reset => false
  }

  /** The address of the next beat; only incrementing bursts keep one. */
  function NextAddr(r: Regs): nat {
    if r.burst == INCR then (r.addr + 8) % 0x1_0000_0000_0000 else 0
  }

  function Accept(v: Regs, i: Input): Regs {
    var w := v.(rError := false, wError := false);
    if i.ar.Some? then w.(phase := Read, addr := i.ar.value.addr, len := i.ar.value.len, burst := i.ar.value.burst)
    else if i.aw.Some? then
      w.(phase := Write, addr := i.aw.value.addr, len := i.aw.value.len, burst := i.aw.value.burst)
    else w.(phase := Idle)
  }

  /** The next registers. Fields that no branch assigns keep what an earlier evaluation left in v. */
  function Comb(r: Regs, v: Regs, i: Input): Regs {
    var w := v.(bValid := false, bResp := 0);
    match r.phase
    case Idle =>
      if i.reset then w.(rError := false, wError := false, phase := Reset) else Accept(w, i)
    case Read =>
      if r.len == 0 then Accept(w, i)
      else w.(rError := r.rError || i.failed, len := r.len - 1, addr := NextAddr(r))
    case Write =>
      if r.len == 0 then Accept(w.(bValid := true, bResp := if r.wError || i.failed then SLVERR else 0), i)
      else w.(wError := r.wError || i.failed, len := r.len - 1, addr := NextAddr(r))
    case Reset => w.(phase := Idle)
  }

  function Outputs(r: Regs, i: Input): Output {
    Output(Ready(r, i), r.phase == Read, r.phase == Read && r.len == 0,
           if r.rError || (r.phase == Read && i.failed) then SLVERR else 0,
           r.phase == Write, r.bValid, r.bResp)
  }

  /** One clock. */
  function Step(r: Regs, i: Input): Regs {
    Comb(r, r, i)
  }

  /** Registers that cannot be told apart: outside a burst the request fields do not matter. */
  predicate Same(x: Regs, y: Regs) {
    x == y ||
    ((x.phase == Idle || x.phase == Reset) && x == y.(addr := x.addr, len := x.len, burst := x.burst))
  }

  /** What an evaluation relies on in v: the fields that the current phase does not assign. */
  predicate Kept(r: Regs, v: Regs) {
    && (r.phase == Read && r.len != 0 ==> v.phase == Read && v.burst == r.burst && v.wError == r.wError)
    && (r.phase == Write && r.len != 0 ==> v.phase == Write && v.burst == r.burst && v.rError == r.rError)
    && (r.phase == Reset ==> v.rError == r.rError && v.wError == r.wError)
  }

  /** One more evaluation within a clock, after an input or the bus answer has changed. */
  lemma Settles(r: Regs, v: Regs, i: Input)
    requires Kept(r, v)
    ensures Same(Comb(r, v, i), Step(r, i)) && Kept(r, Comb(r, v, i))
  {
    if Ready(r, i) {
      var b, c := r.phase == Write, if r.phase == Write && (r.wError || i.failed) then SLVERR else 0;
      AcceptAgain(v.(bValid := b, bResp := c), r.(bValid := b, bResp := c), i);
    }
  }

  lemma AcceptAgain(v: Regs, w: Regs, j: Input)
    requires v.bValid == w.bValid && v.bResp == w.bResp
    ensures Same(Accept(v, j), Accept(w, j))
  {
  }

  /** Any number of evaluations in one clock. */
  function Evaluated(r: Regs, v: Regs, seen: seq<Input>): Regs {
    if seen == [] then v else Comb(r, Evaluated(r, v, seen[..|seen| - 1]), seen[|seen| - 1])
  }

  /** Only the last evaluation of a clock counts, whatever the earlier ones saw. */
  lemma {:induction false} SettlesAll(r: Regs, seen: seq<Input>)
    ensures Kept(r, Evaluated(r, r, seen))
    ensures seen != [] ==> Same(Evaluated(r, r, seen), Step(r, seen[|seen| - 1]))
  {
    if seen != [] {
      SettlesAll(r, seen[..|seen| - 1]);
      Settles(r, Evaluated(r, r, seen[..|seen| - 1]), seen[|seen| - 1]);
    }
  }

  lemma SameSteps(x: Regs, y: Regs, i: Input)
    requires Same(x, y)
    ensures Outputs(x, i) == Outputs(y, i) && Same(Step(x, i), Step(y, i))
  {
  }

  // ---------- the module ----------

  class RtlWrapper {
    var r: Regs
    var v: Regs

    constructor ()
      ensures r == v == Regs(Idle, 0, 0, 0, false, 0, false, false)
    {
      r := Regs(Idle, 0, 0, 0, false, 0, false, false);
      v := Regs(Idle, 0, 0, 0, false, 0, false, false);
    }

    method CombProc(i: Input) returns (o: Output)
      modifies this`v
      ensures v == Comb(r, old(v), i) && o == Outputs(r, i)
    {
      var ready, rValid, rLast, wReady := false, false, false, false;
      var rResp := 0;
      v := v.(bValid := false, bResp := 0);
      match r.phase {
        case Idle =>
          v := v.(rError := false, wError := false);
          if i.reset {
            v := v.(phase := Reset);
          } else {
            ready := true;
          }
        case Read =>
          rValid := true;
          if r.len == 0 {
            ready, rLast := true, true;
          } else {
            v := v.(rError := r.rError || i.failed, len := r.len - 1, addr := NextAddr(r));
          }
        case Write =>
          wReady := true;
          if r.len == 0 {
            v := v.(bValid := true, bResp := if r.wError || i.failed then SLVERR else 0);
            ready := true;
          } else {
            v := v.(wError := r.wError || i.failed, len := r.len - 1, addr := NextAddr(r));
          }
        case Reset =>
          v := v.(phase := Idle);
      }
      if ready {
        v := Accept(v, i);
      }
      if r.rError || (r.phase == Read && i.failed) {
        rResp := SLVERR;
      }
      o := Output(ready, rValid, rLast, rResp, wReady, r.bValid, r.bResp);
    }

    method Registers()
      modifies this`r
      ensures r == v
    {
      r := v;
    }

    /** A clock in which the inputs change any number of times before they settle. */
    method Clock(seen: seq<Input>) returns (o: Output)
      requires v == r && seen != []
      modifies this
      ensures r == v && Same(r, Step(old(r), seen[|seen| - 1])) && o == Outputs(old(r), seen[|seen| - 1])
    {
      o := CombProc(seen[0]);
      assert seen[..1] == [seen[0]] && seen[..1][..0] == [];
      for k := 1 to |seen|
        invariant r == old(r) && v == Evaluated(r, old(r), seen[..k]) && o == Outputs(r, seen[k - 1])
      {
        assert seen[..k + 1][..k] == seen[..k];
        o := CombProc(seen[k]);
      }
      assert seen[..|seen|] == seen;
      SettlesAll(r, seen);
      Registers();
    }
  }

  // ---------- runs ----------

  function StateAt(r: Regs, ins: seq<Input>, k: nat): Regs
    requires k <= |ins|
  {
    if k == 0 then r else Step(StateAt(r, ins, k - 1), ins[k - 1])
  }

  predicate AnyFailed(ins: seq<Input>, from: nat, to: nat)
    requires to <= |ins|
  {
    exists j :: from <= j < to && ins[j].failed
  }

  const FIXED: nat := 0
  const WRAP: nat := 2

  /** The address of beat k: only incrementing bursts keep one beyond the first beat. */
  function BeatAddr(q: Request, k: nat): nat {
    if k == 0 then q.addr
    else if q.burst == INCR then (q.addr + 8 * k) % 0x1_0000_0000_0000
    else 0
  }

  lemma NextBeat(q: Request, k: nat)
    requires q.addr < ADDR_LIMIT
    ensures BeatAddr(q, k + 1) == if q.burst == INCR then (BeatAddr(q, k) + 8) % 0x1_0000_0000_0000 else 0
  {
  }

  /** The registers in beat k of a read burst accepted in clock t. */
  ghost predicate InRead(r: Regs, q: Request, k: nat, failedBefore: bool) {
    && k <= q.len && r.phase == Read && r.addr == BeatAddr(q, k) && r.len == q.len - k && r.burst == q.burst
    && r.rError == failedBefore
  }

  ghost predicate InWrite(r: Regs, q: Request, k: nat, failedBefore: bool) {
    && k <= q.len && r.phase == Write && r.addr == BeatAddr(q, k) && r.len == q.len - k && r.burst == q.burst
    && r.wError == failedBefore
  }

  lemma {:induction false} ReadBeats(r: Regs, ins: seq<Input>, t: nat, q: Request, k: nat)
    requires t + 1 + k <= |ins| && k <= q.len && q.addr < ADDR_LIMIT
    requires Ready(StateAt(r, ins, t), ins[t]) && ins[t].ar == Some(q)
    ensures InRead(StateAt(r, ins, t + 1 + k), q, k, AnyFailed(ins, t + 1, t + 1 + k))
    decreases k
  {
    if k > 0 {
      ReadBeats(r, ins, t, q, k - 1);
      NextBeat(q, k - 1);
      OneMore(ins, t + 1, t + k);
    }
  }

  lemma OneMore(ins: seq<Input>, from: nat, to: nat)
    requires from <= to < |ins|
    ensures AnyFailed(ins, from, to + 1) <==> AnyFailed(ins, from, to) || ins[to].failed
  {
  }

  /** A read burst of length n, of any type: exactly n + 1 beats, last on the final one only, and an error on a
      beat exactly when that beat or an earlier one of the burst failed. */
  lemma ReadBurst(r: Regs, ins: seq<Input>, t: nat, q: Request, k: nat)
    requires t + 1 + k < |ins| && k <= q.len && q.addr < ADDR_LIMIT
    requires Ready(StateAt(r, ins, t), ins[t]) && ins[t].ar == Some(q)
    ensures var s, o := StateAt(r, ins, t + 1 + k), Outputs(StateAt(r, ins, t + 1 + k), ins[t + 1 + k]);
            && o.rValid && s.addr == BeatAddr(q, k)
            && (o.rLast <==> k == q.len) && (o.ready <==> k == q.len)
            && o.rResp == if AnyFailed(ins, t + 1, t + 2 + k) then SLVERR else 0
  {
    ReadBeats(r, ins, t, q, k);
    OneMore(ins, t + 1, t + 1 + k);
  }

  lemma {:induction false} WriteBeats(r: Regs, ins: seq<Input>, t: nat, q: Request, k: nat)
    requires t + 1 + k <= |ins| && k <= q.len && q.addr < ADDR_LIMIT
    requires Ready(StateAt(r, ins, t), ins[t]) && ins[t].ar == None && ins[t].aw == Some(q)
    ensures InWrite(StateAt(r, ins, t + 1 + k), q, k, AnyFailed(ins, t + 1, t + 1 + k))
    ensures k > 0 ==> !StateAt(r, ins, t + 1 + k).bValid
    decreases k
  {
    if k > 0 {
      WriteBeats(r, ins, t, q, k - 1);
      NextBeat(q, k - 1);
      OneMore(ins, t + 1, t + k);
    }
  }

  /** A write burst, of any type: n + 1 data beats, no response before the end, and one response in the clock after
      the last beat that reports a failure of any beat. */
  lemma WriteBurst(r: Regs, ins: seq<Input>, t: nat, q: Request, k: nat)
    requires t + 1 + k < |ins| && k <= q.len && q.addr < ADDR_LIMIT
    requires Ready(StateAt(r, ins, t), ins[t]) && ins[t].ar == None && ins[t].aw == Some(q)
    ensures var s, o := StateAt(r, ins, t + 1 + k), Outputs(StateAt(r, ins, t + 1 + k), ins[t + 1 + k]);
            && o.wReady && s.addr == BeatAddr(q, k) && (o.ready <==> k == q.len) && (k > 0 ==> !o.bValid)
    ensures var s := StateAt(r, ins, t + 2 + k);
            && (s.bValid <==> k == q.len)
            && (k == q.len ==> s.bResp == if AnyFailed(ins, t + 1, t + 2 + k) then SLVERR else 0)
  {
    WriteBeats(r, ins, t, q, k);
    OneMore(ins, t + 1, t + 1 + k);
  }

  // ---------- between bursts ----------

  /** The outputs of clock k of a run. */
  function OutputAt(r: Regs, ins: seq<Input>, k: nat): Output
    requires k < |ins|
  {
    Outputs(StateAt(r, ins, k), ins[k])
  }

  /** Neither channel offers or takes a beat. */
  predicate NoBeat(o: Output) {
    !o.rValid && !o.rLast && !o.wReady
  }

  /** A reset seen by an idle wrapper: it is not ready in that clock and the next one, and in the one after that it
      is idle again, and ready unless there is another reset. */
  lemma ResetTakesOneClock(r: Regs, ins: seq<Input>, k: nat)
    requires k + 2 < |ins| && StateAt(r, ins, k).phase == Idle && ins[k].reset
    ensures !OutputAt(r, ins, k).ready && NoBeat(OutputAt(r, ins, k))
    ensures !OutputAt(r, ins, k + 1).ready && NoBeat(OutputAt(r, ins, k + 1)) && !OutputAt(r, ins, k + 1).bValid
    ensures StateAt(r, ins, k + 2).phase == Idle && NoBeat(OutputAt(r, ins, k + 2))
    ensures OutputAt(r, ins, k + 2).ready <==> !ins[k + 2].reset
  {
    assert StateAt(r, ins, k + 2) == Step(StateAt(r, ins, k + 1), ins[k + 1]);
  }

  /** The clocks that pass before a wrapper that sees no reset is ready. */
  function Wait(r: Regs): nat {
    match r.phase
    case Idle => 0
    case Reset => 1
    case _ => r.len
  }

  /** From any state a wrapper that sees no reset is ready after exactly that many clocks. */
  lemma {:induction false} ReadyAfter(r: Regs, ins: seq<Input>, k: nat)
    requires Wait(r) < |ins| && k <= Wait(r)
    requires forall j :: 0 <= j < |ins| ==> !ins[j].reset
    ensures Wait(StateAt(r, ins, k)) == Wait(r) - k
    ensures OutputAt(r, ins, k).ready <==> k == Wait(r)
  {
    if k > 0 {
      ReadyAfter(r, ins, k - 1);
    }
  }

  /** A request raised in a ready clock starts its burst in the next one, a read before a write. */
  lemma RequestStarts(r: Regs, ins: seq<Input>, k: nat)
    requires k + 1 < |ins| && OutputAt(r, ins, k).ready
    ensures ins[k].ar.Some? ==>
              var s := StateAt(r, ins, k + 1);
              OutputAt(r, ins, k + 1).rValid && !OutputAt(r, ins, k + 1).wReady
              && s.addr == ins[k].ar.value.addr && s.len == ins[k].ar.value.len && s.burst == ins[k].ar.value.burst
    ensures ins[k].ar.None? && ins[k].aw.Some? ==>
              var s := StateAt(r, ins, k + 1);
              OutputAt(r, ins, k + 1).wReady && !OutputAt(r, ins, k + 1).rValid
              && s.addr == ins[k].aw.value.addr && s.len == ins[k].aw.value.len && s.burst == ins[k].aw.value.burst
    ensures ins[k].ar.None? && ins[k].aw.None? ==>
              NoBeat(OutputAt(r, ins, k + 1)) && (OutputAt(r, ins, k + 1).ready <==> !ins[k + 1].reset)
    ensures OutputAt(r, ins, k + 1).bValid <==> OutputAt(r, ins, k).wReady
  {
    assert StateAt(r, ins, k + 1) == Step(StateAt(r, ins, k), ins[k]);
  }

  // ---------- the addresses of a burst ----------

  /** Address k of a burst that wraps from the end of a block, low + total, to its start. */
  function WrapAddr(addr: nat, low: int, total: nat, k: nat): int {
    if k == 0 then addr
    else
      var next := WrapAddr(addr, low, total, k - 1) + 8;
      if next >= low + total then next - total else next
  }

  /** The addresses of section A3.4.1 of the AMBA AXI specification, for transfers of eight bytes: the start
      address for the first one, aligned addresses after it in an incrementing burst. */
  function SpecAddr(q: Request, k: nat): int {
    if k == 0 || q.burst == FIXED then q.addr
    else if q.burst == WRAP then
      var total := 8 * (q.len + 1);
      WrapAddr(q.addr, q.addr / total * total, total, k)
    else (q.addr / 8 * 8 + 8 * k) % 0x1_0000_0000_0000
  }

  /** The aligned word a transfer belongs to. */
  function Word(addr: int): int { addr / 8 * 8 }

  lemma WordOf(word: nat, lane: nat)
    requires word % 8 == 0 && lane < 8
    ensures Word(word + lane) == word && (word + lane) % 8 == lane
  {
  }

  /** Beats after the first one: where the register points, and where it should. */
  lemma IncrementingBeat(q: Request, k: nat)
    requires q.burst == INCR && k > 0
    ensures BeatAddr(q, k) % 8 == q.addr % 8 && SpecAddr(q, k) % 8 == 0
    ensures Word(BeatAddr(q, k)) == Word(SpecAddr(q, k)) == SpecAddr(q, k)
  {
    var n := q.addr / 8 + k;
    var m := n % 0x2000_0000_0000;
    Reduced(n, 0);
    Reduced(n, q.addr % 8);
    WordOf(8 * m, 0);
    WordOf(8 * m, q.addr % 8);
  }

  lemma Reduced(n: nat, lane: nat)
    requires lane < 8
    ensures (8 * n + lane) % 0x1_0000_0000_0000 == 8 * (n % 0x2000_0000_0000) + lane
  {
    var q, m := n / 0x2000_0000_0000, n % 0x2000_0000_0000;
    assert 8 * n + lane == q * 0x1_0000_0000_0000 + (8 * m + lane);
  }

  lemma BlockOf(addr: nat, total: nat)
    requires total > 0
    ensures var low := addr / total * total; 0 <= low <= addr < low + total && (addr < total ==> low == 0)
  {
    DivModDef(addr, total);
    MulMono(0, addr / total, total);
    if addr < total {
      DivModUnique(addr, total, 0, addr);
    }
  }

  /** The beats of a wrapping burst after the first one: the second is in word 0 only if the first is in the last
      word of the lowest block, and the third is elsewhere then. */
  lemma WrapBeats(addr: nat, low: int, total: nat)
    requires total >= 16 && low <= addr < low + total && (addr < total ==> low == 0) && 0 <= low
    ensures 0 <= WrapAddr(addr, low, total, 1) < 8 <==> total - 8 <= addr < total
    ensures total - 8 <= addr < total && total > 16 ==> WrapAddr(addr, low, total, 2) >= 8
  {
    assert WrapAddr(addr, low, total, 1) == if addr + 8 >= low + total then addr + 8 - total else addr + 8;
  }

  /** All beats after the first one belong to word 0, where the register points. */
  ghost predicate AllAtZero(q: Request) {
    forall k :: 1 <= k <= q.len ==> AtZero(q, k)
  }

  predicate AtZero(q: Request, k: nat) {
    0 <= SpecAddr(q, k) < 8
  }

  lemma WrapAtZero(q: Request)
    requires q.burst == WRAP
    ensures AllAtZero(q) <==> q.len == 0 || (q.len == 1 && 8 <= q.addr < 16)
  {
    var total := 8 * (q.len + 1);
    BlockOf(q.addr, total);
    if q.len > 0 {
      WrapBeats(q.addr, q.addr / total * total, total);
      assert AtZero(q, 1) <==> total - 8 <= q.addr < total;
      if q.len > 1 {
        assert !AtZero(q, 1) || !AtZero(q, 2);
        assert !AllAtZero(q);
      }
    }
  }

  /** Where every beat of a burst goes to the right word. */
  predicate WordsRight(q: Request) {
    || q.burst == INCR
    || q.len == 0
    || (q.burst == FIXED && q.addr < 8)
    || (q.burst == WRAP && q.len == 1 && 8 <= q.addr < 16)
  }

  /** All beats are in the words the specification puts them in exactly under that condition. */
  lemma BeatsRight(q: Request)
    requires q.burst <= WRAP
    ensures (forall k :: 0 <= k <= q.len ==> SameWord(q, k)) <==> WordsRight(q)
  {
    if q.burst == INCR {
      forall k | 0 <= k <= q.len ensures SameWord(q, k) {
        if k > 0 {
          IncrementingBeat(q, k);
        }
      }
    } else {
      assert SameWord(q, 0);
      if q.burst == WRAP {
        WrapAtZero(q);
      } else if q.len > 0 {
        assert SameWord(q, 1) <==> q.addr < 8;
      }
      assert (forall k :: 0 <= k <= q.len ==> SameWord(q, k)) <==> AllAtZero(q) by {
        forall k | 1 <= k <= q.len ensures SameWord(q, k) <==> AtZero(q, k) {
        }
      }
    }
  }

  predicate SameWord(q: Request, k: nat) {
    Word(BeatAddr(q, k)) == Word(SpecAddr(q, k))
  }

  // ---------- the data of a read beat ----------

  type Bus = nat -> nat

  /** The eight bytes read at the register's address, moved up to the byte lanes from its offset on. */
  function ReadLanes(bus: Bus, addr: nat): (lanes: seq<nat>)
    ensures |lanes| == 8
  {
    var payload := seq(8, i requires 0 <= i => bus(addr + i));
    var toff := addr % 8;
    seq(8, j requires 0 <= j < 8 => if j < toff then 0 else payload[j - toff])
  }

  lemma LaneIs(bus: Bus, addr: nat, word: nat, j: nat)
    requires j < 8 && word == Word(addr)
    ensures ReadLanes(bus, addr)[j] == if j < addr % 8 then 0 else bus(word + j)
  {
    if j >= addr % 8 {
      assert addr + (j - addr % 8) == word + j;
    }
  }

  /** A transfer from an address delivers its bytes on the lanes from its offset on. */
  ghost predicate Delivered(bus: Bus, at: nat, lanes: seq<nat>)
    requires |lanes| == 8
  {
    forall j :: at % 8 <= j < 8 ==> lanes[j] == bus(Word(at) + j)
  }

  /** Reading at `addr` serves a transfer from `at`. */
  ghost predicate Serves(bus: Bus, addr: nat, at: nat) {
    Delivered(bus, at, ReadLanes(bus, addr))
  }

  ghost predicate ServesAlways(addr: nat, at: nat) {
    forall bus :: Serves(bus, addr, at)
  }

  lemma ServesWord(bus: Bus, addr: nat, at: nat)
    requires Word(addr) == Word(at) && addr % 8 <= at % 8
    ensures Serves(bus, addr, at)
  {
    var word := Word(at);
    forall j | at % 8 <= j < 8 ensures ReadLanes(bus, addr)[j] == bus(word + j) {
      LaneIs(bus, addr, word, j);
    }
  }

  /** Whatever the bus holds, the lanes are right exactly if the word is and no lane is lost below the offset. */
  lemma LanesExact(addr: nat, at: nat)
    ensures ServesAlways(addr, at) <==> Word(addr) == Word(at) && addr % 8 <= at % 8
  {
    if Word(addr) == Word(at) && addr % 8 <= at % 8 {
      forall bus: Bus ensures Serves(bus, addr, at) {
        ServesWord(bus, addr, at);
      }
    } else {
      var bus := (a: nat) => a + 1;
      LaneIs(bus, addr, Word(addr), 7);
      LaneIs(bus, addr, Word(addr), at % 8);
      assert !Serves(bus, addr, at);
    }
  }

  lemma SpecAddrNat(q: Request, k: nat)
    requires q.burst <= WRAP
    ensures SpecAddr(q, k) >= 0
  {
    if q.burst == WRAP {
      var total := 8 * (q.len + 1);
      BlockOf(q.addr, total);
      WrapAddrNat(q.addr, q.addr / total * total, total, k);
    }
  }

  lemma {:induction false} WrapAddrNat(addr: nat, low: int, total: nat, k: nat)
    requires 0 <= low <= addr && total > 0
    ensures WrapAddr(addr, low, total, k) >= low
  {
    if k > 0 {
      WrapAddrNat(addr, low, total, k - 1);
    }
  }

  /** Beat k of the read burst accepted in clock t delivers what it should, whatever the bus holds. */
  ghost predicate BeatReads(r: Regs, ins: seq<Input>, t: nat, q: Request, k: nat)
    requires t + 1 + k <= |ins| && q.burst <= WRAP
  {
    SpecAddrNat(q, k);
    ServesAlways(StateAt(r, ins, t + 1 + k).addr, SpecAddr(q, k))
  }

  /** A read also has to start where a word does, unless it has a single beat. */
  predicate ReadsRight(q: Request) {
    WordsRight(q) && (q.burst == INCR ==> q.len == 0 || q.addr % 8 == 0)
  }

  lemma ReadBeatRight(q: Request, k: nat)
    requires k <= q.len && q.burst <= WRAP
    ensures Word(BeatAddr(q, k)) == Word(SpecAddr(q, k)) && BeatAddr(q, k) % 8 <= SpecAddr(q, k) % 8 <==>
            SameWord(q, k) && (q.burst == INCR && k > 0 ==> q.addr % 8 == 0)
  {
    if q.burst == INCR && k > 0 {
      IncrementingBeat(q, k);
    }
  }

  /** In every run the beats of an accepted read burst deliver the right bytes, whatever the bus holds, if and only
      if the condition holds. */
  lemma ReadBurstPlaced(r: Regs, ins: seq<Input>, t: nat, q: Request)
    requires t + 1 + q.len <= |ins| && q.addr < ADDR_LIMIT && q.burst <= WRAP
    requires Ready(StateAt(r, ins, t), ins[t]) && ins[t].ar == Some(q)
    ensures (forall k :: 0 <= k <= q.len ==> BeatReads(r, ins, t, q, k)) <==> ReadsRight(q)
  {
    forall k | 0 <= k <= q.len
      ensures BeatReads(r, ins, t, q, k) <==> SameWord(q, k) && (q.burst == INCR && k > 0 ==> q.addr % 8 == 0)
    {
      ReadBeats(r, ins, t, q, k);
      SpecAddrNat(q, k);
      LanesExact(BeatAddr(q, k), SpecAddr(q, k));
      ReadBeatRight(q, k);
    }
    BeatsRight(q);
    assert q.len > 0 && q.burst == INCR && q.addr % 8 != 0 ==> !BeatReads(r, ins, t, q, 1);
  }

  /** A two-beat incrementing read from address 4: the second beat is read at 12 instead of 8, and its first four
      byte lanes come back as zeros. */
  lemma UnalignedReadExample(bus: Bus)
    requires bus(8) != 0
    ensures var q := Request(4, 1, INCR);
            BeatAddr(q, 1) == 12 && SpecAddr(q, 1) == 8 && !Serves(bus, 12, 8) && WordsRight(q) && !ReadsRight(q)
  {
    LaneIs(bus, 12, 8, 0);
    assert Word(8) + 0 == 8;
  }

  /** A two-beat fixed burst at address 8: the second beat is read at 0. */
  lemma FixedBurstExample(bus: Bus)
    requires bus(7) != bus(15)
    ensures var q := Request(8, 1, FIXED);
            BeatAddr(q, 1) == 0 && SpecAddr(q, 1) == 8 && !Serves(bus, 0, 8) && !WordsRight(q)
  {
    LaneIs(bus, 0, 0, 7);
    assert Word(8) + 7 == 15;
  }

  // ---------- conservation over whole runs ----------

  /** Handshakes and outputs of the clocks before the k-th. */
  datatype Tally = Tally(readsTaken: nat, lasts: nat, beatsAsked: nat, beatsRead: nat,
                         writesTaken: nat, lost: nat, responses: nat)

  function Count(r: Regs, ins: seq<Input>, k: nat): Tally
    requires k <= |ins|
  {
    if k == 0 then Tally(0, 0, 0, 0, 0, 0, 0)
    else
      var n, s, i := Count(r, ins, k - 1), StateAt(r, ins, k - 1), ins[k - 1];
      var o := Outputs(s, i);
      var taken := o.ready && i.ar.Some?;
      Tally(n.readsTaken + (if taken then 1 else 0),
            n.lasts + (if o.rLast then 1 else 0),
            n.beatsAsked + (if taken then i.ar.value.len + 1 else 0),
            n.beatsRead + (if o.rValid then 1 else 0),
            n.writesTaken + (if o.ready && i.aw.Some? then 1 else 0),
            n.lost + (if taken && i.aw.Some? then 1 else 0),
            n.responses + (if o.bValid then 1 else 0))
  }

  /** Every read is answered beat for beat with one last beat; every write address taken gets one response,
      except those raised together with a read. */
  lemma {:induction false} Conserved(r: Regs, ins: seq<Input>, k: nat)
    requires k <= |ins| && r.phase == Idle && !r.bValid
    ensures var n, s := Count(r, ins, k), StateAt(r, ins, k);
            && n.readsTaken == n.lasts + (if s.phase == Read then 1 else 0)
            && n.beatsAsked == n.beatsRead + (if s.phase == Read then s.len + 1 else 0)
            && n.writesTaken == n.responses + n.lost + (if s.phase == Write then 1 else 0) + (if s.bValid then 1 else 0)
  {
    if k > 0 {
      Conserved(r, ins, k - 1);
    }
  }

  predicate Together(r: Regs, i: Input) {
    Ready(r, i) && i.ar.Some? && i.aw.Some?
  }

  /** In no clock before the k-th are both requests raised to a ready wrapper. */
  predicate NeverTogether(r: Regs, ins: seq<Input>, k: nat)
    requires k <= |ins|
  {
    k == 0 || (NeverTogether(r, ins, k - 1) && !Together(StateAt(r, ins, k - 1), ins[k - 1]))
  }

  /** No write goes unanswered exactly when the master never raises both requests to a ready wrapper. */
  lemma {:induction false} WritesAnswered(r: Regs, ins: seq<Input>, k: nat)
    requires k <= |ins| && r.phase == Idle && !r.bValid
    ensures var n, s := Count(r, ins, k), StateAt(r, ins, k);
            n.writesTaken == n.responses + (if s.phase == Write then 1 else 0) + (if s.bValid then 1 else 0)
            <==> NeverTogether(r, ins, k)
  {
    Conserved(r, ins, k);
    LostIs(r, ins, k);
  }

  /** Both requests raised to an idle wrapper: the read is served, the write taken and forgotten. */
  lemma LostWriteExample(q: Request, w: Request)
    requires q.len == 0
    ensures var idle := Regs(Idle, 0, 0, 0, false, 0, false, false);
            var quiet := Input(None, None, false, false);
            var ins := [Input(Some(q), Some(w), false, false), quiet, quiet];
            var n, s := Count(idle, ins, 3), StateAt(idle, ins, 3);
            n.writesTaken == 1 && n.responses == 0 && s.phase == Idle && !s.bValid
  {
    var idle := Regs(Idle, 0, 0, 0, false, 0, false, false);
    var quiet := Input(None, None, false, false);
    var ins := [Input(Some(q), Some(w), false, false), quiet, quiet];
    assert StateAt(idle, ins, 1) == Step(idle, ins[0]);
    assert StateAt(idle, ins, 2) == Step(StateAt(idle, ins, 1), quiet);
    assert Count(idle, ins, 1).writesTaken == 1;
  }

  lemma {:induction false} LostIs(r: Regs, ins: seq<Input>, k: nat)
    requires k <= |ins|
    ensures Count(r, ins, k).lost == 0 <==> NeverTogether(r, ins, k)
  {
    if k > 0 {
      LostIs(r, ins, k - 1);
    }
  }

  // ---------- the bus access of a write beat ----------

  /** The first selected byte lane; 0 if there is none. */
  ghost predicate IsOffset(mask: nat, off: nat) {
    && off < 8 && (forall j :: 0 <= j < off ==> Bit(mask, j) == 0)
    && (Bit(mask, off) == 1 || (off == 0 && forall j :: 0 <= j < 8 ==> Bit(mask, j) == 0))
  }

  /** The number of selected byte lanes in a row. */
  ghost predicate IsRun(mask: nat, size: nat) {
    && size <= 8 && (forall j :: 0 <= j < size ==> Bit(mask, j) == 1)
    && (size < 8 ==> Bit(mask, size) == 0)
  }

  method Mask2Offset(mask: nat) returns (off: nat)
    ensures IsOffset(mask, off)
  {
    var m := mask;
    for i := 0 to 8
      invariant m == Shr(mask, i)
      invariant forall j :: 0 <= j < i ==> Bit(mask, j) == 0
    {
      LowestBit(mask, i);
      if m % 2 == 1 {
        return i;
      }
      m := m / 2;
    }
    off := 0;
  }

  method Mask2Size(mask: nat) returns (size: nat)
    ensures IsRun(mask, size)
  {
    var m := mask;
    size := 0;
    for i := 0 to 8
      invariant size == i && m == Shr(mask, i)
      invariant forall j :: 0 <= j < i ==> Bit(mask, j) == 1
    {
      LowestBit(mask, i);
      if m % 2 == 0 {
        break;
      }
      size := size + 1;
      m := m / 2;
    }
  }

  lemma LowestBit(mask: nat, i: nat)
    ensures Shr(mask, i) % 2 == Bit(mask, i) && Shr(mask, i) / 2 == Shr(mask, i + 1)
  {
    BitOfShr(mask, i, 0);
    ShrShr(mask, i, 1);
    var m := Shr(mask, i);
    assert Shr(m, 1) == Shr(m / 2, 0) == m / 2;
  }

  /** The eight byte lanes of a strobe. */
  function Lanes(strobe: nat): seq<bool> {
    seq(8, b requires 0 <= b => Bit(strobe, b) == 1)
  }

  ghost predicate Contiguous(lanes: seq<bool>) {
    forall a, b, c :: 0 <= a < b < c < |lanes| && lanes[a] && lanes[c] ==> lanes[b]
  }

  /** The selected lanes are those of an access of a size at an offset. */
  ghost predicate Covers(lanes: seq<bool>, off: nat, size: nat) {
    forall b :: 0 <= b < |lanes| ==> (lanes[b] <==> off <= b < off + size)
  }

  /** The bytes of a word that a strobe selects. */
  ghost predicate Strobed(word: int, strobe: nat, a: nat) {
    word <= a < word + 8 && Bit(strobe, a - word) == 1
  }

  /** The access writes exactly those bytes. */
  ghost predicate WritesExactly(from: int, size: nat, word: int, strobe: nat) {
    forall a: nat :: from <= a < from + size <==> Strobed(word, strobe, a)
  }

  /** The access that a write beat at an address makes. */
  ghost predicate AccessOf(addr: nat, strobe: nat, from: int, size: nat) {
    exists off: nat :: IsOffset(strobe, off) && from == Word(addr) + off && IsRun(Shr(strobe, off), size)
  }

  /** The access of a write beat: it writes exactly the strobed bytes of its word, each with the data of its own
      lane, if and only if they are contiguous. */
  method WriteAccess(addr: nat, strobe: nat, wdata: seq<nat>) returns (busAddr: nat, size: nat, payload: seq<nat>)
    requires strobe < 256 && |wdata| == 8
    ensures AccessOf(addr, strobe, busAddr, size) && Word(addr) <= busAddr && busAddr + size <= Word(addr) + 8
    ensures WritesExactly(busAddr, size, Word(addr), strobe) <==> Contiguous(Lanes(strobe))
    ensures true in Lanes(strobe) ==> size > 0
    ensures size <= |payload| && forall i :: 0 <= i < size ==> payload[i] == wdata[busAddr + i - Word(addr)]
  {
    var off := Mask2Offset(strobe);
    busAddr := addr / 8 * 8;
    if off != 0 {
      busAddr := busAddr + off;
    }
    size := Mask2Size(Shr(strobe, off));
    payload := wdata[off..];
    FirstRun(strobe, off, size);
    RunExact(Word(addr), strobe, off, size);
  }

  lemma RunExact(word: nat, strobe: nat, off: nat, size: nat)
    requires off + size <= 8
    ensures WritesExactly(word + off, size, word, strobe) <==> Covers(Lanes(strobe), off, size)
  {
    var lanes := Lanes(strobe);
    if WritesExactly(word + off, size, word, strobe) {
      forall b | 0 <= b < |lanes| ensures lanes[b] <==> off <= b < off + size {
        assert Strobed(word, strobe, word + b) <==> lanes[b];
      }
    }
    if Covers(lanes, off, size) {
      forall a: nat ensures word + off <= a < word + off + size <==> Strobed(word, strobe, a) {
        if word <= a < word + 8 {
          assert lanes[a - word] <==> off <= a - word < off + size;
        }
      }
    }
  }

  /** Writing at `addr` serves a transfer to `at`, for every contiguous strobe. */
  ghost predicate WriteServes(addr: nat, at: nat, strobe: nat) {
    forall from, size :: AccessOf(addr, strobe, from, size) ==> WritesExactly(from, size, Word(at), strobe)
  }

  ghost predicate WriteServesAlways(addr: nat, at: nat) {
    forall strobe :: strobe < 256 && Contiguous(Lanes(strobe)) ==> WriteServes(addr, at, strobe)
  }

  /** The low address bits are masked: only the word matters. */
  lemma WritesExact(addr: nat, at: nat)
    ensures WriteServesAlways(addr, at) <==> Word(addr) == Word(at)
  {
    if Word(addr) == Word(at) {
      forall strobe: nat, from, size | strobe < 256 && Contiguous(Lanes(strobe)) && AccessOf(addr, strobe, from, size)
        ensures WritesExactly(from, size, Word(at), strobe)
      {
        var off: nat :| IsOffset(strobe, off) && from == Word(addr) + off && IsRun(Shr(strobe, off), size);
        FirstRun(strobe, off, size);
        RunExact(Word(addr), strobe, off, size);
      }
    }
    if WriteServesAlways(addr, at) {
      FirstLaneOnly(addr, 1);
      assert WriteServes(addr, at, 1);
      assert Strobed(Word(at), 1, Word(at));
    }
  }

  lemma FirstLaneOnly(addr: nat, strobe: nat)
    requires strobe == 1
    ensures AccessOf(addr, strobe, Word(addr), 1) && Bit(strobe, 0) == 1 && Contiguous(Lanes(strobe))
  {
    forall j | 1 <= j < 8 ensures Bit(strobe, j) == 0 {
      BitAbove(strobe, 1, j);
    }
    assert Shr(strobe, 0) == strobe;
    assert IsOffset(strobe, 0) && IsRun(Shr(strobe, 0), 1);
  }

  /** Beat k of the write burst accepted in clock t writes the strobed bytes of the word it should. */
  ghost predicate BeatWrites(r: Regs, ins: seq<Input>, t: nat, q: Request, k: nat)
    requires t + 1 + k <= |ins| && q.burst <= WRAP
  {
    SpecAddrNat(q, k);
    WriteServesAlways(StateAt(r, ins, t + 1 + k).addr, SpecAddr(q, k))
  }

  /** In every run the beats of an accepted write burst write the right bytes for every contiguous strobe if and
      only if the words are right. */
  lemma WriteBurstPlaced(r: Regs, ins: seq<Input>, t: nat, q: Request)
    requires t + 1 + q.len <= |ins| && q.addr < ADDR_LIMIT && q.burst <= WRAP
    requires Ready(StateAt(r, ins, t), ins[t]) && ins[t].ar == None && ins[t].aw == Some(q)
    ensures (forall k :: 0 <= k <= q.len ==> BeatWrites(r, ins, t, q, k)) <==> WordsRight(q)
  {
    forall k | 0 <= k <= q.len ensures BeatWrites(r, ins, t, q, k) <==> SameWord(q, k) {
      WriteBeats(r, ins, t, q, k);
      SpecAddrNat(q, k);
      WritesExact(BeatAddr(q, k), SpecAddr(q, k));
    }
    BeatsRight(q);
  }

  /** Offset and size describe the first run of selected lanes. */
  lemma FirstRun(strobe: nat, off: nat, size: nat)
    requires strobe < 256 && IsOffset(strobe, off) && IsRun(Shr(strobe, off), size)
    ensures off + size <= 8 && (Covers(Lanes(strobe), off, size) <==> Contiguous(Lanes(strobe)))
    ensures true in Lanes(strobe) ==> size > 0
  {
    RunEnds(strobe, off, size);
    var lanes := Lanes(strobe);
    forall b | off <= b < off + size ensures lanes[b] {
      BitOfShr(strobe, off, b - off);
    }
    if off + size < 8 {
      BitOfShr(strobe, off, size);
    }
    if Bit(strobe, off) != 1 {
      forall j | 0 <= j < |lanes| ensures !lanes[j] {
        assert Bit(strobe, j) == 0;
      }
    }
    RunCovers(lanes, off, size);
  }

  lemma RunEnds(strobe: nat, off: nat, size: nat)
    requires strobe < 256 && off < 8 && size <= 8
    requires forall j :: 0 <= j < size ==> Bit(Shr(strobe, off), j) == 1
    ensures off + size <= 8
  {
    if off + size > 8 {
      NoNinthLane(strobe);
      BitOfShr(strobe, off, 8 - off);
    }
  }

  lemma NoNinthLane(strobe: nat)
    requires strobe < 256
    ensures Bit(strobe, 8) == 0
  {
    assert Pow2(8) == 256;
    BitAbove(strobe, 8, 8);
  }

  lemma RunCovers(lanes: seq<bool>, off: nat, size: nat)
    requires off < |lanes| && off + size <= |lanes|
    requires forall j :: 0 <= j < off ==> !lanes[j]
    requires lanes[off] || (forall j :: 0 <= j < |lanes| ==> !lanes[j])
    requires forall b :: off <= b < off + size ==> lanes[b]
    requires off + size < |lanes| ==> !lanes[off + size]
    ensures Covers(lanes, off, size) <==> Contiguous(lanes)
    ensures true in lanes ==> size > 0
  {
    if Contiguous(lanes) {
      forall b | off + size <= b < |lanes| ensures !lanes[b] {
      }
    }
  }
}
