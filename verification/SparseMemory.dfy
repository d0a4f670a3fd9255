/** The DDR model: a sparse memory kept as a sorted doubly linked list of blocks. A block is found by the
    address divided by 1024 but holds far more bytes, so an access across a multiple of 1024 stays in the block
    it starts in: every block has its own view of the addresses. */
module SparseMemory {

  const BLOCK_SIZE: nat := 1048576   // bytes allocated per block

  // ---------- flat memories ----------

  type Flat = map<nat, nat>

  function FlatByte(f: Flat, a: nat): nat {
    if a in f then f[a] else 0
  }

  function FlatWrite(f: Flat, a: nat, data: seq<nat>): Flat
    decreases |data|
  {
    if data == [] then f else FlatWrite(f, a, data[..|data| - 1])[a + |data| - 1 := data[|data| - 1]]
  }

  lemma {:induction false} FlatWriteAt(f: Flat, a: nat, data: seq<nat>, b: nat)
    ensures FlatByte(FlatWrite(f, a, data), b) == if a <= b < a + |data| then data[b - a] else FlatByte(f, b)
    ensures b in FlatWrite(f, a, data) <==> b in f || a <= b < a + |data|
    decreases |data|
  {
    if data != [] {
      FlatWriteAt(f, a, data[..|data| - 1], b);
    }
  }

  /** What each block holds at the addresses it is accessed with. */
  type Views = map<nat, Flat>

  function View(v: Views, bid: nat): Flat {
    if bid in v then v[bid] else map[]
  }

  function ViewWrite(v: Views, off: nat, data: seq<nat>): Views {
    v[off / 1024 := FlatWrite(View(v, off / 1024), off, data)]
  }

  // ---------- blocks ----------

  class Block {
    var nxt: Block?
    var prv: Block?
    var bid: nat
    var m: seq<nat>

    constructor (id: nat)
      ensures bid == id && nxt == null && prv == null && m == seq(BLOCK_SIZE, _ => 0)
    {
      bid, nxt, prv := id, null, null;
      m := seq(BLOCK_SIZE, _ => 0);
    }
  }

  function Next(nodes: seq<Block>, i: nat): Block? {
    if i + 1 < |nodes| then nodes[i + 1] else null
  }

  function Prev(nodes: seq<Block>, i: nat): Block?
    requires i <= |nodes|
  {
    if i > 0 then nodes[i - 1] else null
  }

  /** The links of the i-th block lead to its neighbours. */
  ghost predicate Links(nodes: seq<Block>, i: nat)
    requires i < |nodes|
    reads nodes
  {
    nodes[i].nxt == Next(nodes, i) && nodes[i].prv == Prev(nodes, i)
  }

  ghost predicate Linked(nodes: seq<Block>)
    reads nodes
  {
    forall i :: 0 <= i < |nodes| ==> Links(nodes, i)
  }

  ghost predicate Ascending(nodes: seq<Block>)
    reads nodes
  {
    forall i, j :: 0 <= i < j < |nodes| ==> nodes[i].bid < nodes[j].bid
  }

  ghost predicate Present(nodes: seq<Block>, bid: nat)
    reads nodes
  {
    exists i :: 0 <= i < |nodes| && nodes[i].bid == bid
  }

  /** The bytes of a block are those of its view. */
  ghost predicate Holds(bid: nat, m: seq<nat>, f: Flat) {
    |m| == BLOCK_SIZE && forall k :: 0 <= k < BLOCK_SIZE ==> m[k] == FlatByte(f, 1024 * bid + k)
  }

  ghost predicate Represents(nodes: seq<Block>, v: Views)
    reads nodes
  {
    && (forall i :: 0 <= i < |nodes| ==> Holds(nodes[i].bid, nodes[i].m, View(v, nodes[i].bid)))
    && (forall bid :: bid in v ==> Present(nodes, bid))
  }

  /** A block with the bytes of a write in place. */
  function Spliced(m: seq<nat>, k: nat, data: seq<nat>): seq<nat>
    requires k + |data| <= |m|
  {
    m[..k] + data + m[k + |data|..]
  }

  function Inserted(nodes: seq<Block>, p: nat, n: Block): seq<Block>
    requires p <= |nodes|
  {
    nodes[..p] + [n] + nodes[p..]
  }

  class DDR {
    var mem: Block
    ghost var nodes: seq<Block>
    ghost var views: Views

    ghost predicate Valid()
      reads this, nodes
    {
      && |nodes| > 0 && nodes[0] == mem && mem.bid == 0
      && Linked(nodes) && Ascending(nodes) && Represents(nodes, views)
    }

    constructor ()
      ensures Valid() && views == map[] && fresh(nodes)
    {
      mem := new Block(0);
      new;
      nodes, views := [mem], map[];
    }

    /** Link a new block behind b. */
    method LinkAfter(b: Block, bid: nat) returns (n: Block)
      requires b in nodes && (b.nxt == null || b.nxt in nodes)
      modifies nodes
      ensures fresh(n) && n.bid == bid && n.m == seq(BLOCK_SIZE, _ => 0)
      ensures n.prv == b && n.nxt == old(b.nxt)
      ensures forall x :: x in nodes ==> x.bid == old(x.bid) && x.m == old(x.m)
      ensures forall x :: x in nodes ==> x.nxt == if x == b then n else old(x.nxt)
      ensures forall x :: x in nodes ==> x.prv == if x == old(b.nxt) then n else old(x.prv)
    {
      n := new Block(bid);
      n.nxt := b.nxt;
      n.prv := b;
      b.nxt := n;
      if n.nxt != null {
        n.nxt.prv := n;
      }
    }

    /** Link a new block in front of b. */
    method LinkBefore(b: Block, bid: nat) returns (n: Block)
      requires b in nodes && (b.prv == null || b.prv in nodes)
      modifies nodes
      ensures fresh(n) && n.bid == bid && n.m == seq(BLOCK_SIZE, _ => 0)
      ensures n.prv == old(b.prv) && n.nxt == b
      ensures forall x :: x in nodes ==> x.bid == old(x.bid) && x.m == old(x.m)
      ensures forall x :: x in nodes ==> x.nxt == if x == old(b.prv) then n else old(x.nxt)
      ensures forall x :: x in nodes ==> x.prv == if x == b then n else old(x.prv)
    {
      n := new Block(bid);
      n.prv := b.prv;
      n.nxt := b;
      b.prv := n;
      if n.prv != null {
        n.prv.nxt := n;
      }
    }

    /** Splice a new block in behind position p. */
    method InsertAfter(b: Block, bid: nat, ghost p: nat) returns (n: Block)
      requires p < |nodes| && b == nodes[p] && Linked(nodes) && Ascending(nodes)
      modifies this`nodes, nodes
      ensures fresh(n) && n.bid == bid && n.m == seq(BLOCK_SIZE, _ => 0)
      ensures nodes == Inserted(old(nodes), p + 1, n) && Linked(nodes)
      ensures forall i :: 0 <= i < |old(nodes)| ==>
                            old(nodes)[i].bid == old(nodes[i].bid) && old(nodes)[i].m == old(nodes[i].m)
    {
      Distinct(nodes);
      assert Links(nodes, p);
      n := LinkAfter(b, bid);
      ghost var q := p + 1;
      forall k | 0 <= k < |nodes| ensures LinksAt(nodes, q, n, k) {
        assert old(Links(nodes, k)) && nodes[k] in nodes;
      }
      LinkedAgain(nodes, q, n);
      nodes := Inserted(nodes, p + 1, n);
    }

    /** Splice a new block in at position p, in front of the block that is there. */
    method InsertBefore(b: Block, bid: nat, ghost p: nat) returns (n: Block)
      requires 0 < p < |nodes| && b == nodes[p] && Linked(nodes) && Ascending(nodes)
      modifies this`nodes, nodes
      ensures fresh(n) && n.bid == bid && n.m == seq(BLOCK_SIZE, _ => 0)
      ensures nodes == Inserted(old(nodes), p, n) && Linked(nodes)
      ensures forall i :: 0 <= i < |old(nodes)| ==>
                            old(nodes)[i].bid == old(nodes[i].bid) && old(nodes)[i].m == old(nodes[i].m)
    {
      Distinct(nodes);
      assert Links(nodes, p);
      n := LinkBefore(b, bid);
      forall k | 0 <= k < |nodes| ensures LinksAt(nodes, p, n, k) {
        assert old(Links(nodes, k)) && nodes[k] in nodes;
      }
      LinkedAgain(nodes, p, n);
      nodes := Inserted(nodes, p, n);
    }

    /** The walk along the list: everything before b has a smaller number. */
    method Walk(bid: nat) returns (b: Block, ghost p: nat)
      requires Valid()
      ensures b in nodes && (b.nxt == null || bid <= b.bid)
      ensures p < |nodes| && b == nodes[p] && (p + 1 == |nodes| || bid <= b.bid)
      ensures forall i :: 0 <= i < p ==> nodes[i].bid < bid
    {
      b, p := mem, 0;
      while b.nxt != null && bid > b.bid
        invariant p < |nodes| && b == nodes[p]
        invariant forall i :: 0 <= i < p ==> nodes[i].bid < bid
        decreases |nodes| - p
      {
        assert Links(nodes, p);
        b, p := b.nxt, p + 1;
      }
      assert Links(nodes, p);
    }

    method AddAfter(b: Block, bid: nat, ghost p: nat) returns (n: Block)
      requires Valid() && p + 1 == |nodes| && b == nodes[p] && b.bid < bid
      modifies this`nodes, nodes
      ensures Valid() && nodes == Inserted(old(nodes), p + 1, n) && fresh(n) && n.bid == bid
    {
      ghost var was := nodes;
      n := InsertAfter(b, bid, p);
      SortedIn(was, p + 1, n);
      NewBlock(was, p + 1, n, views);
    }

    method AddBefore(b: Block, bid: nat, ghost p: nat) returns (n: Block)
      requires Valid() && p < |nodes| && b == nodes[p] && bid < b.bid
      requires forall i :: 0 <= i < p ==> nodes[i].bid < bid
      modifies this`nodes, nodes
      ensures Valid() && nodes == Inserted(old(nodes), p, n) && fresh(n) && n.bid == bid
    {
      ghost var was := nodes;
      n := InsertBefore(b, bid, p);
      SortedIn(was, p, n);
      NewBlock(was, p, n, views);
    }

    /** `getpMem`: the block of an address, allocated if it is not there yet. */
    method GetpMem(addr: nat) returns (b: Block)
      requires Valid()
      modifies this`nodes, nodes
      ensures Valid() && b in nodes && b.bid == addr / 1024
      ensures forall x :: x in nodes ==> x in old(nodes) || fresh(x)
    {
      var bid := addr / 1024;
      ghost var p;
      b, p := Walk(bid);
      if b.bid < bid {
        b := AddAfter(b, bid, p);
      } else if b.bid != bid {
        b := AddBefore(b, bid, p);
      }
    }

    /** A read returns the bytes of the view of the block it starts in. */
    method ReadBytes(off: nat, size: nat) returns (data: seq<nat>)
      requires Valid() && size <= 8
      modifies this`nodes, nodes
      ensures Valid() && |data| == size
      ensures forall x :: x in nodes ==> x in old(nodes) || fresh(x)
      ensures forall j :: 0 <= j < size ==> data[j] == FlatByte(View(views, off / 1024), off + j)
    {
      var b := GetpMem(off);
      ghost var i :| 0 <= i < |nodes| && nodes[i] == b;
      assert Holds(nodes[i].bid, nodes[i].m, View(views, nodes[i].bid));
      data := b.m[off % 1024..off % 1024 + size];
      ReadHeld(b.bid, b.m, View(views, b.bid), off, data);
    }

    /** A write changes the view of the block it starts in. */
    method WriteBytes(off: nat, data: seq<nat>)
      requires Valid() && |data| <= 8
      modifies this`nodes, this`views, nodes
      ensures Valid() && views == ViewWrite(old(views), off, data)
      ensures forall x :: x in nodes ==> x in old(nodes) || fresh(x)
    {
      var b := GetpMem(off);
      StoreBytes(b, off, data);
    }

    method StoreBytes(b: Block, off: nat, data: seq<nat>)
      requires Valid() && |data| <= 8 && b in nodes && b.bid == off / 1024
      modifies this`views, b`m
      ensures Valid() && views == ViewWrite(old(views), off, data)
    {
      ghost var i :| 0 <= i < |nodes| && nodes[i] == b;
      HeldWrite(nodes, i, views, off, data);
      StoreBlock(b, Spliced(b.m, off % 1024, data), i, ViewWrite(views, off, data));
    }

    method StoreBlock(b: Block, m: seq<nat>, ghost i: nat, ghost w: Views)
      requires Valid() && i < |nodes| && nodes[i] == b && WouldRepresent(nodes, i, m, w)
      modifies this`views, b`m
      ensures Valid() && views == w
    {
      views := w;
      SetBytes(b, m, i, w);
    }

    /** Replacing the bytes of one block changes nothing else. */
    method SetBytes(b: Block, m: seq<nat>, ghost i: nat, ghost w: Views)
      requires i < |nodes| && nodes[i] == b && Linked(nodes) && Ascending(nodes)
      requires WouldRepresent(nodes, i, m, w)
      modifies b`m
      ensures Linked(nodes) && Ascending(nodes) && Represents(nodes, w)
    {
      Distinct(nodes);
      b.m := m;
      forall j | 0 <= j < |nodes| ensures Links(nodes, j) {
        assert old(Links(nodes, j));
      }
      forall bid | bid in w ensures Present(nodes, bid) {
        assert old(Present(nodes, bid));
      }
    }
  }

  /** The blocks represent the views once block i holds m. */
  ghost predicate WouldRepresent(nodes: seq<Block>, i: nat, m: seq<nat>, w: Views)
    requires i < |nodes|
    reads nodes
  {
    && (forall j :: 0 <= j < |nodes| ==>
                      Holds(nodes[j].bid, if j == i then m else nodes[j].m, View(w, nodes[j].bid)))
    && (forall bid :: bid in w ==> Present(nodes, bid))
  }

  /** What the blocks hold once one of them takes the bytes of a write. */
  lemma HeldWrite(nodes: seq<Block>, i: nat, v: Views, off: nat, data: seq<nat>)
    requires i < |nodes| && Represents(nodes, v) && Ascending(nodes) && nodes[i].bid == off / 1024 && |data| <= 8
    ensures off % 1024 + |data| <= |nodes[i].m|
    ensures WouldRepresent(nodes, i, Spliced(nodes[i].m, off % 1024, data), ViewWrite(v, off, data))
  {
    var w := ViewWrite(v, off, data);
    HeldAfterWrite(nodes[i].bid, nodes[i].m, View(v, nodes[i].bid), off, off % 1024, data);
    forall j | 0 <= j < |nodes| && j != i ensures Holds(nodes[j].bid, nodes[j].m, View(w, nodes[j].bid)) {
      assert nodes[j].bid != nodes[i].bid;
    }
  }

  lemma ReadHeld(bid: nat, m: seq<nat>, f: Flat, off: nat, data: seq<nat>)
    requires Holds(bid, m, f) && bid == off / 1024 && |data| <= 8 && data == m[off % 1024..off % 1024 + |data|]
    ensures forall j :: 0 <= j < |data| ==> data[j] == FlatByte(f, off + j)
  {
    var k := off % 1024;
    assert off == 1024 * bid + k;
    forall j | 0 <= j < |data| ensures data[j] == FlatByte(f, off + j) {
      assert m[k + j] == FlatByte(f, 1024 * bid + (k + j));
    }
  }

  lemma SortedIn(nodes: seq<Block>, p: nat, n: Block)
    requires p <= |nodes| && Ascending(nodes)
    requires forall i :: 0 <= i < p ==> nodes[i].bid < n.bid
    requires forall i :: p <= i < |nodes| ==> n.bid < nodes[i].bid
    ensures Ascending(Inserted(nodes, p, n)) && !Present(nodes, n.bid)
  {
  }

  /** A zeroed block for a block number that is not there represents the same views. */
  lemma NewBlock(nodes: seq<Block>, p: nat, n: Block, v: Views)
    requires p <= |nodes| && Represents(nodes, v) && !Present(nodes, n.bid) && n.m == seq(BLOCK_SIZE, _ => 0)
    ensures Represents(Inserted(nodes, p, n), v)
  {
    var r := Inserted(nodes, p, n);
    assert Holds(n.bid, n.m, View(v, n.bid));
    forall i | 0 <= i < |r| ensures Holds(r[i].bid, r[i].m, View(v, r[i].bid)) {
      assert r[i] == if i < p then nodes[i] else if i == p then n else nodes[i - 1];
    }
    forall bid | bid in v ensures Present(r, bid) {
      var i :| 0 <= i < |nodes| && nodes[i].bid == bid;
      assert r[if i < p then i else i + 1] == nodes[i];
    }
  }

  /** The links around a block spliced in at position p, seen from position k. */
  ghost predicate LinksAt(nodes: seq<Block>, p: nat, n: Block, k: nat)
    requires k < |nodes|
    reads nodes
  {
    && nodes[k].nxt == (if k + 1 == p then n else Next(nodes, k))
    && nodes[k].prv == (if k == p then n else Prev(nodes, k))
  }

  lemma LinkedAgain(nodes: seq<Block>, p: nat, n: Block)
    requires 0 < p <= |nodes| && forall k :: 0 <= k < |nodes| ==> LinksAt(nodes, p, n, k)
    requires n.prv == Prev(nodes, p) && n.nxt == Next(nodes, p - 1)
    ensures Linked(Inserted(nodes, p, n))
  {
    var r := Inserted(nodes, p, n);
    forall i | 0 <= i < |r| ensures Links(r, i) {
      if i < p {
        assert LinksAt(nodes, p, n, i) && r[i] == nodes[i];
      } else if i > p {
        assert LinksAt(nodes, p, n, i - 1) && r[i] == nodes[i - 1];
      }
    }
  }

  lemma Distinct(nodes: seq<Block>)
    requires Ascending(nodes)
    ensures forall i, j :: 0 <= i < j < |nodes| ==> nodes[i] != nodes[j]
  {
  }

  lemma HeldAfterWrite(bid: nat, m: seq<nat>, f: Flat, off: nat, k: nat, data: seq<nat>)
    requires Holds(bid, m, f) && off == 1024 * bid + k && k + |data| <= BLOCK_SIZE
    ensures Holds(bid, Spliced(m, k, data), FlatWrite(f, off, data))
  {
    forall j | 0 <= j < BLOCK_SIZE
      ensures Spliced(m, k, data)[j] == FlatByte(FlatWrite(f, off, data), 1024 * bid + j)
    {
      SplicedAt(m, k, data, j);
      FlatWriteAt(f, off, data, 1024 * bid + j);
      assert m[j] == FlatByte(f, 1024 * bid + j);
    }
  }

  lemma SplicedAt(m: seq<nat>, k: nat, data: seq<nat>, j: nat)
    requires k + |data| <= |m| && j < |m|
    ensures |Spliced(m, k, data)| == |m|
    ensures Spliced(m, k, data)[j] == if k <= j < k + |data| then data[j - k] else m[j]
  {
  }

  // ---------- runs ----------

  datatype Access = Read(off: nat, size: nat) | Write(off: nat, data: seq<nat>) {
    function Size(): nat { if Read? then size else |data| }
    predicate Shape() { Size() <= 8 }
    predicate Covers(a: nat) { off <= a < off + Size() }
    /** The number of the block the access goes to. */
    function Block(): nat { off / 1024 }
    predicate Crosses() { off % 1024 + Size() > 1024 }
  }

  /** The views after the first k accesses. */
  function ViewsAfter(ops: seq<Access>, k: nat): Views
    requires k <= |ops|
  {
    if k == 0 then map[]
    else
      var v := ViewsAfter(ops, k - 1);
      if ops[k - 1].Write? then ViewWrite(v, ops[k - 1].off, ops[k - 1].data) else v
  }

  /** The flat memory after the first k accesses. */
  function FlatAfter(ops: seq<Access>, k: nat): Flat
    requires k <= |ops|
  {
    if k == 0 then map[]
    else
      var f := FlatAfter(ops, k - 1);
      if ops[k - 1].Write? then FlatWrite(f, ops[k - 1].off, ops[k - 1].data) else f
  }

  ghost predicate Answers(f: Flat, op: Access, data: seq<nat>) {
    op.Read? ==> |data| == op.size && forall j :: 0 <= j < op.size ==> data[j] == FlatByte(f, op.off + j)
  }

  /** The answer to access k is what the earlier writes left in its block. */
  ghost predicate Answered(ops: seq<Access>, k: nat, data: seq<nat>)
    requires k < |ops|
  {
    Answers(View(ViewsAfter(ops, k), ops[k].Block()), ops[k], data)
  }

  /** `b_transport` on an offset into the memory. */
  method BTransport(ddr: DDR, op: Access) returns (data: seq<nat>)
    requires ddr.Valid() && op.Shape()
    modifies ddr, ddr.nodes
    ensures ddr.Valid() && ddr.mem == old(ddr.mem)
    ensures forall x :: x in ddr.nodes ==> x in old(ddr.nodes) || fresh(x)
    ensures Answers(View(old(ddr.views), op.Block()), op, data)
    ensures ddr.views == if op.Write? then ViewWrite(old(ddr.views), op.off, op.data) else old(ddr.views)
  {
    match op {
      case Read(off, size) =>
        data := ddr.ReadBytes(off, size);
      case Write(off, bytes) =>
        data := [];
        ddr.WriteBytes(off, bytes);
    }
  }

  method RunOne(ddr: DDR, ops: seq<Access>, k: nat) returns (data: seq<nat>)
    requires k < |ops| && ops[k].Shape() && ddr.Valid() && ddr.views == ViewsAfter(ops, k)
    modifies ddr, ddr.nodes
    ensures ddr.Valid() && ddr.views == ViewsAfter(ops, k + 1)
    ensures Answered(ops, k, data)
    ensures forall i :: 0 <= i < |ddr.nodes| ==> ddr.nodes[i] in old(ddr.nodes) || fresh(ddr.nodes[i])
  {
    data := BTransport(ddr, ops[k]);
  }

  /** Any run of accesses, from a new memory on: a read sees what earlier writes left in the same block. */
  method RunAll(ddr: DDR, ops: seq<Access>) returns (answers: seq<seq<nat>>)
    requires ddr.Valid() && ddr.views == map[]
    requires forall k :: 0 <= k < |ops| ==> ops[k].Shape()
    modifies ddr, ddr.nodes
    ensures ddr.Valid() && |answers| == |ops|
    ensures forall k :: 0 <= k < |ops| ==> Answered(ops, k, answers[k])
  {
    answers := [];
    for k := 0 to |ops|
      invariant ddr.Valid() && ddr.views == ViewsAfter(ops, k) && |answers| == k
      invariant forall i :: 0 <= i < |ddr.nodes| ==> ddr.nodes[i] in old(ddr.nodes) || fresh(ddr.nodes[i])
      invariant forall j :: 0 <= j < k ==> Answered(ops, j, answers[j])
    {
      var data := RunOne(ddr, ops, k);
      answers := answers + [data];
    }
  }

  // ---------- against the flat memory ----------

  /** The last of the first k accesses that writes an address; k if none does. */
  function LastWrite(ops: seq<Access>, k: nat, a: nat): (i: nat)
    requires k <= |ops|
    ensures i < k ==> ops[i].Write? && ops[i].Covers(a)
    ensures forall j :: (if i < k then i + 1 else 0) <= j < k ==> !(ops[j].Write? && ops[j].Covers(a))
    ensures i <= k
  {
    if k == 0 then 0
    else if ops[k - 1].Write? && ops[k - 1].Covers(a) then k - 1
    else
      var i := LastWrite(ops, k - 1, a);
      if i < k - 1 then i else k
  }

  /** The byte the last write to an address left there, 0 if there is none. */
  function LastByte(ops: seq<Access>, k: nat, a: nat): nat
    requires k <= |ops|
  {
    var i := LastWrite(ops, k, a);
    if i == k then 0 else ops[i].data[a - ops[i].off]
  }

  lemma {:induction false} FlatIsLast(ops: seq<Access>, k: nat, a: nat)
    requires k <= |ops|
    ensures FlatByte(FlatAfter(ops, k), a) == LastByte(ops, k, a)
  {
    if k > 0 {
      FlatIsLast(ops, k - 1, a);
      if ops[k - 1].Write? {
        FlatWriteAt(FlatAfter(ops, k - 1), ops[k - 1].off, ops[k - 1].data, a);
      }
    }
  }

  /** A view keeps the last write through its block; it agrees if that was the last write of all. */
  lemma {:induction false} ViewIsLast(ops: seq<Access>, k: nat, a: nat, bid: nat)
    requires k <= |ops|
    requires LastWrite(ops, k, a) < k ==> ops[LastWrite(ops, k, a)].Block() == bid
    ensures FlatByte(View(ViewsAfter(ops, k), bid), a) == LastByte(ops, k, a)
  {
    if k > 0 {
      if ops[k - 1].Write? {
        FlatWriteAt(View(ViewsAfter(ops, k - 1), bid), ops[k - 1].off, ops[k - 1].data, a);
      }
      if !(ops[k - 1].Write? && ops[k - 1].Covers(a)) {
        ViewIsLast(ops, k - 1, a, bid);
      }
    }
  }

  /** The last write to the address, if there is one, went to the block that access k goes to. */
  predicate Through(ops: seq<Access>, k: nat, a: nat)
    requires k < |ops|
  {
    var i := LastWrite(ops, k, a);
    i < k ==> ops[i].Block() == ops[k].Block()
  }

  /** Access k sees at an address what the flat memory holds. */
  predicate SeesFlat(ops: seq<Access>, k: nat, a: nat)
    requires k < |ops|
  {
    FlatByte(View(ViewsAfter(ops, k), ops[k].Block()), a) == FlatByte(FlatAfter(ops, k), a)
  }

  lemma ThroughSees(ops: seq<Access>, k: nat, a: nat)
    requires k < |ops| && Through(ops, k, a)
    ensures SeesFlat(ops, k, a)
  {
    FlatIsLast(ops, k, a);
    ViewIsLast(ops, k, a, ops[k].Block());
  }

  /** The same accesses, with data of the same lengths. */
  predicate SameAccess(a: Access, b: Access) {
    a.Read? == b.Read? && a.off == b.off && a.Size() == b.Size()
  }

  ghost predicate SamePattern(r: seq<Access>, ops: seq<Access>) {
    |r| == |ops| && forall k :: 0 <= k < |ops| ==> SameAccess(r[k], ops[k])
  }

  lemma {:induction false} SameLast(r: seq<Access>, ops: seq<Access>, k: nat, a: nat)
    requires SamePattern(r, ops) && k <= |ops|
    ensures LastWrite(r, k, a) == LastWrite(ops, k, a)
  {
    if k > 0 {
      assert SameAccess(r[k - 1], ops[k - 1]);
      SameLast(r, ops, k - 1, a);
    }
  }

  /** The run in which write i stores ones and every other write stores zeros. */
  function Mark(op: Access, bit: nat): (r: Access)
    ensures SameAccess(r, op)
  {
    if op.Read? then op else Write(op.off, seq(|op.data|, _ => bit))
  }

  function Marked(ops: seq<Access>, i: nat): (r: seq<Access>)
    ensures SamePattern(r, ops)
  {
    seq(|ops|, j requires 0 <= j < |ops| => Mark(ops[j], if j == i then 1 else 0))
  }

  /** Writes through other blocks leave a view alone. */
  lemma {:induction false} MarkedView(ops: seq<Access>, i: nat, k: nat, a: nat, bid: nat)
    requires k <= |ops| && i < |ops| && ops[i].Block() != bid
    ensures FlatByte(View(ViewsAfter(Marked(ops, i), k), bid), a) == 0
  {
    if k > 0 {
      MarkedView(ops, i, k - 1, a, bid);
      var op := Marked(ops, i)[k - 1];
      if op.Write? {
        FlatWriteAt(View(ViewsAfter(Marked(ops, i), k - 1), bid), op.off, op.data, a);
      }
    }
  }

  lemma NotThroughMisses(ops: seq<Access>, k: nat, a: nat)
    requires k < |ops| && !Through(ops, k, a)
    ensures !SeesFlat(Marked(ops, LastWrite(ops, k, a)), k, a)
  {
    var i := LastWrite(ops, k, a);
    var r := Marked(ops, i);
    SameLast(r, ops, k, a);
    FlatIsLast(r, k, a);
    assert SameAccess(r[k], ops[k]);
    MarkedView(ops, i, k, a, ops[k].Block());
  }

  /** Whatever is written, access k sees the flat memory at an address exactly when the last write to that
      address went to the same block. */
  lemma SeesFlatExact(ops: seq<Access>, k: nat, a: nat)
    requires k < |ops|
    ensures (forall r :: SamePattern(r, ops) ==> SeesFlat(r, k, a)) <==> Through(ops, k, a)
  {
    if Through(ops, k, a) {
      forall r | SamePattern(r, ops) ensures SeesFlat(r, k, a) {
        SameLast(r, ops, k, a);
        assert SameAccess(r[k], ops[k]);
        var i := LastWrite(ops, k, a);
        if i < k {
          assert SameAccess(r[i], ops[i]);
        }
        ThroughSees(r, k, a);
      }
    } else {
      NotThroughMisses(ops, k, a);
    }
  }

  /** Every read of the run returns what the flat memory holds. */
  ghost predicate ReadsFlat(ops: seq<Access>) {
    forall k, a :: 0 <= k < |ops| && ops[k].Read? && ops[k].Covers(a) ==> SeesFlat(ops, k, a)
  }

  /** Every byte read was last written through the block of the read. */
  ghost predicate AllThrough(ops: seq<Access>) {
    forall k, a :: 0 <= k < |ops| && ops[k].Read? && ops[k].Covers(a) ==> Through(ops, k, a)
  }

  /** The memory behaves like a flat one for all data exactly when every byte read was last written through
      the block of the read. */
  lemma FlatExact(ops: seq<Access>)
    ensures (forall r :: SamePattern(r, ops) ==> ReadsFlat(r)) <==> AllThrough(ops)
  {
    if AllThrough(ops) {
      forall r: seq<Access> | SamePattern(r, ops) ensures ReadsFlat(r) {
        forall k, a | 0 <= k < |r| && r[k].Read? && r[k].Covers(a) ensures SeesFlat(r, k, a) {
          assert SameAccess(r[k], ops[k]);
          assert Through(ops, k, a);
          SeesFlatExact(ops, k, a);
        }
      }
    }
    if forall r :: SamePattern(r, ops) ==> ReadsFlat(r) {
      forall k, a | 0 <= k < |ops| && ops[k].Read? && ops[k].Covers(a) ensures Through(ops, k, a) {
        forall r | SamePattern(r, ops) ensures SeesFlat(r, k, a) {
          assert SameAccess(r[k], ops[k]) && ReadsFlat(r);
        }
        SeesFlatExact(ops, k, a);
      }
    }
  }

  lemma CoveredBlock(op: Access, a: nat)
    requires !op.Crosses() && op.Covers(a)
    ensures op.Block() == a / 1024
  {
    var q, p := op.off / 1024, op.off % 1024;
    assert a == 1024 * q + (p + (a - op.off)) && p + (a - op.off) < 1024;
  }

  /** Runs without an access across a block end behave like the flat memory. */
  lemma NoCrossing(ops: seq<Access>)
    requires forall k :: 0 <= k < |ops| ==> !ops[k].Crosses()
    ensures ReadsFlat(ops) && AllThrough(ops)
  {
    forall k, a | 0 <= k < |ops| && ops[k].Read? && ops[k].Covers(a)
      ensures Through(ops, k, a) && SeesFlat(ops, k, a)
    {
      CoveredBlock(ops[k], a);
      var i := LastWrite(ops, k, a);
      if i < k {
        CoveredBlock(ops[i], a);
      }
      ThroughSees(ops, k, a);
    }
  }

  lemma MissesBehind(ops: seq<Access>, data: seq<nat>)
    requires |ops| == 2 && ops[0] == Write(1020, data) && ops[1] == Read(1024, 4) && |data| == 8
    ensures FlatByte(View(ViewsAfter(ops, 1), ops[1].Block()), 1024) == 0 && LastByte(ops, 1, 1024) == data[4]
  {
    assert ViewsAfter(ops, 1) == ViewWrite(ViewsAfter(ops, 0), 1020, data);
    assert LastWrite(ops, 1, 1024) == 0;
  }

  /** A write across a block end: a read across the same end returns it, a read behind the end does not. */
  lemma CrossingExample(data: seq<nat>)
    requires |data| == 8 && data[4] != 0
    ensures var w, again, behind := Write(1020, data), Read(1020, 8), Read(1024, 4);
            && (forall a :: again.Covers(a) ==> SeesFlat([w, again], 1, a))
            && !SeesFlat([w, behind], 1, 1024)
  {
    var w, again, behind := Write(1020, data), Read(1020, 8), Read(1024, 4);
    forall a | again.Covers(a) ensures SeesFlat([w, again], 1, a) {
      ThroughSees([w, again], 1, a);
    }
    FlatIsLast([w, behind], 1, 1024);
    MissesBehind([w, behind], data);
  }
}
