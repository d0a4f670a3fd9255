/** The clock callback queue: a bounded pre-queue, a growing main queue, and removal by swapping. */
module ClockQueue {

  const PREQUEUE: nat := 1024

  /** A callback registered for a time; callback 0 is the null pointer. */
  datatype Item = Item(time: nat, cb: nat)

  // ---------- sums over a queue ----------

  /** What the items of a queue contribute together. */
  function Sum<T>(s: seq<Item>, f: Item -> multiset<T>): multiset<T> {
    if s == [] then multiset{} else Sum(s[..|s| - 1], f) + f(s[|s| - 1])
  }

  lemma {:induction false} SumAppend<T>(s: seq<Item>, t: seq<Item>, f: Item -> multiset<T>)
    ensures Sum(s + t, f) == Sum(s, f) + Sum(t, f)
    decreases |t|
  {
    if t == [] {
      assert s + t == s;
    } else {
      assert (s + t)[..|s + t| - 1] == s + t[..|t| - 1];
      SumAppend(s, t[..|t| - 1], f);
    }
  }

  lemma SumOne<T>(x: Item, f: Item -> multiset<T>)
    ensures Sum([x], f) == f(x)
  {
    assert [x][..0] == [];
  }

  /** An item in the middle can be taken out of the sum. */
  lemma SumAround<T>(s: seq<Item>, i: nat, f: Item -> multiset<T>)
    requires i < |s|
    ensures Sum(s, f) == Sum(s[..i], f) + f(s[i]) + Sum(s[i + 1..], f)
  {
    assert s == s[..i] + ([s[i]] + s[i + 1..]);
    SumThree(s[..i], s[i], s[i + 1..], f);
  }

  lemma SumThree<T>(a: seq<Item>, x: Item, b: seq<Item>, f: Item -> multiset<T>)
    ensures Sum(a + ([x] + b), f) == Sum(a, f) + f(x) + Sum(b, f)
  {
    SumAppend(a, [x] + b, f);
    SumAppend([x], b, f);
    SumOne(x, f);
  }

  lemma SumUpdate<T>(s: seq<Item>, i: nat, x: Item, f: Item -> multiset<T>)
    requires i < |s|
    ensures Sum(s[i := x], f) + f(s[i]) == Sum(s, f) + f(x)
  {
    var t := s[i := x];
    SumAround(s, i, f);
    SumAround(t, i, f);
    assert t[..i] == s[..i] && t[i + 1..] == s[i + 1..];
  }

  /** The queue without its i-th item, whose place the last one takes. */
  function Removed(s: seq<Item>, i: nat): seq<Item>
    requires i < |s|
  {
    s[i := s[|s| - 1]][..|s| - 1]
  }

  lemma SumRemoved<T>(s: seq<Item>, i: nat, f: Item -> multiset<T>)
    requires i < |s|
    ensures Sum(Removed(s, i), f) + f(s[i]) == Sum(s, f)
  {
    var last := s[|s| - 1];
    var t := s[i := last];
    SumUpdate(s, i, last, f);
    assert t[|t| - 1] == last && t[..|t| - 1] == Removed(s, i);
    Cancel(Sum(Removed(s, i), f), f(last), f(s[i]), Sum(s, f));
  }

  lemma Cancel<T>(a: multiset<T>, x: multiset<T>, y: multiset<T>, b: multiset<T>)
    requires a + x + y == b + x
    ensures a + y == b
  {
    forall e ensures (a + y)[e] == b[e] {
      assert (a + x + y)[e] == (b + x)[e];
    }
  }

  function CallbackOf(): Item -> multiset<nat> {
    (x: Item) => multiset{x.cb}
  }

  function DueOf(now: nat): Item -> multiset<nat> {
    (x: Item) => if x.time <= now then multiset{x.cb} else multiset{}
  }

  function LaterOf(now: nat): Item -> multiset<Item> {
    (x: Item) => if x.time <= now then multiset{} else multiset{x}
  }

  function Callbacks(s: seq<Item>): multiset<nat> {
    Sum(s, CallbackOf())
  }

  /** Callbacks whose time has come, and items whose time has not. */
  function Due(s: seq<Item>, now: nat): multiset<nat> {
    Sum(s, DueOf(now))
  }

  function Later(s: seq<Item>, now: nat): multiset<Item> {
    Sum(s, LaterOf(now))
  }

  // ---------- the ledger ----------

  /** Accepted callbacks are delivered or still pending. */
  ghost predicate Ledger(accepted: multiset<nat>, delivered: multiset<nat>, main: seq<Item>, pre: seq<Item>) {
    accepted == delivered + Callbacks(main) + Callbacks(pre)
  }

  lemma LedgerPut(a: multiset<nat>, d: multiset<nat>, main: seq<Item>, pre: seq<Item>, x: Item)
    requires Ledger(a, d, main, pre)
    ensures Ledger(a + multiset{x.cb}, d, main, pre + [x])
  {
    SumAppend(pre, [x], CallbackOf());
    SumOne(x, CallbackOf());
  }

  lemma LedgerPush(a: multiset<nat>, d: multiset<nat>, main: seq<Item>, pre: seq<Item>)
    requires Ledger(a, d, main, pre)
    ensures Ledger(a, d, main + pre, [])
  {
    SumAppend(main, pre, CallbackOf());
  }

  /** Rescheduling keeps the callbacks. */
  lemma MovedCallbacks(s: seq<Item>, i: nat, time: nat)
    requires i < |s|
    ensures Callbacks(s[i := Item(time, s[i].cb)]) == Callbacks(s)
  {
    SumUpdate(s, i, Item(time, s[i].cb), CallbackOf());
    Cancel(Callbacks(s[i := Item(time, s[i].cb)]), multiset{s[i].cb}, multiset{}, Callbacks(s));
  }

  lemma LedgerTaken(a: multiset<nat>, d: multiset<nat>, main: seq<Item>, pre: seq<Item>, i: nat)
    requires Ledger(a, d, main, pre) && i < |main|
    ensures Ledger(a, d + multiset{main[i].cb}, Removed(main, i), pre)
  {
    SumRemoved(main, i, CallbackOf());
  }

  // ---------- the queue ----------

  class ClockAsyncTQueue {
    var queue: array<Item>
    var itemTotal: nat
    var itemCnt: nat
    var prequeue: array<Item>
    var precnt: nat
    ghost var accepted: multiset<nat>
    ghost var delivered: multiset<nat>

    /** Accepted callbacks are delivered or still pending: this holds after every operation. */
    ghost predicate Valid()
      reads this, queue, prequeue
    {
      && queue != prequeue && prequeue.Length == PREQUEUE && queue.Length > 0
      && itemTotal <= queue.Length && precnt <= PREQUEUE
      && Ledger(accepted, delivered, Main(), Pre())
    }

    ghost function Main(): seq<Item>
      requires itemTotal <= queue.Length
      reads this, queue
    {
      queue[..itemTotal]
    }

    ghost function Pre(): seq<Item>
      requires precnt <= prequeue.Length
      reads this, prequeue
    {
      prequeue[..precnt]
    }

    constructor ()
      ensures Valid() && fresh(queue) && fresh(prequeue)
      ensures Main() == [] && Pre() == [] && accepted == multiset{} && itemCnt == 0
    {
      queue := new Item[1];
      prequeue := new Item[PREQUEUE];
      itemTotal, itemCnt, precnt := 0, 0, 0;
      accepted, delivered := multiset{}, multiset{};
    }

    /** Registration; a full pre-queue refuses it. */
    method Put(time: nat, cb: nat)
      requires Valid()
      modifies this`precnt, this`accepted, prequeue
      ensures Valid() && Main() == old(Main())
      ensures if |old(Pre())| < 1024
              then Pre() == old(Pre()) + [Item(time, cb)] && accepted == old(accepted) + multiset{cb}
              else Pre() == old(Pre()) && accepted == old(accepted)
    {
      if precnt >= PREQUEUE {
        return;
      }
      prequeue[precnt] := Item(time, cb);
      precnt := precnt + 1;
      accepted := accepted + multiset{cb};
      LedgerPut(old(accepted), delivered, Main(), old(Pre()), Item(time, cb));
      assert Pre() == old(Pre()) + [Item(time, cb)];
    }

    /** Reschedule the first registration of a callback, looking at the pre-queue first. */
    method Move(cb: nat, time: nat) returns (found: bool)
      requires Valid()
      modifies queue, prequeue
      ensures Valid()
      ensures found <==> Has(old(Pre()), cb) || Has(old(Main()), cb)
      ensures if Has(old(Pre()), cb) then Retimed(old(Pre()), Pre(), cb, time) else Pre() == old(Pre())
      ensures if !Has(old(Pre()), cb) && Has(old(Main()), cb) then Retimed(old(Main()), Main(), cb, time)
              else Main() == old(Main())
    {
      var i := IndexOf(prequeue, precnt, cb);
      if i < precnt {
        RetimePre(i, time);
        assert RetimedAt(old(Pre()), Pre(), cb, time, i);
        return true;
      }
      i := IndexOf(queue, itemTotal, cb);
      if i < itemTotal {
        RetimeMain(i, time);
        assert RetimedAt(old(Main()), Main(), cb, time, i);
        return true;
      }
      found := false;
    }

    method RetimePre(i: nat, time: nat)
      requires Valid() && i < precnt
      modifies prequeue
      ensures Valid() && Main() == old(Main()) && Pre() == old(Pre())[i := Item(time, old(Pre())[i].cb)]
    {
      MovedCallbacks(Pre(), i, time);
      prequeue[i] := Item(time, prequeue[i].cb);
      assert Pre() == old(Pre())[i := Item(time, old(Pre())[i].cb)];
    }

    method RetimeMain(i: nat, time: nat)
      requires Valid() && i < itemTotal
      modifies queue
      ensures Valid() && Pre() == old(Pre()) && Main() == old(Main())[i := Item(time, old(Main())[i].cb)]
    {
      MovedCallbacks(Main(), i, time);
      queue[i] := Item(time, queue[i].cb);
      assert Main() == old(Main())[i := Item(time, old(Main())[i].cb)];
    }

    method IndexOf(a: array<Item>, n: nat, cb: nat) returns (i: nat)
      requires n <= a.Length
      ensures i <= n && (i < n ==> a[..n][i].cb == cb) && forall j :: 0 <= j < i ==> a[..n][j].cb != cb
    {
      i := 0;
      while i < n && a[i].cb != cb
        invariant i <= n && forall j :: 0 <= j < i ==> a[..n][j].cb != cb
      {
        i := i + 1;
      }
    }

    /** The main queue grows until the pre-queue fits behind it. */
    method Grow()
      requires Valid()
      modifies this`queue
      ensures Valid() && Main() == old(Main()) && Pre() == old(Pre())
      ensures precnt + itemTotal <= queue.Length && (queue == old(queue) || fresh(queue))
    {
      ghost var main, pre := Main(), Pre();
      while precnt + itemTotal > queue.Length
        invariant queue != prequeue && queue.Length > 0 && (queue == old(queue) || fresh(queue))
        invariant itemTotal <= queue.Length && Main() == main && Pre() == pre
        decreases precnt + itemTotal - queue.Length
      {
        var p := new Item[2 * queue.Length];
        forall k | 0 <= k < itemTotal {
          p[k] := queue[k];
        }
        queue := p;
      }
    }

    /** The pre-queue is appended to the main queue. */
    method PushPreQueued()
      requires Valid()
      modifies this`queue, this`itemTotal, this`precnt, queue
      ensures Valid() && Main() == old(Main()) + old(Pre()) && Pre() == []
      ensures queue == old(queue) || fresh(queue)
    {
      if precnt == 0 {
        return;
      }
      Grow();
      AppendPre();
    }

    method AppendPre()
      requires Valid() && precnt + itemTotal <= queue.Length
      modifies this`itemTotal, this`precnt, queue
      ensures Valid() && Main() == old(Main()) + old(Pre()) && Pre() == []
    {
      LedgerPush(accepted, delivered, Main(), Pre());
      CopyPre();
      itemTotal := itemTotal + precnt;
      precnt := 0;
      assert Pre() == [];
    }

    method CopyPre()
      requires Valid() && precnt + itemTotal <= queue.Length
      modifies queue
      ensures queue[..itemTotal + precnt] == old(Main() + Pre()) && Pre() == old(Pre())
    {
      ghost var main := Main();
      for k := 0 to precnt
        invariant queue[..itemTotal + k] == main + prequeue[..k] && Pre() == old(Pre())
      {
        queue[itemTotal + k] := prequeue[k];
        assert queue[..itemTotal + k + 1] == queue[..itemTotal + k] + [prequeue[k]];
        assert prequeue[..k + 1] == prequeue[..k] + [prequeue[k]];
      }
    }

    method InitProc()
      requires Valid()
      modifies this`itemCnt
      ensures Valid() && itemCnt == 0
    {
      itemCnt := 0;
    }

    /** The next due callback from the counter on is taken out; its place is looked at again. */
    method GetNext(now: nat) returns (cb: nat)
      requires Valid()
      modifies this`itemTotal, this`itemCnt, this`delivered, queue
      ensures Valid() && Pre() == old(Pre()) && old(itemCnt) <= itemCnt
      ensures var i := FirstDue(old(Main()), now, old(itemCnt));
              if i < |old(Main())|
              then itemCnt == i && cb == old(Main())[i].cb && Main() == Removed(old(Main()), i)
              else itemCnt >= |Main()| && cb == 0 && Main() == old(Main())
    {
      ghost var main := Main();
      cb := 0;
      if itemCnt >= itemTotal {
        return;
      }
      itemCnt := ScanDue(now, itemCnt);
      if itemCnt < itemTotal {
        cb := TakeOut(itemCnt);
      }
    }

    method ScanDue(now: nat, start: nat) returns (i: nat)
      requires itemTotal <= queue.Length && start <= itemTotal
      ensures i == FirstDue(Main(), now, start)
    {
      i := start;
      while i < itemTotal
        invariant i <= itemTotal && FirstDue(Main(), now, start) == FirstDue(Main(), now, i)
      {
        if now < queue[i].time {
          i := i + 1;
          continue;
        }
        break;
      }
    }

    method TakeOut(i: nat) returns (cb: nat)
      requires Valid() && i < itemTotal
      modifies this`itemTotal, this`delivered, queue
      ensures Valid() && Pre() == old(Pre())
      ensures cb == old(Main())[i].cb && Main() == Removed(old(Main()), i)
    {
      LedgerTaken(accepted, delivered, Main(), Pre(), i);
      cb := queue[i].cb;
      if i < itemTotal - 1 {
        queue[i] := queue[itemTotal - 1];
      }
      itemTotal := itemTotal - 1;
      delivered := delivered + multiset{cb};
      assert Main() == Removed(old(Main()), i);
    }
  }

  predicate Has(s: seq<Item>, cb: nat) {
    exists i :: 0 <= i < |s| && s[i].cb == cb
  }

  /** The first registration of the callback has got a new time, and nothing else has changed. */
  ghost predicate Retimed(s: seq<Item>, t: seq<Item>, cb: nat, time: nat) {
    exists i :: RetimedAt(s, t, cb, time, i)
  }

  ghost predicate RetimedAt(s: seq<Item>, t: seq<Item>, cb: nat, time: nat, i: int) {
    && 0 <= i < |s| == |t| && s[i].cb == cb && (forall j :: 0 <= j < i ==> s[j].cb != cb)
    && t[i] == Item(time, cb) && (forall j :: 0 <= j < |s| && j != i ==> t[j] == s[j])
  }

  /** The first position from k on whose time has come. */
  function FirstDue(s: seq<Item>, now: nat, k: nat): (i: nat)
    ensures i < |s| ==> k <= i && s[i].time <= now
    ensures k <= |s| ==> k <= i <= |s|
    ensures forall j :: k <= j < i && j < |s| ==> now < s[j].time
    decreases |s| - k
  {
    if k >= |s| then k else if s[k].time <= now then k else FirstDue(s, now, k + 1)
  }

  // ---------- draining ----------

  /** Nothing before position c is due any more. */
  ghost predicate Passed(s: seq<Item>, now: nat, c: nat) {
    forall j :: 0 <= j < c && j < |s| ==> now < s[j].time
  }

  ghost predicate NoNullDue(s: seq<Item>, now: nat) {
    forall j :: 0 <= j < |s| && s[j].time <= now ==> s[j].cb != 0
  }

  lemma TakenSums(s: seq<Item>, now: nat, i: nat)
    requires i < |s| && s[i].time <= now
    ensures Due(Removed(s, i), now) + multiset{s[i].cb} == Due(s, now)
    ensures Later(Removed(s, i), now) == Later(s, now)
  {
    SumRemoved(s, i, DueOf(now));
    SumRemoved(s, i, LaterOf(now));
    assert Later(Removed(s, i), now) + multiset{} == Later(s, now);
  }

  lemma TakenItems(s: seq<Item>, now: nat, c: nat, i: nat)
    requires Passed(s, now, c) && i == FirstDue(s, now, c) < |s| && NoNullDue(s, now)
    ensures Passed(Removed(s, i), now, i) && NoNullDue(Removed(s, i), now)
  {
    RemovedItems(s, i);
  }

  lemma RemovedItems(s: seq<Item>, i: nat)
    requires i < |s|
    ensures forall j :: 0 <= j < |s| - 1 ==> Removed(s, i)[j] == if j == i then s[|s| - 1] else s[j]
  {
  }

  lemma {:induction false} NoneDue(s: seq<Item>, now: nat)
    requires forall j :: 0 <= j < |s| ==> now < s[j].time
    ensures Due(s, now) == multiset{} && Later(s, now) == multiset(s)
  {
    if s != [] {
      NoneDue(s[..|s| - 1], now);
      assert s == s[..|s| - 1] + [s[|s| - 1]];
    }
  }

  lemma AllPassed(s: seq<Item>, now: nat, c: nat)
    requires Passed(s, now, c) && FirstDue(s, now, c) >= |s|
    ensures forall j :: 0 <= j < |s| ==> now < s[j].time
  {
  }

  /** What a drain from position c on delivers and what it leaves; a null callback ends it. */
  function Drained(s: seq<Item>, now: nat, c: nat): (seq<nat>, seq<Item>)
    decreases |s|
  {
    var i := FirstDue(s, now, c);
    if i >= |s| then ([], s)
    else if s[i].cb == 0 then ([], Removed(s, i))
    else
      var d := Drained(Removed(s, i), now, i);
      ([s[i].cb] + d.0, d.1)
  }

  /** Without null callbacks a drain delivers exactly the due ones, each once, and leaves exactly the later items. */
  lemma {:induction false} DrainComplete(s: seq<Item>, now: nat, c: nat)
    requires Passed(s, now, c) && NoNullDue(s, now)
    ensures multiset(Drained(s, now, c).0) == Due(s, now) && multiset(Drained(s, now, c).1) == Later(s, now)
    ensures forall j :: 0 <= j < |Drained(s, now, c).1| ==> now < Drained(s, now, c).1[j].time
    decreases |s|
  {
    var i := FirstDue(s, now, c);
    if i >= |s| {
      AllPassed(s, now, c);
      NoneDue(s, now);
    } else {
      TakenItems(s, now, c, i);
      DrainComplete(Removed(s, i), now, i);
      DrainStep(s, now, i, Drained(Removed(s, i), now, i).0);
    }
  }

  lemma DrainStep(s: seq<Item>, now: nat, i: nat, log: seq<nat>)
    requires i < |s| && s[i].time <= now && multiset(log) == Due(Removed(s, i), now)
    ensures multiset([s[i].cb] + log) == Due(s, now) && Later(Removed(s, i), now) == Later(s, now)
  {
    TakenSums(s, now, i);
    assert multiset([s[i].cb] + log) == multiset{s[i].cb} + multiset(log);
  }

  /** What the first k delivered callbacks register, one after the other. */
  function Registered(again: seq<seq<Item>>, k: nat): seq<Item> {
    if k == 0 then [] else Registered(again, k - 1) + RegisteredBy(again, k - 1)
  }

  function RegisteredBy(again: seq<seq<Item>>, k: nat): seq<Item> {
    if k < |again| then again[k] else []
  }

  /** As much of it as the pre-queue takes. */
  function Capped(xs: seq<Item>): seq<Item> {
    if |xs| <= 1024 then xs else xs[..1024]
  }

  /** One clock of the wrapper: deliver until the queue answers null. The k-th callback registers again[k] meanwhile. */
  method Drain(q: ClockAsyncTQueue, now: nat, again: seq<seq<Item>>) returns (log: seq<nat>)
    requires q.Valid()
    modifies q, q.queue, q.prequeue
    ensures q.Valid() && log == Drained(old(q.Main() + q.Pre()), now, 0).0
    ensures q.Main() == Drained(old(q.Main() + q.Pre()), now, 0).1
    ensures q.Pre() == Capped(Registered(again, |log|))
  {
    ghost var s := q.Main() + q.Pre();
    StartClock(q);
    log := DeliverAll(q, now, again);
    JoinsAll(Drained(s, now, 0), log, q.Main());
  }

  method StartClock(q: ClockAsyncTQueue)
    requires q.Valid()
    modifies q`queue, q`itemTotal, q`itemCnt, q`precnt, q.queue
    ensures q.Valid() && q.Main() == old(q.Main() + q.Pre()) && q.Pre() == [] && q.itemCnt == 0
    ensures q.queue == old(q.queue) || fresh(q.queue)
  {
    q.InitProc();
    q.PushPreQueued();
  }

  lemma JoinsAll(all: (seq<nat>, seq<Item>), log: seq<nat>, main: seq<Item>)
    requires Joins(all, log, ([], main))
    ensures all.0 == log && all.1 == main
  {
  }

  method DeliverAll(q: ClockAsyncTQueue, now: nat, again: seq<seq<Item>>) returns (log: seq<nat>)
    requires q.Valid() && q.Pre() == []
    modifies q`itemTotal, q`itemCnt, q`delivered, q`precnt, q`accepted, q.queue, q.prequeue
    ensures q.Valid() && Joins(Drained(old(q.Main()), now, old(q.itemCnt)), log, ([], q.Main()))
    ensures PreHolds(q.Pre(), again, |log|)
  {
    log := [];
    ghost var all := Drained(q.Main(), now, q.itemCnt);
    ghost var rest := all;
    assert Joins(all, log, rest);
    while true
      invariant q.Valid() && Joins(all, log, rest) && rest == Drained(q.Main(), now, q.itemCnt)
      invariant PreHolds(q.Pre(), again, |log|)
      decreases q.itemTotal
    {
      ghost var k := |log|;
      var cb := Deliver(q, now);
      if cb == 0 {
        return;
      }
      JoinsNext(all, log, cb, rest, Drained(q.Main(), now, q.itemCnt));
      rest := Drained(q.Main(), now, q.itemCnt);
      RegisterNext(q, again, |log|);
      log := log + [cb];
      assert |log| == k + 1;
    }
  }

  /** The pre-queue holds what the first k delivered callbacks registered, as far as it takes it. */
  ghost predicate PreHolds(pre: seq<Item>, again: seq<seq<Item>>, k: nat) {
    pre == Capped(Registered(again, k))
  }

  method RegisterNext(q: ClockAsyncTQueue, again: seq<seq<Item>>, k: nat)
    requires q.Valid() && PreHolds(q.Pre(), again, k)
    modifies q`precnt, q`accepted, q.prequeue
    ensures q.Valid() && q.Main() == old(q.Main()) && PreHolds(q.Pre(), again, k + 1)
  {
    Register(q, RegisteredBy(again, k), Registered(again, k));
  }

  /** Registrations do not touch the main queue. */
  method Register(q: ClockAsyncTQueue, xs: seq<Item>, ghost before: seq<Item>)
    requires q.Valid() && q.Pre() == Capped(before)
    modifies q`precnt, q`accepted, q.prequeue
    ensures q.Valid() && q.Main() == old(q.Main()) && q.Pre() == Capped(before + xs)
  {
    assert before + xs[..0] == before;
    for k := 0 to |xs|
      invariant q.Valid() && q.Main() == old(q.Main()) && q.Pre() == Capped(before + xs[..k])
    {
      CappedNext(before, xs, k);
      q.Put(xs[k].time, xs[k].cb);
    }
    assert xs[..|xs|] == xs;
  }

  lemma CappedNext(before: seq<Item>, xs: seq<Item>, k: nat)
    requires k < |xs|
    ensures var c := Capped(before + xs[..k]);
            Capped(before + xs[..k + 1]) == if |c| < 1024 then c + [xs[k]] else c
  {
    assert before + xs[..k + 1] == before + xs[..k] + [xs[k]];
  }

  /** One delivery is the first step of a drain. */
  method Deliver(q: ClockAsyncTQueue, now: nat) returns (cb: nat)
    requires q.Valid()
    modifies q`itemTotal, q`itemCnt, q`delivered, q.queue
    ensures q.Valid() && q.Pre() == old(q.Pre())
    ensures cb == 0 ==> Drained(old(q.Main()), now, old(q.itemCnt)) == ([], q.Main())
    ensures cb != 0 ==> q.itemTotal < old(q.itemTotal)
    ensures cb != 0 ==> Joins(Drained(old(q.Main()), now, old(q.itemCnt)), [cb], Drained(q.Main(), now, q.itemCnt))
  {
    cb := q.GetNext(now);
  }

  ghost predicate Joins(all: (seq<nat>, seq<Item>), log: seq<nat>, rest: (seq<nat>, seq<Item>)) {
    all.0 == log + rest.0 && all.1 == rest.1
  }

  lemma JoinsNext(all: (seq<nat>, seq<Item>), log: seq<nat>, cb: nat, rest: (seq<nat>, seq<Item>),
                  next: (seq<nat>, seq<Item>))
    requires Joins(all, log, rest) && Joins(rest, [cb], next)
    ensures Joins(all, log + [cb], next)
  {
    assert log + ([cb] + rest.0) == log + [cb] + rest.0;
  }

  // ---------- null callbacks ----------

  /** The order in which repeated removal takes the due callbacks, null or not. */
  function Order(s: seq<Item>, now: nat, c: nat): seq<nat>
    decreases |s|
  {
    var i := FirstDue(s, now, c);
    if i >= |s| then [] else [s[i].cb] + Order(Removed(s, i), now, i)
  }

  /** The callbacks before the first null, and those behind it. */
  function BeforeNull(o: seq<nat>): seq<nat> {
    if o == [] || o[0] == 0 then [] else [o[0]] + BeforeNull(o[1..])
  }

  function BehindNull(o: seq<nat>): seq<nat> {
    if o == [] then [] else if o[0] == 0 then o[1..] else BehindNull(o[1..])
  }

  /** Removal takes exactly the due callbacks. */
  lemma {:induction false} OrderIsDue(s: seq<Item>, now: nat, c: nat)
    requires Passed(s, now, c)
    ensures multiset(Order(s, now, c)) == Due(s, now)
    decreases |s|
  {
    var i := FirstDue(s, now, c);
    if i >= |s| {
      AllPassed(s, now, c);
      NoneDue(s, now);
    } else {
      TakenPassed(s, now, c, i);
      OrderIsDue(Removed(s, i), now, i);
      DrainStep(s, now, i, Order(Removed(s, i), now, i));
    }
  }

  lemma TakenPassed(s: seq<Item>, now: nat, c: nat, i: nat)
    requires Passed(s, now, c) && i == FirstDue(s, now, c) < |s|
    ensures Passed(Removed(s, i), now, i)
  {
    RemovedItems(s, i);
  }

  /** The first null ends the drain: what stands before it is delivered, what is due behind it stays. */
  lemma {:induction false} NullEndsDrain(s: seq<Item>, now: nat, c: nat)
    requires Passed(s, now, c)
    ensures var o, d := Order(s, now, c), Drained(s, now, c);
            d.0 == BeforeNull(o) && Due(d.1, now) == multiset(BehindNull(o)) && Later(d.1, now) == Later(s, now)
    decreases |s|
  {
    var i := FirstDue(s, now, c);
    if i >= |s| {
      AllPassed(s, now, c);
      NoneDue(s, now);
    } else {
      TakenPassed(s, now, c, i);
      LaterKept(s, now, i);
      NullAtHead(s[i].cb, Order(Removed(s, i), now, i));
      if s[i].cb == 0 {
        OrderIsDue(Removed(s, i), now, i);
      } else {
        NullEndsDrain(Removed(s, i), now, i);
      }
    }
  }

  lemma LaterKept(s: seq<Item>, now: nat, i: nat)
    requires i < |s| && s[i].time <= now
    ensures Later(Removed(s, i), now) == Later(s, now)
  {
    TakenSums(s, now, i);
  }

  lemma NullAtHead(cb: nat, o: seq<nat>)
    ensures BeforeNull([cb] + o) == if cb == 0 then [] else [cb] + BeforeNull(o)
    ensures BehindNull([cb] + o) == if cb == 0 then o else BehindNull(o)
    ensures NullOnlyLast([cb] + o) <==> if cb == 0 then o == [] else NullOnlyLast(o)
  {
    assert ([cb] + o)[1..] == o;
    assert forall k :: 0 <= k < |o| ==> ([cb] + o)[k + 1] == o[k];
    if cb == 0 && o != [] {
      assert ([cb] + o)[0] == 0;
    }
  }

  function WithoutNull(m: multiset<nat>): multiset<nat> {
    m[0 := 0]
  }

  /** A drain does its work: each due callback that is not null is delivered once, and only the later items stay. */
  ghost predicate DrainsAll(s: seq<Item>, now: nat, d: (seq<nat>, seq<Item>)) {
    multiset(d.0) == WithoutNull(Due(s, now)) && multiset(d.1) == Later(s, now)
  }

  /** No null before the last callback of the order. */
  predicate NullOnlyLast(o: seq<nat>) {
    forall k :: 0 <= k < |o| - 1 ==> o[k] != 0
  }

  /** A drain does its work if and only if no null comes before the last due callback in the order of removal. */
  lemma {:induction false} DrainExact(s: seq<Item>, now: nat, c: nat)
    requires Passed(s, now, c)
    ensures DrainsAll(s, now, Drained(s, now, c)) <==> NullOnlyLast(Order(s, now, c))
    decreases |s|
  {
    var i := FirstDue(s, now, c);
    if i >= |s| {
      AllPassed(s, now, c);
      NoneDue(s, now);
    } else {
      TakenPassed(s, now, c, i);
      TakenSums(s, now, i);
      NullAtHead(s[i].cb, Order(Removed(s, i), now, i));
      if s[i].cb == 0 {
        NullFirst(s, now, c, i);
      } else {
        DrainExact(Removed(s, i), now, i);
        OneDelivered(s[i].cb, Drained(Removed(s, i), now, i).0, Due(Removed(s, i), now));
      }
    }
  }

  lemma OneDelivered(cb: nat, log: seq<nat>, due: multiset<nat>)
    requires cb != 0
    ensures multiset([cb] + log) == WithoutNull(due + multiset{cb}) <==> multiset(log) == WithoutNull(due)
  {
    assert multiset([cb] + log) == multiset(log) + multiset{cb};
    assert WithoutNull(due + multiset{cb}) == WithoutNull(due) + multiset{cb};
    if multiset(log) + multiset{cb} == WithoutNull(due) + multiset{cb} {
      Cancel(multiset(log), multiset{cb}, multiset{}, WithoutNull(due));
    }
  }

  /** A null that is taken first is harmless exactly when nothing else is due. */
  lemma NullFirst(s: seq<Item>, now: nat, c: nat, i: nat)
    requires Passed(s, now, c) && i == FirstDue(s, now, c) < |s| && s[i].cb == 0
    requires Passed(Removed(s, i), now, i)
    ensures DrainsAll(s, now, ([], Removed(s, i))) <==> Order(Removed(s, i), now, i) == []
  {
    var r := Removed(s, i);
    TakenSums(s, now, i);
    var j := FirstDue(r, now, i);
    if j >= |r| {
      AllPassed(r, now, i);
      NoneDue(r, now);
    } else {
      assert r[j] in multiset(r);
      LaterItems(s, now, r[j]);
    }
  }

  lemma {:induction false} LaterItems(s: seq<Item>, now: nat, x: Item)
    requires x.time <= now
    ensures x !in Later(s, now)
  {
    if s != [] {
      LaterItems(s[..|s| - 1], now, x);
    }
  }

  /** A null that comes last does no harm; one that comes first keeps the other callback from being delivered. */
  lemma NullExamples()
    ensures Drained([Item(0, 1), Item(0, 0)], 0, 0) == ([1], [])
    ensures Drained([Item(0, 0), Item(0, 1)], 0, 0) == ([], [Item(0, 1)])
  {
    var s, t := [Item(0, 1), Item(0, 0)], [Item(0, 0), Item(0, 1)];
    assert Removed(s, 0) == [Item(0, 0)] && Removed([Item(0, 0)], 0) == [];
    assert Drained([Item(0, 0)], 0, 0) == ([], []);
    assert FirstDue(s, 0, 0) == 0 && [1] + [] == [1];
    assert Removed(t, 0) == [Item(0, 1)];
  }
}
