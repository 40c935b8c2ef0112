/**
 The timer queue (arale/net/TimerQueue.cc, arale/net/Timer.cc). Timers are heap objects that the
 queue owns and deletes, so the heap is part of the state: addresses can be used again by later
 timers. Times are whole microseconds. Steps of the loop thread interleave with allocations in
 other threads and with the clock.
 */
module TimerQueue {
  import opened TimerSet

  datatype Timer = Timer(expiration: int, interval: nat, sequence: int)

  /** A TimerID, and an element of activeTimers_. */
  datatype Active = Active(addr: int, sequence: int)

  /** The timerfd: when it will fire and when that was set, or fired and not read. */
  datatype Fd = Disarmed | Armed(at: int, setAt: int) | Fired

  datatype Queue = Queue(
    heap: map<int, Timer>,     // the allocated timers by address
    counter: int,              // Timer::counter_
    adding: set<int>,          // allocated, addTimerInLoop has not run yet
    timers: seq<Entry>,        // timers_
    active: set<Active>,       // activeTimers_
    handling: bool,            // isHandlingTimeout_
    cancelled: set<Active>,    // cancelledTimers_
    batch: seq<Entry>,         // expiredTimers of the running handleTimeout
    next: nat,                 // how many callbacks of the batch have been run
    batchNow: int,             // its `now`
    fd: Fd,
    clock: int,
    ids: map<int, int>,        // history: the address of every sequence number handed out
    added: set<int>,           // history: the sequence numbers that addTimerInLoop has seen
    dead: set<int>,            // history: those cancelled after they were added
    deadAtBegin: set<int>)     // history: `dead` when the running handleTimeout began

  datatype Action =
    | Alloc(addr: int, when: int, interval: nat)
    | AddInLoop(addr: int)
    | Cancel(id: Active)
    | Tick(to: int)
    | Begin(now: int)
    | RunNext
    | End

  function EntryOf(q: Queue, a: int): Entry
    requires a in q.heap
  {
    Entry(q.heap[a].expiration, a)
  }

  function ActiveOf(q: Queue, a: int): Active
    requires a in q.heap
  {
    Active(a, q.heap[a].sequence)
  }

  // ---- Operations ----

  /** `howMuchTimeFromNow` in microseconds. */
  function HowMuchTime(microseconds: int): (d: int)
    ensures d >= 100 && d >= microseconds && (d == microseconds || d == 100)
  {
    if microseconds < 100 then 100 else microseconds
  }

  function ResetTimerfd(q: Queue, when: int): Queue {
    q.(fd := Armed(q.clock + HowMuchTime(when - q.clock), q.clock))
  }

  function InsertTimer(q: Queue, a: int): Queue
    requires a in q.heap
  {
    q.(timers := Insert(q.timers, EntryOf(q, a)), active := q.active + {ActiveOf(q, a)})
  }

  predicate EarliestChanged(q: Queue, a: int)
    requires a in q.heap
  {
    q.timers == [] || q.heap[a].expiration < q.timers[0].when
  }

  function AddTimer(q: Queue, a: int): Queue
    requires a in q.heap
  {
    var q1 := InsertTimer(q, a);
    var q2 := if EarliestChanged(q, a) then ResetTimerfd(q1, q.heap[a].expiration) else q1;
    q2.(adding := q.adding - {a}, added := q.added + {q.heap[a].sequence})
  }

  /** The id was handed out for this address, and the timer had been added. */
  predicate IsAdded(q: Queue, id: Active) {
    id.sequence in q.added && id.sequence in q.ids && q.ids[id.sequence] == id.addr
  }

  function CancelTimer(q: Queue, id: Active): Queue
    requires id in q.active ==> id.addr in q.heap
  {
    var q1 := if IsAdded(q, id) then q.(dead := q.dead + {id.sequence}) else q;
    if id in q.active then
      q1.(timers := Erase(q.timers, EntryOf(q, id.addr)), active := q.active - {id}, heap := q.heap - {id.addr})
    else if q.handling then q1.(cancelled := q.cancelled + {id})
    else q1
  }

  /** The assert on the insertion into cancelledTimers_: no id is cancelled twice while a batch runs. */
  predicate CancelAsserts(q: Queue, id: Active) {
    id !in q.active && q.handling ==> id !in q.cancelled
  }

  function ReadTimerfd(fd: Fd): Fd {
    if fd.Fired? then Disarmed else fd
  }

  /** The elements of activeTimers_ for some elements of timers_. */
  function Actives(heap: map<int, Timer>, s: seq<Entry>): set<Active>
    requires forall e :: e in s ==> e.addr in heap
  {
    set e | e in s :: Active(e.addr, heap[e.addr].sequence)
  }

  function BeginTimeout(q: Queue, now: int): Queue
    requires forall e :: e in q.timers ==> e.addr in q.heap
  {
    var n := CountLess(q.timers, Entry(now, ADDR_MAX));
    q.(fd := ReadTimerfd(q.fd), timers := q.timers[n..], batch := q.timers[..n], next := 0, batchNow := now,
       active := q.active - Actives(q.heap, q.timers[..n]),
       handling := true, cancelled := {}, deadAtBegin := q.dead)
  }

  /** One turn of the loop in `resetTimers`. */
  function ResetOne(q: Queue): Queue
    requires q.batch != [] && q.batch[0].addr in q.heap
  {
    var a := q.batch[0].addr;
    var timer := q.heap[a];
    var q1 := q.(batch := q.batch[1..]);
    if timer.interval > 0 && ActiveOf(q, a) !in q.cancelled then
      InsertTimer(q1.(heap := q.heap[a := timer.(expiration := q.batchNow + timer.interval)]), a)
    else q1.(heap := q.heap - {a})
  }

  predicate BatchInHeap(q: Queue) {
    && (forall i :: 0 <= i < |q.batch| ==> q.batch[i].addr in q.heap)
    && (forall i, j :: 0 <= i < j < |q.batch| ==> q.batch[i].addr != q.batch[j].addr)
  }

  function ResetAll(q: Queue): (r: Queue)
    requires BatchInHeap(q)
    ensures r.batch == []
    decreases |q.batch|
  {
    if q.batch == [] then q else ResetAll(ResetOne(q))
  }

  function RearmEarliest(q: Queue): Queue
    requires q.timers != [] ==> q.timers[0].addr in q.heap
  {
    if q.timers != [] && q.heap[q.timers[0].addr].expiration > 0
    then ResetTimerfd(q, q.heap[q.timers[0].addr].expiration)
    else q
  }

  function Advance(q: Queue, to: int): Queue {
    q.(clock := to, fd := if q.fd.Armed? && q.fd.at <= to then Fired else q.fd)
  }

  // ---- Steps ----

  predicate Enabled(q: Queue, a: Action) {
    match a
    case Alloc(addr, _, _) => 0 <= addr < ADDR_MAX && addr !in q.heap
    case AddInLoop(addr) => addr in q.adding
    case Cancel(_) => true
    case Tick(to) => to >= q.clock
    case Begin(now) => !q.handling && 0 < now <= q.clock
    case RunNext => q.handling && q.next < |q.batch|
    case End => q.handling && q.next == |q.batch|
  }

  ghost predicate Inv(q: Queue) {
    Core(q) && Quiet(q) && FdInv(q)
  }

  ghost function Next(q: Queue, a: Action): Queue
    requires Inv(q) && Enabled(q, a)
  {
    match a
    case Alloc(addr, when, interval) =>
      q.(heap := q.heap[addr := Timer(when, interval, q.counter + 1)], counter := q.counter + 1,
         adding := q.adding + {addr}, ids := q.ids[q.counter + 1 := addr])
    case AddInLoop(addr) => AddTimer(q, addr)
    case Cancel(id) => CancelTimer(q, id)
    case Tick(to) => Advance(q, to)
    case Begin(now) => BeginTimeout(q, now)
    case RunNext => q.(next := q.next + 1)
    case End =>
      var q1 := q.(handling := false, next := 0);
      CoreBatchInHeap(q1);
      ResetAllKeepsCore(q1);
      RearmEarliest(ResetAll(q1))
  }

  function Initial(clock: int): Queue {
    Queue(map[], 0, {}, [], {}, false, {}, [], 0, 0, Disarmed, clock, map[], {}, {}, {})
  }

  // ---- Invariants ----

  /** Every allocated timer is in exactly one place: to be added, in the two sets, or in the running batch. */
  ghost predicate Places(q: Queue) {
    && (forall e :: e in q.timers ==> e.addr in q.heap && e == EntryOf(q, e.addr))
    && (forall e :: e in q.batch ==> e.addr in q.heap && e == EntryOf(q, e.addr))
    && (forall a :: a in q.adding ==> a in q.heap)
    && (forall a :: a in q.heap ==>
          && 0 <= a < ADDR_MAX
          && (a in q.adding || EntryOf(q, a) in q.timers || EntryOf(q, a) in q.batch)
          && !(a in q.adding && EntryOf(q, a) in q.timers)
          && !(a in q.adding && EntryOf(q, a) in q.batch)
          && !(EntryOf(q, a) in q.timers && EntryOf(q, a) in q.batch))
    && Sorted(q.timers) && Sorted(q.batch)
  }

  /** timers_ and activeTimers_ hold the same timers under their two keys. */
  ghost predicate SetsAgree(q: Queue) {
    forall p :: p in q.active <==> p.addr in q.heap && p == ActiveOf(q, p.addr) && EntryOf(q, p.addr) in q.timers
  }

  /** Sequence numbers are never handed out twice. */
  ghost predicate IdsInv(q: Queue) {
    && (forall a :: a in q.heap ==> q.heap[a].sequence in q.ids && q.ids[q.heap[a].sequence] == a)
    && (forall s :: s in q.ids ==> 1 <= s <= q.counter)
    && (forall s :: s in q.added ==> s in q.ids)
    && (forall a :: a in q.heap ==> (q.heap[a].sequence in q.added <==> a !in q.adding))
    && q.counter >= 0
  }

  /** Cancelled timers are out of the sets; one in the running batch is marked. */
  ghost predicate DeadInv(q: Queue) {
    && q.dead <= q.added && q.deadAtBegin <= q.dead
    && (forall a :: a in q.heap && EntryOf(q, a) in q.timers ==> q.heap[a].sequence !in q.dead)
    && (forall a :: a in q.heap && EntryOf(q, a) in q.batch ==>
          && q.heap[a].sequence !in q.deadAtBegin
          && (q.heap[a].sequence in q.dead ==> ActiveOf(q, a) in q.cancelled))
  }

  ghost predicate Core(q: Queue) {
    Places(q) && SetsAgree(q) && IdsInv(q) && DeadInv(q)
  }

  predicate Quiet(q: Queue) {
    if q.handling then q.next <= |q.batch| && q.batchNow > 0 else q.batch == [] && q.next == 0
  }

  /** The timerfd has fired, or will no later than the earliest timer or 100 us after it was set. */
  predicate Covered(q: Queue) {
    || q.timers == [] || q.fd.Fired?
    || (q.fd.Armed? && (q.fd.at <= q.timers[0].when || q.fd.at <= q.fd.setAt + 100))
  }

  predicate FdInv(q: Queue) {
    && q.clock >= 0
    && (q.fd.Armed? ==> q.fd.setAt <= q.clock < q.fd.at)
    && (!q.handling ==> Covered(q))
    && (q.handling && q.timers != [] && q.timers[0].when <= 0 ==> Covered(q))
  }

  lemma CoreBatchInHeap(q: Queue)
    requires Core(q)
    ensures BatchInHeap(q)
  {
    assert forall i, j :: 0 <= i < j < |q.batch| ==> Less(q.batch[i], q.batch[j]);
    assert forall i :: 0 <= i < |q.batch| ==> q.batch[i] in q.batch;
  }

  lemma BatchHead(q: Queue)
    requires Core(q) && q.batch != []
    ensures q.batch[0].addr in q.heap && q.batch[0] == EntryOf(q, q.batch[0].addr)
    ensures Sorted(q.batch[1..]) && q.batch[0] !in q.batch[1..]
    ensures forall x :: x in q.batch <==> x == q.batch[0] || x in q.batch[1..]
  {
    assert q.batch[0] in q.batch;
    assert forall i :: 0 < i < |q.batch| ==> Less(q.batch[0], q.batch[i]);
  }

  /** Deleting the timer at the head of the batch. */
  lemma DeleteKeepsCore(q: Queue, r: Queue)
    requires Core(q) && q.batch != []
    requires r == q.(batch := q.batch[1..], heap := q.heap - {q.batch[0].addr})
    ensures Core(r)
  {
    BatchHead(q);
    assert forall b :: b in r.heap ==>
             b in q.heap && EntryOf(r, b) == EntryOf(q, b) && ActiveOf(r, b) == ActiveOf(q, b);
  }

  /** Putting the timer at the head of the batch back into the sets under a new expiration. */
  lemma ReinsertKeepsCore(q: Queue, r: Queue, a: int, when: int)
    requires Core(q) && q.batch != [] && a == q.batch[0].addr && a in q.heap
    requires ActiveOf(q, a) !in q.cancelled
    requires r == q.(batch := q.batch[1..], heap := q.heap[a := q.heap[a].(expiration := when)],
                     timers := Insert(q.timers, Entry(when, a)), active := q.active + {ActiveOf(q, a)})
    ensures Core(r)
  {
    BatchHead(q);
    InsertSorted(q.timers, Entry(when, a));
    ReinsertKeepsPlaces(q, r, a, when);
    assert forall b :: b in r.heap && b != a ==> EntryOf(r, b) == EntryOf(q, b) && ActiveOf(r, b) == ActiveOf(q, b);
    assert ActiveOf(r, a) == ActiveOf(q, a);
  }

  lemma ReinsertKeepsPlaces(q: Queue, r: Queue, a: int, when: int)
    requires Core(q) && q.batch != [] && a == q.batch[0].addr && a in q.heap
    requires r == q.(batch := q.batch[1..], heap := q.heap[a := q.heap[a].(expiration := when)],
                     timers := Insert(q.timers, Entry(when, a)), active := q.active + {ActiveOf(q, a)})
    ensures Places(r)
  {
    BatchHead(q);
    InsertSorted(q.timers, Entry(when, a));
    assert forall b :: b in r.heap && b != a ==> EntryOf(r, b) == EntryOf(q, b);
    assert forall e :: e in q.timers || e in r.batch ==> e.addr != a;
  }

  lemma ResetOneKeepsCore(q: Queue)
    requires Core(q) && q.batch != [] && q.batch[0].addr in q.heap
    ensures Core(ResetOne(q))
  {
    hide Core;
    var a := q.batch[0].addr;
    if q.heap[a].interval > 0 && ActiveOf(q, a) !in q.cancelled {
      ReinsertKeepsCore(q, ResetOne(q), a, q.batchNow + q.heap[a].interval);
    } else {
      DeleteKeepsCore(q, ResetOne(q));
    }
  }

  lemma {:induction false} ResetAllKeepsCore(q: Queue)
    requires Core(q) && BatchInHeap(q)
    ensures Core(ResetAll(q))
    decreases |q.batch|
  {
    if q.batch != [] {
      ResetOneKeepsCore(q);
      ResetAllKeepsCore(ResetOne(q));
    }
  }

  lemma AllocKeepsCore(q: Queue, a: Action)
    requires Inv(q) && a.Alloc? && Enabled(q, a)
    ensures Core(Next(q, a))
  {
    var r := Next(q, a);
    assert forall b :: b in q.heap ==> EntryOf(r, b) == EntryOf(q, b) && ActiveOf(r, b) == ActiveOf(q, b);
    assert forall e :: e in q.timers || e in q.batch ==> e.addr != a.addr;
  }

  lemma AddKeepsPlaces(q: Queue, a: int)
    requires Core(q) && a in q.adding && a in q.heap
    ensures Places(AddTimer(q, a))
  {
    hide SetsAgree, IdsInv, DeadInv;
    var r := AddTimer(q, a);
    InsertSorted(q.timers, EntryOf(q, a));
    assert forall b :: b in q.heap ==> EntryOf(r, b) == EntryOf(q, b);
  }

  lemma AddKeepsSets(q: Queue, a: int)
    requires Core(q) && a in q.adding && a in q.heap
    ensures SetsAgree(AddTimer(q, a))
  {
    hide IdsInv, DeadInv;
    var r := AddTimer(q, a);
    InsertSorted(q.timers, EntryOf(q, a));
    assert forall b :: b in q.heap ==> EntryOf(r, b) == EntryOf(q, b) && ActiveOf(r, b) == ActiveOf(q, b);
  }

  lemma AddKeepsIds(q: Queue, a: int)
    requires Core(q) && a in q.adding && a in q.heap
    ensures IdsInv(AddTimer(q, a))
  {
    hide Places, SetsAgree, DeadInv;
    assert forall b :: b in q.heap && b != a ==> q.heap[b].sequence != q.heap[a].sequence;
  }

  lemma AddKeepsDead(q: Queue, a: int)
    requires Core(q) && a in q.adding && a in q.heap
    ensures DeadInv(AddTimer(q, a))
  {
    hide SetsAgree;
    var r := AddTimer(q, a);
    InsertSorted(q.timers, EntryOf(q, a));
    assert forall b :: b in q.heap ==> EntryOf(r, b) == EntryOf(q, b) && ActiveOf(r, b) == ActiveOf(q, b);
  }

  lemma AddKeepsCore(q: Queue, a: int)
    requires Core(q) && a in q.adding
    ensures Core(AddTimer(q, a))
  {
    AddInHeap(q, a);
    hide Places, SetsAgree, IdsInv, DeadInv, AddTimer;
    AddKeepsPlaces(q, a);
    AddKeepsSets(q, a);
    AddKeepsIds(q, a);
    AddKeepsDead(q, a);
  }

  /** Cancelling an active timer deletes it. */
  lemma EraseKeepsCore(q: Queue, id: Active)
    requires Core(q) && id in q.active
    ensures Core(CancelTimer(q, id))
  {
    var r := CancelTimer(q, id);
    EraseSorted(q.timers, EntryOf(q, id.addr));
    assert forall b :: b in r.heap ==> EntryOf(r, b) == EntryOf(q, b) && ActiveOf(r, b) == ActiveOf(q, b);
    assert forall b :: b in r.heap ==> q.heap[b].sequence != id.sequence;
  }

  /** Any other timer is at most marked. */
  lemma MarkKeepsCore(q: Queue, id: Active)
    requires Core(q) && Quiet(q) && id !in q.active
    ensures Core(CancelTimer(q, id))
  {
    var r := CancelTimer(q, id);
    assert forall b :: b in r.heap ==> EntryOf(r, b) == EntryOf(q, b) && ActiveOf(r, b) == ActiveOf(q, b);
    assert IsAdded(q, id) ==> forall b :: b in q.heap && q.heap[b].sequence == id.sequence ==> id == ActiveOf(q, b);
  }

  lemma CancelKeepsCore(q: Queue, id: Active)
    requires Core(q) && Quiet(q)
    ensures Core(CancelTimer(q, id))
  {
    if id in q.active {
      EraseKeepsCore(q, id);
    } else {
      MarkKeepsCore(q, id);
    }
  }

  lemma BeginKeepsCore(q: Queue, now: int)
    requires Core(q) && Quiet(q) && !q.handling
    ensures Core(BeginTimeout(q, now))
  {
    var r := BeginTimeout(q, now);
    var n := CountLess(q.timers, Entry(now, ADDR_MAX));
    SplitDue(q.timers, now, n);
    assert forall b :: b in q.heap ==> EntryOf(r, b) == EntryOf(q, b) && ActiveOf(r, b) == ActiveOf(q, b);
    assert forall p :: p in r.active <==>
             p in q.active && !(exists e :: e in q.timers[..n] && ActiveOf(q, e.addr) == p);
    forall p ensures p in r.active <==> p.addr in r.heap && p == ActiveOf(r, p.addr) && EntryOf(r, p.addr) in r.timers {
      if p in q.active {
        assert EntryOf(q, p.addr) in q.timers[..n] ==> ActiveOf(q, p.addr) == p;
      }
    }
  }

  /** If the earliest timer is not positive, the timerfd covers it already. */
  predicate LowCovered(q: Queue) {
    q.timers != [] && q.timers[0].when <= 0 ==> Covered(q)
  }

  lemma ResetOneKeepsLow(q: Queue)
    requires Core(q) && q.batch != [] && q.batch[0].addr in q.heap && q.batchNow > 0 && LowCovered(q)
    ensures var r := ResetOne(q);
            LowCovered(r) && r.fd == q.fd && r.clock == q.clock && r.handling == q.handling &&
            r.next == q.next && r.batchNow == q.batchNow && r.batch == q.batch[1..]
  {
    var a := q.batch[0].addr;
    InsertSorted(q.timers, Entry(q.batchNow + q.heap[a].interval, a));
  }

  lemma {:induction false} ResetAllKeepsLow(q: Queue)
    requires Core(q) && BatchInHeap(q) && q.batchNow > 0 && LowCovered(q)
    ensures var r := ResetAll(q);
            LowCovered(r) && r.fd == q.fd && r.clock == q.clock && r.handling == q.handling && r.next == q.next
    decreases |q.batch|
  {
    hide Core, LowCovered, ResetOne;
    if q.batch != [] {
      ResetOneKeepsCore(q);
      ResetOneKeepsLow(q);
      CoreBatchInHeap(ResetOne(q));
      ResetAllKeepsLow(ResetOne(q));
    }
  }

  /** Which fields Core is about. */
  lemma CoreIgnores(q: Queue, r: Queue)
    requires Core(q)
    requires r == q.(handling := r.handling, next := r.next, fd := r.fd, clock := r.clock, batchNow := r.batchNow)
    ensures Core(r)
  {
    assert forall b :: b in q.heap ==> EntryOf(r, b) == EntryOf(q, b) && ActiveOf(r, b) == ActiveOf(q, b);
  }

  lemma TimersInHeap(q: Queue)
    requires Core(q)
    ensures forall e :: e in q.timers ==> e.addr in q.heap
  {
  }

  lemma EarliestInHeap(q: Queue)
    requires Core(q)
    ensures q.timers != [] ==> q.timers[0].addr in q.heap && q.heap[q.timers[0].addr].expiration == q.timers[0].when
  {
    if q.timers != [] {
      assert q.timers[0] in q.timers;
    }
  }

  lemma EndKeepsInv(q: Queue)
    requires Inv(q) && Enabled(q, End)
    ensures Inv(Next(q, End))
  {
    hide Core;
    var q1 := q.(handling := false, next := 0);
    assert Core(q1) by { CoreIgnores(q, q1); }
    CoreBatchInHeap(q1);
    ResetAllKeepsCore(q1);
    ResetAllKeepsLow(q1);
    var r := ResetAll(q1);
    EarliestInHeap(r);
    CoreIgnores(r, RearmEarliest(r));
  }

  lemma AddKeepsFd(q: Queue, a: int)
    requires Core(q) && FdInv(q) && a in q.adding
    ensures FdInv(AddTimer(q, a))
  {
    InsertSorted(q.timers, EntryOf(q, a));
  }

  lemma CancelKeepsFd(q: Queue, id: Active)
    requires Core(q) && FdInv(q)
    ensures FdInv(CancelTimer(q, id))
  {
    if id in q.active {
      EraseSorted(q.timers, EntryOf(q, id.addr));
    }
  }

  lemma BeginKeepsFd(q: Queue, now: int)
    requires Inv(q) && !q.handling && now > 0
    ensures FdInv(BeginTimeout(q, now))
  {
    var n := CountLess(q.timers, Entry(now, ADDR_MAX));
    SplitDue(q.timers, now, n);
    assert q.timers[n..] != [] ==> q.timers[n..][0] in q.timers[n..];
  }

  /** Every step keeps the invariant. */
  lemma StepKeepsInv(q: Queue, a: Action)
    requires Inv(q) && Enabled(q, a)
    ensures Inv(Next(q, a))
  {
    hide Core;
    match a
    case Alloc(_, _, _) => AllocKeepsCore(q, a);
    case AddInLoop(addr) =>
      AddInHeap(q, addr);
      AddKeepsCore(q, addr);
      AddKeepsFd(q, addr);
    case Cancel(id) =>
      CancelKeepsCore(q, id);
      CancelKeepsFd(q, id);
    case Tick(to) => CoreIgnores(q, Advance(q, to));
    case Begin(now) =>
      BeginKeepsCore(q, now);
      BeginKeepsFd(q, now);
    case RunNext => CoreIgnores(q, Next(q, a));
    case End => EndKeepsInv(q);
  }

  lemma AddInHeap(q: Queue, a: int)
    requires Core(q) && a in q.adding
    ensures a in q.heap
  {
  }

  // ---- Whole runs ----

  /** `r` follows `q`. (Next is only defined on states that keep the invariant; RunKeepsInv shows that all do.) */
  ghost predicate IsStep(q: Queue, a: Action, r: Queue) {
    Inv(q) ==> Enabled(q, a) && r == Next(q, a)
  }

  ghost predicate IsRun(qs: seq<Queue>, actions: seq<Action>) {
    && |qs| == |actions| + 1 && qs[0].clock >= 0 && qs[0] == Initial(qs[0].clock)
    && (forall i {:trigger actions[i]} :: 0 <= i < |actions| ==> IsStep(qs[i], actions[i], qs[i + 1]))
  }

  lemma {:induction false} RunKeepsInv(qs: seq<Queue>, actions: seq<Action>, n: nat)
    requires IsRun(qs, actions) && n < |qs|
    ensures Inv(qs[n])
  {
    if n > 0 {
      RunKeepsInv(qs, actions, n - 1);
      StepKeepsInv(qs[n - 1], actions[n - 1]);
    }
  }

  // ---- The sets and the places ----

  lemma {:induction false} EntriesAndActives(q: Queue, s: seq<Entry>)
    requires Core(q) && Sorted(s) && forall e :: e in s ==> e in q.timers
    ensures |set e | e in s :: ActiveOf(q, e.addr)| == |s|
  {
    hide SetsAgree, IdsInv, DeadInv;
    if s != [] {
      var t := s[..|s| - 1];
      var last := s[|s| - 1];
      EntriesAndActives(q, t);
      assert last in s && forall e :: e in s <==> e in t || e == last;
      assert last !in t by {
        assert forall i :: 0 <= i < |t| ==> Less(t[i], last);
      }
      var front := set e | e in t :: ActiveOf(q, e.addr);
      assert ActiveOf(q, last.addr) !in front;
      assert (set e | e in s :: ActiveOf(q, e.addr)) == front + {ActiveOf(q, last.addr)};
    }
  }

  /** In every reachable state the two sets hold the same timers under their two keys, equally many, and
      every allocated timer is in exactly one place. */
  lemma SetsAndPlaces(qs: seq<Queue>, actions: seq<Action>, n: nat)
    requires IsRun(qs, actions) && n < |qs|
    ensures var q := qs[n];
            && |q.timers| == |q.active|
            && (forall e :: e in q.timers ==>
                  e.addr in q.heap && ActiveOf(q, e.addr) in q.active && e.when == q.heap[e.addr].expiration)
            && (forall p :: p in q.active ==>
                  p.addr in q.heap && EntryOf(q, p.addr) in q.timers && p == ActiveOf(q, p.addr))
            && Places(q)
  {
    RunKeepsInv(qs, actions, n);
    SizesAgree(qs[n]);
  }

  /** An expired batch is exactly the timers with expiration <= now, in order; the rest stays. */
  lemma BatchIsExactlyDue(qs: seq<Queue>, actions: seq<Action>, n: nat)
    requires IsRun(qs, actions) && n < |actions| && actions[n].Begin?
    ensures var q, r, now := qs[n], qs[n + 1], actions[n].now;
            && q.timers == r.batch + r.timers && Sorted(r.batch)
            && (forall e :: e in r.batch <==> e in q.timers && e.when <= now)
            && (forall e :: e in r.timers <==> e in q.timers && e.when > now)
  {
    RunKeepsInv(qs, actions, n);
    SplitDue(qs[n].timers, actions[n].now, CountLess(qs[n].timers, Entry(actions[n].now, ADDR_MAX)));
  }

  /** `resetTimers` will delete this timer. */
  predicate ToBeDeleted(q: Queue, a: int)
    requires a in q.heap
  {
    EntryOf(q, a) in q.batch && (q.heap[a].interval == 0 || ActiveOf(q, a) in q.cancelled)
  }

  lemma ResetOneSpares(q: Queue, a: int)
    requires Core(q) && q.batch != [] && q.batch[0].addr in q.heap && a in q.heap && !ToBeDeleted(q, a)
    ensures var r := ResetOne(q);
            a in r.heap && !ToBeDeleted(r, a)
  {
    var r := ResetOne(q);
    BatchHead(q);
    if a == q.batch[0].addr {
      ResetOneKeepsCore(q);
      InsertSorted(q.timers, EntryOf(r, a));
      assert EntryOf(r, a) in r.timers;
    } else {
      assert EntryOf(r, a) == EntryOf(q, a) && ActiveOf(r, a) == ActiveOf(q, a);
    }
  }

  lemma {:induction false} ResetAllSpares(q: Queue, a: int)
    requires Core(q) && BatchInHeap(q) && a in q.heap && !ToBeDeleted(q, a)
    ensures a in ResetAll(q).heap
    decreases |q.batch|
  {
    hide Core, ToBeDeleted;
    if q.batch != [] {
      ResetOneKeepsCore(q);
      CoreBatchInHeap(ResetOne(q));
      ResetOneSpares(q, a);
      ResetAllSpares(ResetOne(q), a);
    }
  }

  /** A timer leaves the heap only when it is cancelled while in the sets, or at the end of its batch when it is
      one-shot or cancelled. Both leave it in no set, so nothing deletes it a second time. */
  lemma DeletedTimers(q: Queue, a: Action, addr: int)
    requires Inv(q) && Enabled(q, a) && addr in q.heap && addr !in Next(q, a).heap
    ensures (a.Cancel? && a.id == ActiveOf(q, addr) && EntryOf(q, addr) in q.timers)
            || (a.End? && ToBeDeleted(q, addr))
    ensures forall e :: e in Next(q, a).timers || e in Next(q, a).batch ==> e.addr != addr
  {
    StepKeepsInv(q, a);
    if a.End? && !ToBeDeleted(q, addr) {
      var q1 := q.(handling := false, next := 0);
      CoreIgnores(q, q1);
      CoreBatchInHeap(q1);
      ResetAllSpares(q1, addr);
    }
  }

  // ---- Cancellation is final ----

  /** The sequence number of the timer that step RunNext runs. */
  function RunBy(q: Queue): int
    requires q.next < |q.batch| && q.batch[q.next].addr in q.heap
  {
    q.heap[q.batch[q.next].addr].sequence
  }

  lemma {:induction false} ResetAllFrame(q: Queue)
    requires BatchInHeap(q) && Core(q)
    ensures var r := ResetAll(q);
            r.dead == q.dead && r.deadAtBegin == q.deadAtBegin && r.added == q.added && r.ids == q.ids
    decreases |q.batch|
  {
    hide Core;
    if q.batch != [] {
      ResetOneKeepsCore(q);
      CoreBatchInHeap(ResetOne(q));
      ResetAllFrame(ResetOne(q));
    }
  }

  lemma StepKeepsDead(q: Queue, a: Action)
    requires Inv(q) && Enabled(q, a)
    ensures q.dead <= Next(q, a).dead
    ensures Next(q, a).deadAtBegin == if a.Begin? then q.dead else q.deadAtBegin
  {
    if a.End? {
      var q1 := q.(handling := false, next := 0);
      CoreIgnores(q, q1);
      CoreBatchInHeap(q1);
      ResetAllFrame(q1);
    }
  }

  lemma {:induction false} DeadStaysDead(qs: seq<Queue>, actions: seq<Action>, i: nat, b: nat, j: nat)
    requires IsRun(qs, actions) && i <= b < j < |qs| && actions[b].Begin?
    ensures qs[i].dead <= qs[j].deadAtBegin && qs[i].dead <= qs[j].dead
    decreases j
  {
    hide Inv, Next;
    RunKeepsInv(qs, actions, j - 1);
    StepKeepsDead(qs[j - 1], actions[j - 1]);
    if b < j - 1 {
      DeadStaysDead(qs, actions, i, b, j - 1);
    } else {
      DeadOnlyGrows(qs, actions, i, b);
    }
  }

  lemma {:induction false} DeadOnlyGrows(qs: seq<Queue>, actions: seq<Action>, i: nat, j: nat)
    requires IsRun(qs, actions) && i <= j < |qs|
    ensures qs[i].dead <= qs[j].dead
    decreases j
  {
    hide Inv, Next;
    if i < j {
      RunKeepsInv(qs, actions, j - 1);
      StepKeepsDead(qs[j - 1], actions[j - 1]);
      DeadOnlyGrows(qs, actions, i, j - 1);
    }
  }

  /** Once a timer has been added and cancelled, no later handleTimeout runs it: not when it was cancelled from
      a callback of its own batch, and not when its address was given to another timer. */
  lemma CancelIsFinal(qs: seq<Queue>, actions: seq<Action>, i: nat, b: nat, r: nat)
    requires IsRun(qs, actions) && i < b < r < |actions|
    requires actions[i].Cancel? && IsAdded(qs[i], actions[i].id)
    requires actions[b].Begin? && actions[r].RunNext?
    ensures qs[r].next < |qs[r].batch| && qs[r].batch[qs[r].next].addr in qs[r].heap
    ensures RunBy(qs[r]) != actions[i].id.sequence
  {
    RunKeepsInv(qs, actions, i);
    RunKeepsInv(qs, actions, r);
    DeadStaysDead(qs, actions, i + 1, b, r);
    var e := qs[r].batch[qs[r].next];
    assert e in qs[r].batch && e == EntryOf(qs[r], e.addr);
  }

  /** Everything in the running batch was due at its `now`, which has passed. */
  ghost predicate BatchDue(q: Queue) {
    q.handling ==> q.batchNow <= q.clock && forall e :: e in q.batch ==> e.when <= q.batchNow
  }

  lemma StepKeepsDue(q: Queue, a: Action)
    requires Inv(q) && Enabled(q, a) && BatchDue(q)
    ensures BatchDue(Next(q, a))
  {
    hide Core;
    match a
    case Begin(now) =>
      BeginFields(q, now);
      CoreSorted(q);
      SplitDue(q.timers, now, CountLess(q.timers, Entry(now, ADDR_MAX)));
    case End =>
      var q1 := q.(handling := false, next := 0);
      CoreIgnores(q, q1);
      CoreBatchInHeap(q1);
      ResetAllKeepsLow(q1);
    case _ =>
  }

  lemma CoreSorted(q: Queue)
    requires Core(q)
    ensures Sorted(q.timers) && forall e :: e in q.timers ==> e.addr < ADDR_MAX
  {
  }

  lemma {:induction false} RunKeepsDue(qs: seq<Queue>, actions: seq<Action>, n: nat)
    requires IsRun(qs, actions) && n < |qs|
    ensures BatchDue(qs[n])
  {
    hide Inv, Next;
    if n > 0 {
      RunKeepsDue(qs, actions, n - 1);
      RunKeepsInv(qs, actions, n - 1);
      StepKeepsDue(qs[n - 1], actions[n - 1]);
    }
  }

  /** A callback that runs belongs to a timer whose expiration has passed, and that was added and not cancelled when its
      batch began: no callback runs early. */
  lemma RunsAreDue(qs: seq<Queue>, actions: seq<Action>, r: nat)
    requires IsRun(qs, actions) && r < |actions| && actions[r].RunNext?
    ensures qs[r].next < |qs[r].batch| && qs[r].batch[qs[r].next].addr in qs[r].heap
    ensures var e := qs[r].batch[qs[r].next];
            qs[r].heap[e.addr].expiration == e.when <= qs[r].batchNow <= qs[r].clock
    ensures RunBy(qs[r]) in qs[r].added && RunBy(qs[r]) !in qs[r].deadAtBegin
  {
    RunKeepsInv(qs, actions, r);
    RunKeepsDue(qs, actions, r);
    var e := qs[r].batch[qs[r].next];
    assert e in qs[r].batch && e == EntryOf(qs[r], e.addr);
  }

  // ---- The asserts ----

  /** The two sets have equally many elements, as the asserts at the head and foot of most operations say. */
  lemma SizesAgree(q: Queue)
    requires Core(q)
    ensures |q.timers| == |q.active|
  {
    EntriesAndActives(q, q.timers);
    assert q.active == set e | e in q.timers :: ActiveOf(q, e.addr) by {
      assert forall p :: p in q.active ==> EntryOf(q, p.addr) in q.timers && ActiveOf(q, EntryOf(q, p.addr).addr) == p;
    }
  }

  /** `insert` finds its timer in neither set. */
  predicate InsertAsserts(q: Queue, a: int)
    requires a in q.heap
  {
    |q.timers| == |q.active| && EntryOf(q, a) !in q.timers && ActiveOf(q, a) !in q.active
  }

  /** Erasing an active timer finds it in both sets. */
  predicate EraseAsserts(q: Queue, id: Active) {
    id in q.active ==> id.addr in q.heap && EntryOf(q, id.addr) in q.timers && |q.timers| == |q.active|
  }

  /** `getExpiredTimers` finds each expired timer in activeTimers_, the ones before it erased. */
  ghost predicate ExpireAsserts(q: Queue, n: nat)
    requires n <= |q.timers| && forall e :: e in q.timers ==> e.addr in q.heap
  {
    forall i :: 0 <= i < n ==>
      ActiveOf(q, q.timers[i].addr) in q.active && ActiveOf(q, q.timers[i].addr) !in Actives(q.heap, q.timers[..i])
  }

  /** Each insertion in the loop of `resetTimers`. */
  predicate ResetAsserts(q: Queue)
    requires BatchInHeap(q)
    decreases |q.batch|
  {
    && |q.timers| == |q.active|
    && (q.batch != [] ==>
          var a := q.batch[0].addr;
          var timer := q.heap[a];
          && (timer.interval > 0 && ActiveOf(q, a) !in q.cancelled ==>
                InsertAsserts(q.(heap := q.heap[a := timer.(expiration := q.batchNow + timer.interval)]), a))
          && ResetAsserts(ResetOne(q)))
  }

  lemma ExpireAssertsHold(q: Queue, n: nat)
    requires Core(q) && n <= |q.timers|
    ensures (forall e :: e in q.timers ==> e.addr in q.heap) && ExpireAsserts(q, n)
  {
    forall i | 0 <= i < n
      ensures ActiveOf(q, q.timers[i].addr) in q.active
      ensures ActiveOf(q, q.timers[i].addr) !in Actives(q.heap, q.timers[..i])
    {
      assert q.timers[i] in q.timers;
      forall e | e in q.timers[..i] ensures e.addr != q.timers[i].addr {
        assert e in q.timers && Less(e, q.timers[i]);
      }
    }
  }

  lemma HeadIsFresh(q: Queue)
    requires Core(q) && q.batch != [] && q.batch[0].addr in q.heap
    ensures forall e :: e in q.timers ==> e.addr != q.batch[0].addr
    ensures ActiveOf(q, q.batch[0].addr) !in q.active
  {
    BatchHead(q);
  }

  lemma {:induction false} ResetAssertsHold(q: Queue)
    requires Core(q) && BatchInHeap(q)
    ensures ResetAsserts(q)
    decreases |q.batch|
  {
    hide Core;
    SizesAgree(q);
    if q.batch != [] {
      HeadIsFresh(q);
      ResetOneKeepsCore(q);
      CoreBatchInHeap(ResetOne(q));
      ResetAssertsHold(ResetOne(q));
    }
  }

  /** The asserts of the queue's own steps. */
  ghost predicate QueueAsserts(q: Queue, a: Action)
    requires Inv(q) && Enabled(q, a)
  {
    match a
    case AddInLoop(addr) =>
      AddInHeap(q, addr);
      InsertAsserts(q, addr)
    case Cancel(id) => EraseAsserts(q, id)
    case Begin(now) =>
      TimersInHeap(q);
      ExpireAsserts(q, CountLess(q.timers, Entry(now, ADDR_MAX)))
    case End =>
      CoreBatchInHeap(q);
      ResetAsserts(q)
    case _ => true
  }

  /** On every run, every assert on an insertion, an erasure or the sizes of the two sets holds. */
  lemma AssertsHold(qs: seq<Queue>, actions: seq<Action>, n: nat)
    requires IsRun(qs, actions) && n < |actions|
    ensures Inv(qs[n]) && Enabled(qs[n], actions[n]) && QueueAsserts(qs[n], actions[n])
    ensures |qs[n].timers| == |qs[n].active|
  {
    RunKeepsInv(qs, actions, n);
    var q := qs[n];
    SizesAgree(q);
    match actions[n]
    case AddInLoop(addr) => AddInHeap(q, addr);
    case Begin(now) => ExpireAssertsHold(q, CountLess(q.timers, Entry(now, ADDR_MAX)));
    case End =>
      CoreBatchInHeap(q);
      ResetAssertsHold(q);
    case _ =>
  }

  /** Step `b` begins the batch that step `n` is in. */
  ghost predicate InBatchOf(actions: seq<Action>, b: nat, n: nat) {
    b < n <= |actions| && actions[b].Begin? && forall k :: b < k < n ==> !actions[k].Begin? && !actions[k].End?
  }

  lemma MarkStep(q: Queue, a: Action, id: Active)
    requires Inv(q) && Enabled(q, a) && !a.End?
    ensures a.Begin? ==> Next(q, a).handling && Next(q, a).cancelled == {}
    ensures q.handling && !a.Begin? ==>
              && Next(q, a).handling
              && (id in Next(q, a).cancelled <==> id in q.cancelled || (a == Cancel(id) && id !in q.active))
  {
  }

  /** While a batch runs, exactly the ids are marked that were cancelled in it when they were not active. */
  lemma {:induction false} MarkedExactly(qs: seq<Queue>, actions: seq<Action>, b: nat, n: nat, id: Active)
    requires IsRun(qs, actions) && InBatchOf(actions, b, n)
    ensures qs[n].handling
    ensures id in qs[n].cancelled <==> exists k :: b < k < n && actions[k] == Cancel(id) && id !in qs[k].active
    decreases n
  {
    hide Inv, Next, Enabled;
    RunKeepsInv(qs, actions, n - 1);
    assert IsStep(qs[n - 1], actions[n - 1], qs[n]);
    MarkStep(qs[n - 1], actions[n - 1], id);
    if b < n - 1 {
      MarkedExactly(qs, actions, b, n - 1, id);
    }
  }

  /** The one assert that user code can break (line 139): cancelling an id during a batch fails it exactly when the id
      is not active and was cancelled before in the same batch when it was not active. */
  lemma CancelAssertFailsExactly(qs: seq<Queue>, actions: seq<Action>, b: nat, n: nat, id: Active)
    requires IsRun(qs, actions) && InBatchOf(actions, b, n)
    ensures !CancelAsserts(qs[n], id) <==>
            id !in qs[n].active && exists k :: b < k < n && actions[k] == Cancel(id) && id !in qs[k].active
  {
    MarkedExactly(qs, actions, b, n, id);
  }

  lemma ExtendRun(qs: seq<Queue>, actions: seq<Action>, a: Action) returns (longer: seq<Queue>)
    requires IsRun(qs, actions) && Enabled(qs[|actions|], a)
    ensures Inv(qs[|actions|]) && longer == qs + [Next(qs[|actions|], a)] && IsRun(longer, actions + [a])
  {
    hide Inv, Next;
    RunKeepsInv(qs, actions, |actions|);
    longer := qs + [Next(qs[|actions|], a)];
    forall i {:trigger (actions + [a])[i]} | 0 <= i < |actions| + 1
      ensures IsStep(longer[i], (actions + [a])[i], longer[i + 1])
    {
      if i < |actions| {
        assert actions[i] == (actions + [a])[i];
      }
    }
  }

  /** A run into the callback of a one-shot timer. */
  lemma IntoCallback() returns (qs: seq<Queue>, actions: seq<Action>)
    ensures IsRun(qs, actions) && |actions| == 5
    ensures qs[5].handling && Active(0, 1) !in qs[5].active && Active(0, 1) !in qs[5].cancelled
  {
    hide Core;
    qs, actions := [Initial(0)], [];
    qs := ExtendRun(qs, actions, Alloc(0, 5, 0));
    actions := actions + [Alloc(0, 5, 0)];
    qs := ExtendRun(qs, actions, AddInLoop(0));
    actions := actions + [AddInLoop(0)];
    assert qs[2].timers == [Entry(5, 0)];
    qs := ExtendRun(qs, actions, Tick(200));
    actions := actions + [Tick(200)];
    qs := ExtendRun(qs, actions, Begin(200));
    actions := actions + [Begin(200)];
    assert CountLess(qs[3].timers, Entry(200, ADDR_MAX)) == 1;
    qs := ExtendRun(qs, actions, RunNext);
    actions := actions + [RunNext];
  }

  /** A run that fails it: a one-shot timer whose callback cancels it twice. */
  lemma CancelTwiceFails()
    ensures exists qs: seq<Queue>, actions: seq<Action>, n: nat ::
              IsRun(qs, actions) && n < |actions| && actions[n].Cancel? && !CancelAsserts(qs[n], actions[n].id)
  {
    hide Inv, IsRun;
    var id := Active(0, 1);
    var qs, actions := IntoCallback();
    RunShape(qs, actions);
    qs := ExtendRun(qs, actions, Cancel(id));
    actions := actions + [Cancel(id)];
    assert id in qs[6].cancelled && !CancelAsserts(qs[6], id);
    qs := ExtendRun(qs, actions, Cancel(id));
    actions := actions + [Cancel(id)];
    assert IsRun(qs, actions) && 6 < |actions| && actions[6].Cancel? && !CancelAsserts(qs[6], actions[6].id);
  }

  lemma RunShape(qs: seq<Queue>, actions: seq<Action>)
    requires IsRun(qs, actions)
    ensures |qs| == |actions| + 1
  {
  }

  // ---- Each timer of a batch runs once ----

  /** A step inside handleTimeout leaves the batch and its timers alone; a call takes the next one. */
  lemma BatchSteady(q: Queue, a: Action)
    requires Inv(q) && Enabled(q, a) && q.handling && !a.End?
    ensures var r := Next(q, a);
            && r.handling && r.batch == q.batch && r.next == q.next + (if a.RunNext? then 1 else 0)
            && (forall e :: e in q.batch ==> e.addr in q.heap && e.addr in r.heap && r.heap[e.addr] == q.heap[e.addr])
  {
  }

  /** The elements of the batch that steps b + 1 to n - 1 run. */
  ghost function RunsOf(qs: seq<Queue>, actions: seq<Action>, b: nat, n: nat): seq<Entry>
    requires n <= |actions| < |qs|
  {
    if n <= b + 1 then []
    else
      var m := n - 1;
      RunsOf(qs, actions, b, m) +
      (if actions[m].RunNext? && qs[m].next < |qs[m].batch| then [qs[m].batch[qs[m].next]] else [])
  }

  lemma {:induction false} RunsArePrefix(qs: seq<Queue>, actions: seq<Action>, b: nat, n: nat)
    requires IsRun(qs, actions) && InBatchOf(actions, b, n)
    ensures qs[n].handling && qs[n].batch == qs[b + 1].batch && qs[n].next <= |qs[n].batch|
    ensures RunsOf(qs, actions, b, n) == qs[b + 1].batch[..qs[n].next]
    decreases n
  {
    hide Core, FdInv;
    RunKeepsInv(qs, actions, n - 1);
    RunKeepsInv(qs, actions, n);
    var q, a := qs[n - 1], actions[n - 1];
    assert IsStep(q, a, qs[n]);
    if b < n - 1 {
      RunsArePrefix(qs, actions, b, n - 1);
      BatchSteady(q, a);
    }
  }

  /** On every run: between its begin and its end, a handleTimeout runs exactly its batch, in order and each timer
      once. */
  lemma BatchRunsOnce(qs: seq<Queue>, actions: seq<Action>, b: nat, e: nat)
    requires IsRun(qs, actions) && e < |actions| && InBatchOf(actions, b, e) && actions[e].End?
    ensures RunsOf(qs, actions, b, e) == qs[b + 1].batch && Sorted(qs[b + 1].batch)
  {
    hide Next;
    RunKeepsInv(qs, actions, e);
    assert IsStep(qs[e], actions[e], qs[e + 1]);
    RunsArePrefix(qs, actions, b, e);
  }

  // ---- What becomes of a batch ----

  /** The timer goes back into the queue for this time, as it is. */
  ghost predicate Restarted(q: Queue, r: Queue, a: int, when: int)
    requires a in q.heap
  {
    && a in r.heap && r.heap[a] == q.heap[a].(expiration := when) && Entry(when, a) in r.timers
  }

  lemma ResetOneFates(q: Queue)
    requires Core(q) && q.batch != [] && q.batch[0].addr in q.heap
    ensures var a := q.batch[0].addr;
            if q.heap[a].interval > 0 && Active(a, q.heap[a].sequence) !in q.cancelled
            then Restarted(q, ResetOne(q), a, q.batchNow + q.heap[a].interval) else a !in ResetOne(q).heap
    ensures var a := q.batch[0].addr;
            forall b :: b != a && b in q.heap ==> b in ResetOne(q).heap && ResetOne(q).heap[b] == q.heap[b]
    ensures forall e :: e in q.timers ==> e in ResetOne(q).timers
    ensures ResetOne(q).batchNow == q.batchNow && ResetOne(q).cancelled == q.cancelled
    ensures ResetOne(q).batch == q.batch[1..]
  {
    var a := q.batch[0].addr;
    InsertSorted(q.timers, Entry(q.batchNow + q.heap[a].interval, a));
  }

  /** What the loop of `resetTimers` makes of element i. */
  lemma {:induction false} ResetAllFates(q: Queue, i: nat)
    requires Core(q) && BatchInHeap(q) && i < |q.batch|
    ensures var a := q.batch[i].addr;
            if q.heap[a].interval > 0 && Active(a, q.heap[a].sequence) !in q.cancelled
            then Restarted(q, ResetAll(q), a, q.batchNow + q.heap[a].interval) else a !in ResetAll(q).heap
    decreases |q.batch|
  {
    hide Core, ResetOne;
    var r := ResetOne(q);
    ResetOneFates(q);
    ResetOneKeepsCore(q);
    CoreBatchInHeap(r);
    if i == 0 {
      ResetAllKeepsOthers(r, q.batch[0].addr);
    } else {
      ResetAllFates(r, i - 1);
    }
  }

  /** It does not touch what is not in the batch. */
  lemma {:induction false} ResetAllKeepsOthers(q: Queue, a: int)
    requires Core(q) && BatchInHeap(q) && forall i :: 0 <= i < |q.batch| ==> q.batch[i].addr != a
    ensures a in ResetAll(q).heap <==> a in q.heap
    ensures a in q.heap ==> ResetAll(q).heap[a] == q.heap[a]
    ensures forall e :: e in q.timers ==> e in ResetAll(q).timers
    decreases |q.batch|
  {
    hide Core, ResetOne;
    if q.batch != [] {
      ResetOneFates(q);
      ResetOneKeepsCore(q);
      ResetOneShrinks(q);
      CoreBatchInHeap(ResetOne(q));
      ResetAllKeepsOthers(ResetOne(q), a);
    }
  }

  lemma EndFates(q: Queue, i: nat)
    requires Inv(q) && Enabled(q, End) && i < |q.batch|
    ensures q.batch[i].addr in q.heap
    ensures var a := q.batch[i].addr;
            if q.heap[a].interval > 0 && Active(a, q.heap[a].sequence) !in q.cancelled
            then Restarted(q, Next(q, End), a, q.batchNow + q.heap[a].interval) else a !in Next(q, End).heap
  {
    hide Core, FdInv, ResetAll, ResetOne;
    var q1 := q.(handling := false, next := 0);
    CoreIgnores(q, q1);
    CoreBatchInHeap(q1);
    ResetAllKeepsCore(q1);
    ResetAllFates(q1, i);
    EarliestInHeap(ResetAll(q1));
  }

  lemma NowStays(q: Queue, a: Action)
    requires Inv(q) && Enabled(q, a) && !a.End?
    ensures Next(q, a).batchNow == if a.Begin? then a.now else q.batchNow
  {
  }

  lemma {:induction false} BatchHasNow(qs: seq<Queue>, actions: seq<Action>, b: nat, n: nat)
    requires IsRun(qs, actions) && InBatchOf(actions, b, n)
    ensures qs[n].batchNow == actions[b].now
    decreases n
  {
    hide Inv, Next, Enabled;
    RunKeepsInv(qs, actions, n - 1);
    assert IsStep(qs[n - 1], actions[n - 1], qs[n]);
    NowStays(qs[n - 1], actions[n - 1]);
    if b < n - 1 {
      BatchHasNow(qs, actions, b, n - 1);
    }
  }

  lemma BatchNotActive(q: Queue, e: Entry)
    requires Inv(q) && e in q.batch
    ensures e.addr in q.heap && Active(e.addr, q.heap[e.addr].sequence) !in q.active
  {
  }

  /** A timer of the running batch is not active, and stays as it is till the end. */
  lemma {:induction false} BatchTimerStays(qs: seq<Queue>, actions: seq<Action>, b: nat, n: nat, k: nat, i: nat)
    requires IsRun(qs, actions) && InBatchOf(actions, b, n) && b < k <= n && i < |qs[b + 1].batch|
    ensures var a := qs[b + 1].batch[i].addr;
            && a in qs[k].heap && a in qs[n].heap && qs[k].heap[a] == qs[n].heap[a]
            && Active(a, qs[n].heap[a].sequence) !in qs[k].active
    decreases n
  {
    hide Core, FdInv, Next;
    RunKeepsInv(qs, actions, n);
    RunsArePrefix(qs, actions, b, n);
    BatchNotActive(qs[n], qs[n].batch[i]);
    if k < n {
      BatchTimerStays(qs, actions, b, n - 1, k, i);
      RunKeepsInv(qs, actions, n - 1);
      assert IsStep(qs[n - 1], actions[n - 1], qs[n]);
      RunsArePrefix(qs, actions, b, n - 1);
      BatchSteady(qs[n - 1], actions[n - 1]);
      assert qs[n - 1].batch[i] in qs[n - 1].batch;
    }
  }

  /** On every run: at the end of a handleTimeout each timer of its batch that repeats and was not cancelled during the
      batch is back in the queue, one interval after the `now` of the batch; every other one is deleted. */
  lemma RestartedExactly(qs: seq<Queue>, actions: seq<Action>, b: nat, e: nat, i: nat)
    requires IsRun(qs, actions) && e < |actions| && InBatchOf(actions, b, e) && actions[e].End?
    requires i < |qs[b + 1].batch|
    ensures var a := qs[b + 1].batch[i].addr;
            && a in qs[e].heap
            && var timer := qs[e].heap[a];
               var stopped := exists k {:trigger actions[k]} ::
                                b < k < e && actions[k] == Cancel(Active(a, timer.sequence));
               if timer.interval > 0 && !stopped
               then a in qs[e + 1].heap
                    && qs[e + 1].heap[a] == timer.(expiration := actions[b].now + timer.interval)
                    && Entry(actions[b].now + timer.interval, a) in qs[e + 1].timers
               else a !in qs[e + 1].heap
  {
    hide Core, FdInv, Next;
    RunKeepsInv(qs, actions, e);
    assert IsStep(qs[e], actions[e], qs[e + 1]);
    RunsArePrefix(qs, actions, b, e);
    BatchHasNow(qs, actions, b, e);
    EndFates(qs[e], i);
    var a := qs[e].batch[i].addr;
    var id := Active(a, qs[e].heap[a].sequence);
    MarkedExactly(qs, actions, b, e, id);
    forall k | b < k < e ensures id !in qs[k].active {
      BatchTimerStays(qs, actions, b, e, k, i);
    }
  }

  // ---- A one-shot timer runs once ----

  /** No timer has this sequence number, and none will. */
  ghost predicate Gone(q: Queue, s: int) {
    s <= q.counter && forall a :: a in q.heap ==> q.heap[a].sequence != s
  }

  /** No timer of r is new, and none has changed its number. */
  ghost predicate Shrunk(q: Queue, r: Queue) {
    forall a :: a in r.heap ==> a in q.heap && r.heap[a].sequence == q.heap[a].sequence
  }

  lemma {:induction false} ResetAllShrinks(q: Queue)
    requires BatchInHeap(q)
    ensures Shrunk(q, ResetAll(q)) && ResetAll(q).counter == q.counter
    ensures forall i :: 0 <= i < |q.batch| && q.heap[q.batch[i].addr].interval == 0 ==>
                          q.batch[i].addr !in ResetAll(q).heap
    decreases |q.batch|
  {
    if q.batch != [] {
      var r := ResetOne(q);
      ResetOneShrinks(q);
      ResetAllShrinks(r);
      forall i | 0 <= i < |q.batch| && q.heap[q.batch[i].addr].interval == 0
        ensures q.batch[i].addr !in ResetAll(q).heap
      {
        if i > 0 {
          assert r.batch[i - 1] == q.batch[i];
        }
      }
    }
  }

  lemma ResetOneShrinks(q: Queue)
    requires BatchInHeap(q) && q.batch != []
    ensures var r := ResetOne(q);
            && BatchInHeap(r) && Shrunk(q, r) && r.counter == q.counter && r.batch == q.batch[1..]
            && (forall i :: 0 < i < |q.batch| ==> r.heap[q.batch[i].addr] == q.heap[q.batch[i].addr])
            && (q.heap[q.batch[0].addr].interval == 0 ==> q.batch[0].addr !in r.heap)
  {
    assert forall i :: 0 <= i < |q.batch| - 1 ==> q.batch[1..][i] == q.batch[i + 1];
  }

  lemma StepKeepsGone(q: Queue, a: Action, s: int)
    requires Inv(q) && Enabled(q, a) && Gone(q, s)
    ensures Gone(Next(q, a), s)
  {
    hide Core, FdInv;
    if a.End? {
      EndShrinks(q);
    }
  }

  lemma EndShrinks(q: Queue)
    requires Inv(q) && Enabled(q, End)
    ensures Shrunk(q, Next(q, End)) && Next(q, End).counter == q.counter
    ensures forall i :: 0 <= i < |q.batch| ==> q.batch[i].addr in q.heap
    ensures forall i :: 0 <= i < |q.batch| && q.heap[q.batch[i].addr].interval == 0 ==>
                          q.batch[i].addr !in Next(q, End).heap
  {
    hide Core, FdInv, ResetAll, ResetOne;
    var q1 := q.(handling := false, next := 0);
    CoreIgnores(q, q1);
    CoreBatchInHeap(q1);
    ResetAllKeepsCore(q1);
    ResetAllShrinks(q1);
    EarliestInHeap(ResetAll(q1));
  }

  /** At the end of its batch a one-shot timer is gone. */
  lemma EndDeletes(q: Queue, i: nat)
    requires Inv(q) && Enabled(q, End) && i < |q.batch|
    requires q.batch[i].addr in q.heap && q.heap[q.batch[i].addr].interval == 0
    ensures Gone(Next(q, End), q.heap[q.batch[i].addr].sequence)
  {
    EndShrinks(q);
    SequencesDiffer(q);
  }

  lemma SequencesDiffer(q: Queue)
    requires Inv(q)
    ensures forall a, b :: a in q.heap && b in q.heap && q.heap[a].sequence == q.heap[b].sequence ==> a == b
    ensures forall a :: a in q.heap ==> q.heap[a].sequence <= q.counter
  {
  }

  /** What holds after step r has run a one-shot timer: its batch goes on behind it, or it is gone. */
  lemma {:induction false} AfterOneShot(qs: seq<Queue>, actions: seq<Action>, r: nat, n: nat)
    requires IsRun(qs, actions) && r < n <= |actions| && actions[r].RunNext?
    requires qs[r].next < |qs[r].batch| && qs[r].batch[qs[r].next].addr in qs[r].heap
    requires qs[r].heap[qs[r].batch[qs[r].next].addr].interval == 0
    ensures var a := qs[r].batch[qs[r].next].addr;
            || Gone(qs[n], RunBy(qs[r]))
            || (&& qs[n].handling && qs[n].batch == qs[r].batch && qs[n].next > qs[r].next
                && a in qs[n].heap && qs[n].heap[a] == qs[r].heap[a])
    decreases n
  {
    hide Core, FdInv, Next, Gone;
    RunKeepsInv(qs, actions, r);
    RunKeepsInv(qs, actions, n - 1);
    var q, a := qs[n - 1], actions[n - 1];
    assert IsStep(q, a, qs[n]);
    if r == n - 1 {
      BatchSteady(q, a);
      assert q.batch[q.next] in q.batch;
    } else {
      AfterOneShot(qs, actions, r, n - 1);
      if Gone(q, RunBy(qs[r])) {
        StepKeepsGone(q, a, RunBy(qs[r]));
      } else if a.End? {
        EndDeletes(q, qs[r].next);
      } else {
        BatchSteady(q, a);
        assert q.batch[qs[r].next] in q.batch;
      }
    }
  }

  /** On every run: a timer without an interval is run at most once. */
  lemma OneShotRunsOnce(qs: seq<Queue>, actions: seq<Action>, r: nat, n: nat)
    requires IsRun(qs, actions) && r < n < |actions| && actions[r].RunNext? && actions[n].RunNext?
    ensures qs[r].next < |qs[r].batch| && qs[r].batch[qs[r].next].addr in qs[r].heap
    ensures qs[n].next < |qs[n].batch| && qs[n].batch[qs[n].next].addr in qs[n].heap
    ensures qs[r].heap[qs[r].batch[qs[r].next].addr].interval == 0 ==> RunBy(qs[n]) != RunBy(qs[r])
  {
    hide Next;
    RunsAreDue(qs, actions, r);
    RunsAreDue(qs, actions, n);
    var e := qs[r].batch[qs[r].next];
    if qs[r].heap[e.addr].interval == 0 {
      AfterOneShot(qs, actions, r, n);
      RunKeepsInv(qs, actions, n);
      SequencesDiffer(qs[n]);
      CoreBatchInHeap(qs[n]);
    }
  }

  // ---- Outside the end of a batch ----

  /** A new timer has the expiration and the interval it was asked for, and the next sequence number. */
  lemma NewTimerIsAsAsked(q: Queue, addr: int, when: int, interval: nat)
    requires Inv(q) && Enabled(q, Alloc(addr, when, interval))
    ensures var r := Next(q, Alloc(addr, when, interval));
            && r.heap == q.heap[addr := Timer(when, interval, q.counter + 1)] && r.counter == q.counter + 1
            && r.timers == q.timers && r.active == q.active && addr in r.adding
  {
  }

  /** Adding puts it in both sets, and changes no timer. */
  lemma AddedIsQueued(q: Queue, a: int)
    requires Inv(q) && a in q.adding
    ensures a in q.heap
    ensures var r := Next(q, AddInLoop(a));
            && r.heap == q.heap && a !in r.adding
            && (forall e :: e in r.timers <==> e in q.timers || e == Entry(q.heap[a].expiration, a))
            && r.active == q.active + {Active(a, q.heap[a].sequence)}
  {
    AddInHeap(q, a);
    InsertSorted(q.timers, EntryOf(q, a));
  }

  /** Cancelling a timer that is in the sets deletes it, and no other; any other id only gets marked. */
  lemma CancelTakesOne(q: Queue, id: Active)
    requires Inv(q)
    ensures var r := Next(q, Cancel(id));
            if id in q.active then
              && r.heap == q.heap - {id.addr} && r.active == q.active - {id} && r.cancelled == q.cancelled
              && id.addr in q.heap
              && (forall e :: e in r.timers <==> e in q.timers && e != Entry(q.heap[id.addr].expiration, id.addr))
            else
              && r.heap == q.heap && r.active == q.active && r.timers == q.timers
              && r.cancelled == (if q.handling then q.cancelled + {id} else q.cancelled)
  {
    if id in q.active {
      EraseSorted(q.timers, EntryOf(q, id.addr));
    }
  }

  /** What a timerfd that is set now for a time will be: it fires then, or 100 us from now if that is later. */
  function ArmedFor(clock: int, when: int): Fd {
    Armed(if when >= clock + 100 then when else clock + 100, clock)
  }

  /** What each step does to the timerfd. Adding sets it if the timer is earlier than all others; the end of a batch
      sets it for the earliest timer, if there is one; the begin reads it; and it fires when its time comes. */
  lemma FdExactly(q: Queue, a: Action)
    requires Inv(q) && Enabled(q, a)
    ensures var r := Next(q, a);
            match a
            case AddInLoop(addr) =>
              && addr in q.heap
              && r.fd == (if q.timers == [] || q.heap[addr].expiration < q.timers[0].when
                          then ArmedFor(q.clock, q.heap[addr].expiration) else q.fd)
            case Begin(_) => r.fd == if q.fd.Fired? then Disarmed else q.fd
            case Tick(to) => r.clock == to && r.fd == if q.fd.Armed? && q.fd.at <= to then Fired else q.fd
            case End =>
              r.fd == if r.timers != [] && r.timers[0].when > 0 then ArmedFor(q.clock, r.timers[0].when) else q.fd
            case _ => r.fd == q.fd && r.clock == q.clock
  {
    hide Core;
    match a
    case AddInLoop(addr) => AddInHeap(q, addr);
    case End =>
      var q1 := q.(handling := false, next := 0);
      CoreIgnores(q, q1);
      CoreBatchInHeap(q1);
      ResetAllKeepsCore(q1);
      ResetAllKeepsLow(q1);
      EarliestInHeap(ResetAll(q1));
    case _ =>
  }

  // ---- The timerfd stays armed ----

  /** Outside handleTimeout, whenever timers are waiting, the timerfd has fired and is unread, or it fires no
      later than the earliest timer or 100 us after it was set. */
  lemma ArmedInTime(qs: seq<Queue>, actions: seq<Action>, n: nat)
    requires IsRun(qs, actions) && n < |qs| && !qs[n].handling && qs[n].timers != []
    ensures var q := qs[n];
            q.fd.Fired? || (q.fd.Armed? && (q.fd.at <= q.timers[0].when || q.fd.at <= q.fd.setAt + 100))
  {
    RunKeepsInv(qs, actions, n);
  }

  /** So 100 us after a timer was due and the timerfd was last set, the loop has been woken. */
  lemma DueTimerWakes(qs: seq<Queue>, actions: seq<Action>, n: nat)
    requires IsRun(qs, actions) && n < |qs| && !qs[n].handling && qs[n].timers != []
    requires qs[n].timers[0].when <= qs[n].clock
    requires qs[n].fd.Armed? ==> qs[n].fd.setAt + 100 <= qs[n].clock
    ensures qs[n].fd.Fired?
  {
    RunKeepsInv(qs, actions, n);
  }

  // ---- struct timespec ----

  const MICROS_PER_SECOND := 1_000_000

  datatype Timespec = Timespec(sec: int, nsec: int)

  function ToTimespec(microseconds: nat): Timespec {
    Timespec(microseconds / MICROS_PER_SECOND, microseconds % MICROS_PER_SECOND * 1000)
  }

  /** The interval given to timerfd_settime is exact, normalised and never zero, which would disarm the timer. */
  lemma TimespecIsExact(microseconds: int)
    ensures var t := ToTimespec(HowMuchTime(microseconds));
            && t.sec * 1_000_000_000 + t.nsec == HowMuchTime(microseconds) * 1000
            && t.sec >= 0 && 0 <= t.nsec < 1_000_000_000 && (t.sec > 0 || t.nsec > 0)
  {
  }

  // ---- The object ----

  /** A sequence of steps, each enabled after the ones before. */
  ghost predicate AllEnabled(q: Queue, actions: seq<Action>)
    decreases |actions|
  {
    Inv(q) && (actions != [] ==> Enabled(q, actions[0]) && AllEnabled(Next(q, actions[0]), actions[1..]))
  }

  ghost function Steps(q: Queue, actions: seq<Action>): Queue
    requires AllEnabled(q, actions)
    decreases |actions|
  {
    if actions == [] then q else Steps(Next(q, actions[0]), actions[1..])
  }

  lemma FirstStep(q: Queue, a: Action, rest: seq<Action>)
    requires AllEnabled(q, [a] + rest)
    ensures Inv(q) && Enabled(q, a) && AllEnabled(Next(q, a), rest)
    ensures Steps(q, [a] + rest) == Steps(Next(q, a), rest)
  {
    hide Inv, Next;
    assert ([a] + rest)[1..] == rest;
  }

  /** What a timer callback does to the queue; time passes meanwhile. */
  predicate InCallback(a: Action) {
    a.Alloc? || a.AddInLoop? || a.Cancel? || a.Tick?
  }

  /** The steps of a handleTimeout: each callback is run and then does what it does. */
  function CallbackSteps(callbacks: seq<seq<Action>>): seq<Action> {
    if callbacks == [] then [End] else [RunNext] + callbacks[0] + CallbackSteps(callbacks[1..])
  }

  class TimerQueue {
    var heap: map<int, Timer>
    var counter: int
    var timers: seq<Entry>
    var active: set<Active>
    var handling: bool
    var cancelled: set<Active>
    var fd: Fd
    var clock: int
    ghost var adding: set<int>
    ghost var batch: seq<Entry>
    ghost var next: nat
    ghost var batchNow: int
    ghost var ids: map<int, int>
    ghost var added: set<int>
    ghost var dead: set<int>
    ghost var deadAtBegin: set<int>

    ghost function Abs(): Queue
      reads this
    {
      Queue(heap, counter, adding, timers, active, handling, cancelled, batch, next, batchNow, fd, clock,
            ids, added, dead, deadAtBegin)
    }

    /** isHandlingTimeout_ starts false; the source leaves it uninitialised. */
    constructor (clock: int)
      requires clock >= 0
      ensures Abs() == Initial(clock) && Inv(Abs())
    {
      heap, counter, timers, active, handling, cancelled := map[], 0, [], {}, false, {};
      fd, this.clock := Disarmed, clock;
      adding, batch, next, batchNow, ids, added, dead, deadAtBegin := {}, [], 0, 0, map[], {}, {}, {};
    }

    /** The `new Timer` of `addTimer`, at any address that is not in use. */
    method NewTimer(addr: int, when: int, interval: nat)
      requires Inv(Abs()) && Enabled(Abs(), Alloc(addr, when, interval))
      modifies this`heap, this`counter, this`adding, this`ids
      ensures Abs() == Next(old(Abs()), Alloc(addr, when, interval)) && Inv(Abs())
    {
      StepKeepsInv(Abs(), Alloc(addr, when, interval));
      counter := counter + 1;
      heap := heap[addr := Timer(when, interval, counter)];
      adding, ids := adding + {addr}, ids[counter := addr];
    }

    method ArmTimerfd(when: int)
      modifies this`fd
      ensures Abs() == ResetTimerfd(old(Abs()), when)
    {
      fd := Armed(clock + HowMuchTime(when - clock), clock);
    }

    method InsertIntoSets(timer: int) returns (needResetTimerfd: bool)
      requires timer in heap
      modifies this`timers, this`active
      ensures Abs() == InsertTimer(old(Abs()), timer) && needResetTimerfd == EarliestChanged(old(Abs()), timer)
    {
      var when := heap[timer].expiration;
      needResetTimerfd := false;
      if timers == [] || when < timers[0].when {
        needResetTimerfd := true;
      }
      timers := Insert(timers, Entry(when, timer));
      active := active + {Active(timer, heap[timer].sequence)};
    }

    method AddTimerInLoop(timer: int)
      requires Inv(Abs()) && Enabled(Abs(), AddInLoop(timer))
      modifies this`timers, this`active, this`fd, this`adding, this`added
      ensures Abs() == Next(old(Abs()), AddInLoop(timer)) && Inv(Abs())
    {
      StepKeepsInv(Abs(), AddInLoop(timer));
      var earliestChanged := InsertIntoSets(timer);
      if earliestChanged {
        ArmTimerfd(heap[timer].expiration);
      }
      adding, added := adding - {timer}, added + {heap[timer].sequence};
    }

    /** Returns whether the assert on the insertion into cancelledTimers_ holds. */
    method CancelTimerInLoop(id: Active) returns (asserted: bool)
      requires Inv(Abs())
      modifies this`timers, this`active, this`heap, this`cancelled, this`dead
      ensures asserted == CancelAsserts(old(Abs()), id)
      ensures Abs() == CancelTimer(old(Abs()), id)
    {
      if IsAdded(Abs(), id) {
        dead := dead + {id.sequence};
      }
      asserted := true;
      if id in active {
        timers := Erase(timers, Entry(heap[id.addr].expiration, id.addr));
        active := active - {id};
        heap := heap - {id.addr};  // delete
      } else if handling {
        asserted := id !in cancelled;
        cancelled := cancelled + {id};
      }
    }

    method GetExpiredTimers(now: int) returns (expired: seq<Entry>)
      requires forall e :: e in timers ==> e.addr in heap
      modifies this`timers, this`active
      ensures expired == old(timers)[..CountLess(old(timers), Entry(now, ADDR_MAX))]
      ensures timers == old(timers)[|expired|..]
      ensures active == old(active) - Actives(heap, expired)
    {
      var n := CountLess(timers, Entry(now, ADDR_MAX));
      expired := timers[..n];
      timers := timers[n..];
      var i := 0;
      while i < |expired|
        invariant 0 <= i <= |expired| && timers == old(timers)[n..]
        invariant active == old(active) - Actives(heap, expired[..i])
      {
        var a := expired[i].addr;
        assert expired[i] in old(timers);
        assert expired[..i + 1] == expired[..i] + [expired[i]];
        assert Actives(heap, expired[..i + 1]) == Actives(heap, expired[..i]) + {Active(a, heap[a].sequence)};
        active := active - {Active(a, heap[a].sequence)};
        i := i + 1;
      }
      assert expired[..i] == expired;
    }

    /** The head of handleTimeout, up to the callbacks. */
    method TakeExpired(now: int) returns (expired: seq<Entry>)
      requires forall e :: e in timers ==> e.addr in heap
      modifies this`fd, this`timers, this`active, this`handling, this`cancelled
      modifies this`batch, this`next, this`batchNow, this`deadAtBegin
      ensures Abs() == BeginTimeout(old(Abs()), now)
      ensures expired == batch
    {
      hide CountLess, Actives, ReadTimerfd;
      ghost var n := CountLess(timers, Entry(now, ADDR_MAX));
      fd := ReadTimerfd(fd);
      expired := GetExpiredTimers(now);
      assert |expired| == n && expired == old(timers)[..n] && timers == old(timers)[n..];
      StartBatch(expired, now);
    }

    method StartBatch(expired: seq<Entry>, ghost now: int)
      modifies this`handling, this`cancelled, this`batch, this`next, this`batchNow, this`deadAtBegin
      ensures Abs() == old(Abs()).(handling := true, cancelled := {}, batch := expired, next := 0, batchNow := now,
                                   deadAtBegin := dead)
    {
      handling := true;
      cancelled := {};
      batch, next, batchNow, deadAtBegin := expired, 0, now, dead;
    }

    /** One turn of the loop in resetTimers: the timer goes back into the sets or is deleted. */
    method ResetOrDelete(timer: int, now: int)
      requires batch != [] && timer == batch[0].addr && timer in heap && batchNow == now
      modifies this`timers, this`active, this`heap, this`batch
      ensures Abs() == ResetOne(old(Abs()))
    {
      batch := batch[1..];
      if heap[timer].interval > 0 && Active(timer, heap[timer].sequence) !in cancelled {
        heap := heap[timer := heap[timer].(expiration := now + heap[timer].interval)];
        var _ := InsertIntoSets(timer);
      } else {
        heap := heap - {timer};
      }
    }

    method ResetTimers(expired: seq<Entry>, now: int)
      requires Core(Abs()) && BatchInHeap(Abs()) && batch == expired && batchNow == now && !handling
      modifies this`timers, this`active, this`heap, this`fd, this`batch
      ensures Core(ResetAll(old(Abs()))) && batch == []
      ensures ResetAll(old(Abs())).timers != [] ==> ResetAll(old(Abs())).timers[0].addr in ResetAll(old(Abs())).heap
      ensures Abs() == RearmEarliest(ResetAll(old(Abs())))
    {
      hide Core;
      ghost var q := Abs();
      var i := 0;
      while i < |expired|
        invariant 0 <= i <= |expired| && batch == expired[i..] && fd == q.fd
        invariant Core(Abs()) && BatchInHeap(Abs()) && ResetAll(Abs()) == ResetAll(q)
      {
        ghost var before := Abs();
        BatchHead(before);
        ResetOneKeepsCore(before);
        ResetOrDelete(expired[i].addr, now);
        CoreBatchInHeap(Abs());
        i := i + 1;
      }
      EarliestInHeap(Abs());
      if timers != [] {
        var newExpiration := heap[timers[0].addr].expiration;
        if newExpiration > 0 {
          ArmTimerfd(newExpiration);
        }
      }
    }

    method RunCallback(operations: seq<Action>, ghost more: seq<Action>)
      requires forall a :: a in operations ==> InCallback(a)
      requires AllEnabled(Abs(), operations + more)
      modifies this
      ensures AllEnabled(Abs(), more)
      ensures Steps(Abs(), more) == Steps(old(Abs()), operations + more)
      ensures batch == old(batch) && batchNow == old(batchNow) && handling == old(handling) && next == old(next)
    {
      hide Inv, Next, Enabled, AllEnabled, Steps;
      ghost var q := Abs();
      var i := 0;
      assert operations[0..] == operations;
      while i < |operations|
        invariant 0 <= i <= |operations|
        invariant AllEnabled(Abs(), operations[i..] + more)
        invariant Steps(Abs(), operations[i..] + more) == Steps(q, operations + more)
        invariant batch == q.batch && batchNow == q.batchNow && handling == q.handling && next == q.next
      {
        var a := operations[i];
        assert operations[i..] + more == [a] + (operations[i + 1..] + more);
        FirstStep(Abs(), a, operations[i + 1..] + more);
        Perform(a);
        i := i + 1;
      }
      assert operations[i..] + more == more;
    }

    method Perform(a: Action)
      requires InCallback(a) && Inv(Abs()) && Enabled(Abs(), a)
      modifies this
      ensures Inv(Abs()) && Abs() == Next(old(Abs()), a)
      ensures batch == old(batch) && batchNow == old(batchNow) && handling == old(handling) && next == old(next)
    {
      StepKeepsInv(Abs(), a);
      match a
      case Alloc(addr, when, interval) => NewTimer(addr, when, interval);
      case AddInLoop(addr) => AddTimerInLoop(addr);
      case Cancel(id) => var _ := CancelTimerInLoop(id);
      case Tick(to) =>
        clock := to;
        fd := if fd.Armed? && fd.at <= to then Fired else fd;
    }

    /** `callbacks` says what each callback of the batch does. */
    method HandleTimeout(now: int, callbacks: seq<seq<Action>>)
      requires Inv(Abs()) && Enabled(Abs(), Begin(now))
      requires |callbacks| == CountLess(timers, Entry(now, ADDR_MAX))
      requires forall c :: c in callbacks ==> forall a :: a in c ==> InCallback(a)
      requires AllEnabled(Abs(), [Begin(now)] + CallbackSteps(callbacks))
      modifies this
      ensures Abs() == Steps(old(Abs()), [Begin(now)] + CallbackSteps(callbacks))
    {
      hide Inv, Next;
      ghost var q := Abs();
      ghost var script := [Begin(now)] + CallbackSteps(callbacks);
      assert script[1..] == CallbackSteps(callbacks);
      BeginFields(q, now);
      var expired := TakeExpired(now);
      assert callbacks[0..] == callbacks;
      var i := 0;
      while i < |expired|
        invariant 0 <= i <= |expired|
        invariant AllEnabled(Abs(), CallbackSteps(callbacks[i..]))
        invariant Steps(Abs(), CallbackSteps(callbacks[i..])) == Steps(q, script)
        invariant batch == expired && batchNow == now && handling && next == i
      {
        ghost var tail := callbacks[i] + CallbackSteps(callbacks[i + 1..]);
        assert callbacks[i..][0] == callbacks[i] && callbacks[i..][1..] == callbacks[i + 1..];
        assert CallbackSteps(callbacks[i..]) == [RunNext] + tail && ([RunNext] + tail)[1..] == tail;
        assert callbacks[i] in callbacks;
        CountCallback();
        RunCallback(callbacks[i], CallbackSteps(callbacks[i + 1..]));
        i := i + 1;
      }
      assert CallbackSteps(callbacks[i..]) == [End] && [End][1..] == [];
      FinishTimeout(expired, now);
    }

    /** The call `it->second->run()` itself; what the callback does comes after. */
    ghost method CountCallback()
      requires Inv(Abs()) && Enabled(Abs(), RunNext)
      modifies this`next
      ensures Abs() == Next(old(Abs()), RunNext) && next == old(next) + 1
    {
      next := next + 1;
    }

    /** The tail of handleTimeout, after the callbacks. */
    method FinishTimeout(expired: seq<Entry>, now: int)
      requires Inv(Abs()) && Enabled(Abs(), End) && batch == expired && batchNow == now
      modifies this
      ensures Abs() == Next(old(Abs()), End)
    {
      ghost var last := Abs();
      handling := false;
      next := 0;
      CoreIgnores(last, Abs());
      CoreBatchInHeap(Abs());
      ResetTimers(expired, now);
    }
  }

  lemma BeginFields(q: Queue, now: int)
    requires Inv(q) && Enabled(q, Begin(now))
    ensures forall e :: e in q.timers ==> e.addr in q.heap
    ensures Next(q, Begin(now)) == BeginTimeout(q, now)
  {
    TimersInHeap(q);
  }
}
