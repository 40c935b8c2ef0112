/**
 The timing wheel of arale/examples/idleconnection: a circular buffer of `idleSeconds` buckets of
 shared pointers to `Entry` objects. Activity adds a pointer in the newest bucket, each tick drops the
 oldest bucket, and the destructor of an `Entry` whose last pointer is gone shuts its connection down.
 The wheel is proved against a clock that only knows when each connection was last active.
 */
module IdleWheel {
  type Conn = nat  // a connection and its one Entry

  /** What the server sees. A tick names the connections whose objects still exist at that moment. */
  datatype Event = Connect(conn: Conn) | Message(conn: Conn) | Tick(existing: set<Conn>)

  // ---- The clock ----

  predicate Seen(events: seq<Event>, c: Conn) {
    Connect(c) in events
  }

  /** The ticks since the last activity of c. */
  function Quiet(events: seq<Event>, c: Conn): nat {
    if events == [] then 0
    else
      var last := events[|events| - 1];
      if last.Tick? then 1 + Quiet(events[..|events| - 1], c)
      else if last.conn == c then 0
      else Quiet(events[..|events| - 1], c)
  }

  /** At this moment c has been idle for too long. */
  predicate Overdue(idle: nat, events: seq<Event>, c: Conn) {
    Seen(events, c) && Quiet(events, c) >= idle
  }

  /** At some moment of the history c had been idle for too long. */
  ghost predicate Expired(idle: nat, events: seq<Event>, c: Conn) {
    exists k :: 0 <= k <= |events| && Overdue(idle, events[..k], c)
  }

  lemma ExpiredStep(idle: nat, events: seq<Event>, e: Event, c: Conn)
    ensures Expired(idle, events + [e], c) <==> Expired(idle, events, c) || Overdue(idle, events + [e], c)
  {
    hide Overdue;
    var all := events + [e];
    assert all[..|all|] == all;
    assert forall k :: 0 <= k <= |events| ==> all[..k] == events[..k];
  }

  lemma QuietStep(events: seq<Event>, e: Event, c: Conn)
    ensures Quiet(events + [e], c) ==
            if e.Tick? then Quiet(events, c) + 1 else if e.conn == c then 0 else Quiet(events, c)
    ensures Seen(events + [e], c) <==> Seen(events, c) || e == Connect(c)
  {
    assert (events + [e])[..|events|] == events;
  }

  /** Nothing brings an expired entry back. */
  lemma ExpiredForGood(idle: nat, events: seq<Event>, more: seq<Event>, c: Conn)
    requires Expired(idle, events, c)
    ensures Expired(idle, events + more, c)
  {
    var k :| 0 <= k <= |events| && Overdue(idle, events[..k], c);
    assert (events + more)[..k] == events[..k];
  }

  /** The event that makes an entry expire: it was not expired before event k and is after it. */
  ghost predicate ExpiresAt(idle: nat, events: seq<Event>, c: Conn, k: nat) {
    k < |events| && !Expired(idle, events[..k], c) && Expired(idle, events[..k + 1], c)
  }

  /** For every history an expired entry expired exactly once, and this at the tick that completed `idle` ticks
      without activity. */
  lemma ExpiresOnce(idle: nat, events: seq<Event>, c: Conn)
    requires idle > 0
    ensures Expired(idle, events, c) <==> exists k: nat :: ExpiresAt(idle, events, c, k)
    ensures forall j: nat, k: nat :: ExpiresAt(idle, events, c, j) && ExpiresAt(idle, events, c, k) ==> j == k
    ensures forall k: nat :: ExpiresAt(idle, events, c, k) ==>
              events[k].Tick? && Quiet(events[..k], c) == idle - 1 && Quiet(events[..k + 1], c) == idle
  {
    hide Overdue, Expired;
    forall k: nat | ExpiresAt(idle, events, c, k)
      ensures Expired(idle, events, c) && events[k].Tick?
      ensures Quiet(events[..k], c) == idle - 1 && Quiet(events[..k + 1], c) == idle
    {
      Completes(idle, events, c, k);
    }
    forall j: nat, k: nat | ExpiresAt(idle, events, c, j) && ExpiresAt(idle, events, c, k) ensures j == k {
      if j < k {
        Later(idle, events, c, j + 1, k);
      } else if k < j {
        Later(idle, events, c, k + 1, j);
      }
    }
    if Expired(idle, events, c) {
      FirstExpiry(idle, events, c);
    }
  }

  lemma Later(idle: nat, events: seq<Event>, c: Conn, j: nat, k: nat)
    requires j <= k <= |events| && Expired(idle, events[..j], c)
    ensures Expired(idle, events[..k], c)
  {
    ExpiredForGood(idle, events[..j], events[j..k], c);
    assert events[..j] + events[j..k] == events[..k];
  }

  lemma Completes(idle: nat, events: seq<Event>, c: Conn, k: nat)
    requires idle > 0 && ExpiresAt(idle, events, c, k)
    ensures Expired(idle, events, c) && events[k].Tick?
    ensures Quiet(events[..k], c) == idle - 1 && Quiet(events[..k + 1], c) == idle
  {
    hide Expired;
    assert events[..k + 1] == events[..k] + [events[k]];
    ExpiredStep(idle, events[..k], events[k], c);
    QuietStep(events[..k], events[k], c);
    SeenNow(idle, events[..k], c);
    Later(idle, events, c, k + 1, |events|);
    assert events[..|events|] == events;
  }

  lemma SeenNow(idle: nat, events: seq<Event>, c: Conn)
    requires !Expired(idle, events, c)
    ensures !Overdue(idle, events, c)
  {
    assert events[..|events|] == events;
  }

  lemma {:induction false} FirstExpiry(idle: nat, events: seq<Event>, c: Conn)
    requires idle > 0 && Expired(idle, events, c)
    ensures exists k: nat :: ExpiresAt(idle, events, c, k)
    decreases |events|
  {
    assert events != [];
    var before := events[..|events| - 1];
    if Expired(idle, before, c) {
      FirstExpiry(idle, before, c);
      var k: nat :| ExpiresAt(idle, before, c, k);
      assert before[..k] == events[..k] && before[..k + 1] == events[..k + 1];
      assert ExpiresAt(idle, events, c, k);
    } else {
      assert events[..|events|] == events;
      assert ExpiresAt(idle, events, c, |events| - 1);
    }
  }

  // ---- The clock, counted ----

  function Ticks(events: seq<Event>): nat {
    if events == [] then 0
    else Ticks(events[..|events| - 1]) + (if events[|events| - 1].Tick? then 1 else 0)
  }

  predicate NoActivity(events: seq<Event>, c: Conn) {
    forall i :: 0 <= i < |events| ==> events[i].Tick? || events[i].conn != c
  }

  /** After an activity of an alive (or new) connection, and as long as it has no other, its entry is alive exactly
      while fewer than `idle` ticks have passed. */
  lemma {:induction false} AliveExactly(idle: nat, events: seq<Event>, e: Event, more: seq<Event>)
    requires idle > 0
    requires (e.Connect? && !Seen(events, e.conn)) || (e.Message? && Alive(idle, events, e.conn))
    requires NoActivity(more, e.conn)
    ensures Alive(idle, events + [e] + more, e.conn) <==> Ticks(more) < idle
    ensures Alive(idle, events + [e] + more, e.conn) ==> Quiet(events + [e] + more, e.conn) == Ticks(more)
    decreases |more|
  {
    hide Alive, Quiet, Seen;
    var c := e.conn;
    if more == [] {
      assert events + [e] + more == events + [e];
      AliveStep(idle, events, e, c);
      QuietStep(events, e, c);
      SeenOnceAlive(idle, events, c);
    } else {
      var before, last := more[..|more| - 1], more[|more| - 1];
      AliveExactly(idle, events, e, before);
      var all := events + [e] + before;
      assert events + [e] + more == all + [last];
      assert last in more;
      QuietStep(all, last, c);
      AliveStep(idle, all, last, c);
    }
  }

  lemma SeenOnceAlive(idle: nat, events: seq<Event>, c: Conn)
    ensures Alive(idle, events, c) ==> Seen(events, c)
  {
  }

  // ---- Reference counts ----

  /** How many buckets hold a pointer to the entry of c. */
  function Count(buckets: seq<set<Conn>>, c: Conn): nat {
    if buckets == [] then 0 else (if c in buckets[0] then 1 else 0) + Count(buckets[1..], c)
  }

  lemma {:induction false} CountConcat(a: seq<set<Conn>>, b: seq<set<Conn>>, c: Conn)
    ensures Count(a + b, c) == Count(a, c) + Count(b, c)
  {
    if a == [] {
      assert a + b == b;
    } else {
      assert (a + b)[1..] == a[1..] + b;
      CountConcat(a[1..], b, c);
    }
  }

  lemma {:induction false} CountPositive(buckets: seq<set<Conn>>, c: Conn)
    ensures Count(buckets, c) > 0 <==> exists i :: 0 <= i < |buckets| && c in buckets[i]
  {
    if buckets != [] {
      CountPositive(buckets[1..], c);
      assert forall i :: 0 < i < |buckets| ==> buckets[i] == buckets[1..][i - 1];
      assert forall i :: 0 <= i < |buckets| - 1 ==> buckets[1..][i] == buckets[i + 1];
    }
  }

  lemma CountRotate(buckets: seq<set<Conn>>, c: Conn)
    requires buckets != []
    ensures Count(buckets[1..] + [{}], c) == Count(buckets, c) - (if c in buckets[0] then 1 else 0)
  {
    CountConcat(buckets[1..], [{}], c);
  }

  /** `connections_.back().insert(entry)`. */
  function InsertBack(buckets: seq<set<Conn>>, c: Conn): seq<set<Conn>>
    requires buckets != []
  {
    buckets[|buckets| - 1 := buckets[|buckets| - 1] + {c}]
  }

  lemma CountInsert(buckets: seq<set<Conn>>, c: Conn, d: Conn)
    requires buckets != []
    ensures Count(InsertBack(buckets, c), d) ==
            Count(buckets, d) + (if d == c && c !in buckets[|buckets| - 1] then 1 else 0)
  {
    var n := |buckets| - 1;
    assert buckets == buckets[..n] + [buckets[n]];
    assert InsertBack(buckets, c) == buckets[..n] + [buckets[n] + {c}];
    CountConcat(buckets[..n], [buckets[n]], d);
    CountConcat(buckets[..n], [buckets[n] + {c}], d);
  }

  // ---- The wheel against the clock ----

  ghost predicate Alive(idle: nat, events: seq<Event>, c: Conn) {
    Seen(events, c) && !Expired(idle, events, c)
  }

  /** The newest bucket that holds an alive entry is as far from the back as its last activity is ago, and no bucket
      holds an entry that is not alive. */
  ghost predicate Refines(buckets: seq<set<Conn>>, events: seq<Event>) {
    && (forall c, i :: 0 <= i < |buckets| && c in buckets[i] ==> Alive(|buckets|, events, c))
    && (forall c :: Alive(|buckets|, events, c) ==> NewestAt(buckets, c, |buckets| - 1 - Quiet(events, c)))
  }

  predicate NewestAt(buckets: seq<set<Conn>>, c: Conn, at: int) {
    0 <= at < |buckets| && c in buckets[at] && forall i :: at < i < |buckets| ==> c !in buckets[i]
  }

  lemma AliveStep(idle: nat, events: seq<Event>, e: Event, c: Conn)
    requires idle > 0
    ensures Alive(idle, events + [e], c) <==>
            if e == Connect(c) && !Seen(events, c) then true
            else Alive(idle, events, c) && (e.Tick? ==> Quiet(events, c) + 1 < idle)
    ensures Alive(idle, events, c) ==> Quiet(events, c) < idle
  {
    hide Expired;
    ExpiredStep(idle, events, e, c);
    QuietStep(events, e, c);
    if !Expired(idle, events, c) {
      SeenNow(idle, events, c);
    }
    if !Seen(events, c) {
      NeverSeen(idle, events, c);
    }
  }

  lemma NeverSeen(idle: nat, events: seq<Event>, c: Conn)
    requires !Seen(events, c)
    ensures !Expired(idle, events, c)
  {
  }

  lemma ActivityRefines(buckets: seq<set<Conn>>, events: seq<Event>, e: Event)
    requires buckets != [] && Refines(buckets, events)
    requires (e.Connect? && !Seen(events, e.conn)) || (e.Message? && Alive(|buckets|, events, e.conn))
    ensures Refines(InsertBack(buckets, e.conn), events + [e])
  {
    hide Alive, Quiet, Seen;
    var after := InsertBack(buckets, e.conn);
    forall c
      ensures Alive(|buckets|, events + [e], c) <==> c == e.conn || Alive(|buckets|, events, c)
      ensures Quiet(events + [e], c) == if c == e.conn then 0 else Quiet(events, c)
    {
      AliveStep(|buckets|, events, e, c);
      QuietStep(events, e, c);
    }
    forall c | Alive(|buckets|, events + [e], c)
      ensures NewestAt(after, c, |buckets| - 1 - Quiet(events + [e], c))
    {
      assert c != e.conn ==> NewestAt(buckets, c, |buckets| - 1 - Quiet(events, c));
    }
  }

  lemma LateMessageRefines(buckets: seq<set<Conn>>, events: seq<Event>, c: Conn)
    requires buckets != [] && Refines(buckets, events) && !Alive(|buckets|, events, c)
    ensures Refines(buckets, events + [Message(c)])
  {
    hide Alive, Quiet, Seen;
    var e := Message(c);
    forall d
      ensures Alive(|buckets|, events + [e], d) <==> Alive(|buckets|, events, d)
      ensures d != c ==> Quiet(events + [e], d) == Quiet(events, d)
    {
      AliveStep(|buckets|, events, e, d);
      QuietStep(events, e, d);
    }
  }

  lemma TickRefines(buckets: seq<set<Conn>>, events: seq<Event>, existing: set<Conn>)
    requires buckets != [] && Refines(buckets, events)
    ensures Refines(buckets[1..] + [{}], events + [Tick(existing)])
  {
    hide Alive, Quiet, Seen;
    var e := Tick(existing);
    var n := |buckets|;
    var after := buckets[1..] + [{}];
    forall c
      ensures Alive(n, events + [e], c) <==> Alive(n, events, c) && Quiet(events, c) + 1 < n
      ensures Quiet(events + [e], c) == Quiet(events, c) + 1
    {
      AliveStep(n, events, e, c);
      QuietStep(events, e, c);
    }
    forall c, i | 0 <= i < n && c in after[i] ensures Alive(n, events + [e], c) {
      assert c in buckets[i + 1];
      assert NewestAt(buckets, c, n - 1 - Quiet(events, c));
    }
    forall c | Alive(n, events + [e], c) ensures NewestAt(after, c, n - 1 - Quiet(events + [e], c)) {
      assert NewestAt(buckets, c, n - 1 - Quiet(events, c));
      assert forall i :: 0 <= i < n - 1 ==> after[i] == buckets[i + 1];
    }
  }

  /** The reference count of an entry is positive exactly while the clock has it alive. */
  lemma CountedIsAlive(buckets: seq<set<Conn>>, events: seq<Event>, c: Conn)
    requires Refines(buckets, events)
    ensures Count(buckets, c) > 0 <==> Alive(|buckets|, events, c)
  {
    hide Alive;
    CountPositive(buckets, c);
    if Alive(|buckets|, events, c) {
      assert NewestAt(buckets, c, |buckets| - 1 - Quiet(events, c));
    }
  }

  class EchoServer {
    const idleSeconds: nat
    var connections: seq<set<Conn>>  // connections_, oldest bucket first
    var useCount: map<Conn, nat>     // the Entry objects and their reference counts
    var context: set<Conn>           // connections whose context holds a weak pointer to their Entry
    ghost var events: seq<Event>     // history

    ghost predicate Valid()
      reads this
    {
      && idleSeconds > 0 && |connections| == idleSeconds
      && Refines(connections, events)
      && (forall c :: c in context <==> Seen(events, c))
      && (forall c :: c in useCount <==> Count(connections, c) > 0)
      && (forall c :: c in useCount ==> useCount[c] == Count(connections, c))
    }

    /** An Entry exists exactly while its connection has not been idle for idleSeconds ticks. */
    lemma EntryIsAlive(c: Conn)
      requires Valid()
      ensures c in useCount <==> Seen(events, c) && !Expired(idleSeconds, events, c)
    {
      CountedIsAlive(connections, events, c);
    }

    constructor (idleSeconds: nat)
      requires idleSeconds > 0
      ensures Valid() && events == [] && this.idleSeconds == idleSeconds
    {
      this.idleSeconds := idleSeconds;
      connections := seq(idleSeconds, _ => {});
      useCount, context, events := map[], {}, [];
      new;
      forall c ensures Count(connections, c) == 0 {
        CountPositive(connections, c);
      }
      assert forall c :: !Seen([], c);
    }

    /** Adds a pointer to the newest bucket; a set keeps one pointer to each entry. */
    method Insert(c: Conn, ghost e: Event)
      requires Valid() && e == if c in context then Message(c) else Connect(c)
      requires c in context ==> c in useCount
      modifies this`connections, this`useCount, this`context, this`events
      ensures Valid() && events == old(events) + [e]
      ensures context == old(context) + {c} && c in useCount
      ensures useCount.Keys == old(useCount.Keys) + {c} && connections == InsertBack(old(connections), c)
    {
      var n := |connections| - 1;
      if c !in connections[n] {
        useCount := useCount[c := if c in useCount then useCount[c] + 1 else 1];
      }
      forall d ensures Count(InsertBack(connections, c), d) ==
                       Count(connections, d) + (if d == c && c !in connections[n] then 1 else 0)
      {
        CountInsert(connections, c, d);
        QuietStep(events, e, d);
      }
      CountedIsAlive(connections, events, c);
      ActivityRefines(connections, events, e);
      connections := InsertBack(connections, c);
      context := context + {c};
      events := events + [e];
    }

    method OnConnection(c: Conn, up: bool)
      requires Valid()
      requires up <==> c !in context  // a connection comes up once, then goes down
      modifies this`connections, this`useCount, this`context, this`events
      ensures Valid()
      ensures events == if up then old(events) + [Connect(c)] else old(events)
      ensures connections == if up then InsertBack(old(connections), c) else old(connections)
    {
      if up {
        CountedIsAlive(connections, events, c);
        Insert(c, Connect(c));
      }
    }

    /** Activity counts as long as the entry is alive; a message that is too late changes nothing. */
    method OnMessage(c: Conn)
      requires Valid()
      requires c in context  // assert(!conn->getContext().empty())
      modifies this`connections, this`useCount, this`context, this`events
      ensures Valid() && events == old(events) + [Message(c)]
      ensures c in useCount <==> c in old(useCount)
      ensures connections == if c in old(useCount) then InsertBack(old(connections), c) else old(connections)
    {
      ghost var before := events;
      AliveStep(idleSeconds, events, Message(c), c);
      CountedIsAlive(connections, events, c);
      if c in useCount {
        Insert(c, Message(c));
      } else {
        LateMessageRefines(connections, events, c);
        forall d ensures Seen(events + [Message(c)], d) == Seen(events, d) {
          QuietStep(events, Message(c), d);
        }
        events := events + [Message(c)];
      }
      CountedIsAlive(connections, events, c);
    }

    /** Destroys the oldest bucket, pointer by pointer; the destructor of an Entry shuts down its connection if that
        still exists. */
    method DropBucket(front: set<Conn>, existing: set<Conn>) returns (shut: set<Conn>)
      requires front <= useCount.Keys && forall c :: c in useCount ==> useCount[c] > 0
      modifies this`useCount
      ensures forall c :: c in useCount <==> c in old(useCount) && !(c in front && old(useCount[c]) == 1)
      ensures forall c :: c in useCount ==> useCount[c] == old(useCount[c]) as int - (if c in front then 1 else 0)
      ensures shut == set c | c in front && c in existing && old(useCount[c]) == 1
    {
      var rest := front;
      shut := {};
      while rest != {}
        invariant rest <= front && rest <= useCount.Keys && forall c :: c in useCount ==> useCount[c] > 0
        invariant forall c :: c in useCount <==> c in old(useCount) && !(c in front - rest && old(useCount[c]) == 1)
        invariant forall c :: c in useCount ==>
                    useCount[c] == old(useCount[c]) as int - (if c in front - rest then 1 else 0)
        invariant shut == set c | c in front - rest && c in existing && old(useCount[c]) == 1
      {
        var c :| c in rest;
        rest := rest - {c};
        if useCount[c] == 1 {
          useCount := useCount - {c};
          if c in existing {
            shut := shut + {c};
          }
        } else {
          useCount := useCount[c := useCount[c] - 1];
        }
      }
    }

    /** A tick shuts down exactly the connections whose entries expire at this tick and that still exist. */
    method OnTimer(existing: set<Conn>) returns (shut: set<Conn>)
      requires Valid()
      modifies this`connections, this`useCount, this`events
      ensures Valid() && events == old(events) + [Tick(existing)]
      ensures connections == old(connections)[1..] + [{}]
      ensures forall c :: c in shut <==> c in existing && c in old(useCount) && c !in useCount
      ensures forall c :: c in shut <==>
                c in existing && ExpiresAt(idleSeconds, events, c, |old(events)|)
    {
      ghost var was := events;
      ghost var e := Tick(existing);
      var front := connections[0];
      forall c
        ensures Count(connections[1..] + [{}], c) == Count(connections, c) - (if c in front then 1 else 0)
        ensures Seen(was + [e], c) == Seen(was, c)
        ensures c in useCount <==> Alive(idleSeconds, was, c)
        ensures Count(connections[1..] + [{}], c) > 0 <==> Alive(idleSeconds, was + [e], c)
      {
        CountRotate(connections, c);
        QuietStep(was, e, c);
        CountedIsAlive(connections, was, c);
        TickRefines(connections, was, existing);
        CountedIsAlive(connections[1..] + [{}], was + [e], c);
      }
      TickRefines(connections, was, existing);
      assert front <= useCount.Keys;
      connections := connections[1..] + [{}];
      events := was + [e];
      shut := DropBucket(front, existing);
      forall c ensures ExpiresAt(idleSeconds, events, c, |was|) <==>
                       Alive(idleSeconds, was, c) && !Alive(idleSeconds, events, c)
      {
        assert events[..|was|] == was && events[..|was| + 1] == events;
        if !Seen(was, c) {
          NeverSeen(idleSeconds, events, c);
        }
      }
    }
  }
}
