/**
 The shared connection list of arale/examples/asio/chat/ChatServerThreadedEfficient.cc: writers
 change it under a lock, copying it first when somebody else holds a reference; readers take a
 reference under the lock and iterate and release it without the lock. The reference counts and
 the life time of the lists are part of the state.
 */
module ChatServer {
  type Conn = nat     // connections
  type ListId = nat   // addresses of connection lists
  type Reader = nat   // message deliveries in progress

  datatype Change = Change(conn: Conn, up: bool)

  /** `insert` or `erase`. */
  function Apply(list: set<Conn>, c: Change): set<Conn> {
    if c.up then list + {c.conn} else list - {c.conn}
  }

  /** The connections that are up after these changes. */
  function Fold(changes: seq<Change>): set<Conn> {
    if changes == [] then {} else Apply(Fold(changes[..|changes| - 1]), changes[|changes| - 1])
  }

  /** Where the writer that holds the lock stands in `onConnection`. */
  datatype Lock =
    | Free
    | Entered(change: Change)
    | Checked(change: Change, unique: bool)  // has evaluated connections_.unique()
    | Ready(change: Change)                  // past the copy

  /** A reader's reference, and how many changes had been made when it was taken. */
  datatype Held = Held(list: ListId, at: nat)

  datatype State = State(
    lists: map<ListId, set<Conn>>,  // allocated lists
    refs: map<ListId, nat>,         // their reference counts
    current: ListId,                // connections_
    lock: Lock,
    readers: map<Reader, Held>,
    changes: seq<Change>)           // history: the completed onConnection calls

  datatype Action =
    | Enter(change: Change) | Check | Copy(address: ListId) | SkipCopy | Modify
    | Acquire(r: Reader) | Release(r: Reader)

  predicate Enabled(s: State, a: Action) {
    match a
    case Enter(_) => s.lock.Free?
    case Check => s.lock.Entered? && s.current in s.refs
    case Copy(n) =>
      && s.lock.Checked? && !s.lock.unique && n !in s.lists
      && s.current in s.lists && s.current in s.refs && s.refs[s.current] > 0
    case SkipCopy => s.lock.Checked? && s.lock.unique
    case Modify => s.lock.Ready? && s.current in s.lists
    case Acquire(r) => s.lock.Free? && r !in s.readers && s.current in s.refs
    case Release(r) => r in s.readers && s.readers[r].list in s.refs && s.refs[s.readers[r].list] > 0
  }

  /** Drops one reference; the last one frees the list. */
  function Drop(s: State, l: ListId): State
    requires l in s.refs && s.refs[l] > 0
  {
    if s.refs[l] == 1 then s.(lists := s.lists - {l}, refs := s.refs - {l})
    else s.(refs := s.refs[l := s.refs[l] - 1])
  }

  function Next(s: State, a: Action): State
    requires Enabled(s, a)
  {
    match a
    case Enter(c) => s.(lock := Entered(c))
    case Check => s.(lock := Checked(s.lock.change, s.refs[s.current] == 1))
    case Copy(n) =>
      Drop(s, s.current).(lists := Drop(s, s.current).lists[n := s.lists[s.current]],
                          refs := Drop(s, s.current).refs[n := 1], current := n, lock := Ready(s.lock.change))
    case SkipCopy => s.(lock := Ready(s.lock.change))
    case Modify =>
      s.(lists := s.lists[s.current := Apply(s.lists[s.current], s.lock.change)],
         changes := s.changes + [s.lock.change], lock := Free)
    case Acquire(r) =>
      s.(readers := s.readers[r := Held(s.current, |s.changes|)], refs := s.refs[s.current := s.refs[s.current] + 1])
    case Release(r) =>
      Drop(s, s.readers[r].list).(readers := s.readers - {r})
  }

  function Initial(l: ListId): State {
    State(map[l := {}], map[l := 1], l, Free, map[], [])
  }

  // ---- Invariant ----

  function Holders(s: State, l: ListId): set<Reader> {
    set r | r in s.readers && s.readers[r].list == l
  }

  /** The reference counts count the references. */
  predicate CountsInv(s: State) {
    && s.lists.Keys == s.refs.Keys && s.current in s.refs
    && (forall l :: l in s.refs ==> s.refs[l] > 0 && s.refs[l] == |Holders(s, l)| + (if l == s.current then 1 else 0))
    && (forall r :: r in s.readers ==> s.readers[r].list in s.refs)
  }

  /** Nobody else holds the list that a writer is about to change. */
  predicate LockInv(s: State) {
    s.lock.Ready? || (s.lock.Checked? && s.lock.unique) ==> Holders(s, s.current) == {}
  }

  predicate ContentInv(s: State) {
    && s.current in s.lists && s.lists[s.current] == Fold(s.changes)
    && (forall r :: r in s.readers ==>
          && s.readers[r].at <= |s.changes| && s.readers[r].list in s.lists
          && s.lists[s.readers[r].list] == Fold(s.changes[..s.readers[r].at]))
  }

  predicate Inv(s: State) {
    CountsInv(s) && LockInv(s) && ContentInv(s)
  }

  lemma InitialInv(l: ListId)
    ensures Inv(Initial(l))
  {
    assert Holders(Initial(l), l) == {};
  }

  lemma CurrentCounted(s: State)
    requires Inv(s)
    ensures s.refs[s.current] == 1 <==> Holders(s, s.current) == {}
  {
  }

  lemma AcquireCounts(s: State, r: Reader)
    requires CountsInv(s) && Enabled(s, Acquire(r))
    ensures CountsInv(Next(s, Acquire(r)))
  {
    hide Fold;
    var n := Next(s, Acquire(r));
    assert Holders(n, s.current) == Holders(s, s.current) + {r};
    forall l | l in n.refs ensures n.refs[l] > 0 && n.refs[l] == |Holders(n, l)| + (if l == n.current then 1 else 0) {
      assert l != s.current ==> Holders(n, l) == Holders(s, l);
    }
  }

  lemma AcquireContent(s: State, r: Reader)
    requires ContentInv(s) && Enabled(s, Acquire(r))
    ensures ContentInv(Next(s, Acquire(r)))
  {
    hide Fold;
    assert s.changes[..|s.changes|] == s.changes;
  }

  /** The last reader of a list leaves nobody behind. */
  lemma ReleaseHolders(s: State, r: Reader)
    requires CountsInv(s) && Enabled(s, Release(r))
    ensures var l := s.readers[r].list; var n := Next(s, Release(r));
            && Holders(n, l) == Holders(s, l) - {r}
            && |Holders(n, l)| == |Holders(s, l)| - 1
            && (s.refs[l] == 1 ==> Holders(n, l) == {} && l != s.current)
    ensures var n := Next(s, Release(r));
            forall k :: k != s.readers[r].list ==> Holders(n, k) == Holders(s, k)
  {
    hide Fold;
    var l := s.readers[r].list;
    var n := Next(s, Release(r));
    assert r in Holders(s, l);
    assert Holders(n, l) == Holders(s, l) - {r};
    assert s.refs[l] == 1 ==> |Holders(n, l)| == 0;
  }

  lemma ReleaseCounts(s: State, r: Reader)
    requires CountsInv(s) && Enabled(s, Release(r))
    ensures CountsInv(Next(s, Release(r)))
  {
    hide Fold, Holders;
    var l := s.readers[r].list;
    var n := Next(s, Release(r));
    ReleaseHolders(s, r);
    forall q | q in n.readers ensures n.readers[q].list in n.refs {
      assert n.readers[q] == s.readers[q];
      ReaderHolds(n, q);
    }
    forall k | k in n.refs ensures n.refs[k] > 0 && n.refs[k] == |Holders(n, k)| + (if k == n.current then 1 else 0) {
      assert k != l ==> Holders(n, k) == Holders(s, k);
    }
  }

  lemma ReaderHolds(s: State, r: Reader)
    requires r in s.readers
    ensures r in Holders(s, s.readers[r].list)
  {
  }

  lemma ReleaseContent(s: State, r: Reader)
    requires CountsInv(s) && ContentInv(s) && Enabled(s, Release(r))
    ensures ContentInv(Next(s, Release(r)))
  {
    hide Fold;
    var l := s.readers[r].list;
    var n := Next(s, Release(r));
    ReleaseHolders(s, r);
    var left := Holders(n, l);
    forall q | q in n.readers
      ensures n.readers[q].list in n.lists && n.lists[n.readers[q].list] == s.lists[s.readers[q].list]
    {
      assert n.readers[q] == s.readers[q];
      assert n.readers[q].list == l ==> q in left;
    }
  }

  /** If the writer's own reference is the only one left when it copies, the old list is freed. */
  lemma CopyCounts(s: State, f: ListId)
    requires CountsInv(s) && Enabled(s, Copy(f))
    ensures CountsInv(Next(s, Copy(f)))
    ensures Holders(s, f) == {} && (s.refs[s.current] == 1 ==> Holders(s, s.current) == {})
  {
    hide Fold;
    var n := Next(s, Copy(f));
    assert Holders(s, f) == {};
    var holders := Holders(s, s.current);
    forall q | q in n.readers ensures n.readers[q].list in n.refs {
      assert s.readers[q].list == s.current ==> q in holders;
    }
    forall k | k in n.refs ensures n.refs[k] > 0 && n.refs[k] == |Holders(n, k)| + (if k == n.current then 1 else 0) {
      assert Holders(n, k) == Holders(s, k);
    }
  }

  lemma CopyContent(s: State, f: ListId)
    requires CountsInv(s) && ContentInv(s) && Enabled(s, Copy(f))
    ensures ContentInv(Next(s, Copy(f)))
  {
    hide Fold;
    var n := Next(s, Copy(f));
    CopyCounts(s, f);
    var holders := Holders(s, s.current);
    forall q | q in n.readers
      ensures n.readers[q].list in n.lists && n.lists[n.readers[q].list] == s.lists[s.readers[q].list]
    {
      assert s.readers[q].list == s.current ==> q in holders;
    }
  }

  lemma CopyKeepsInv(s: State, f: ListId)
    requires Inv(s) && Enabled(s, Copy(f))
    ensures Inv(Next(s, Copy(f)))
  {
    hide CountsInv, ContentInv;
    CopyCounts(s, f);
    CopyContent(s, f);
    assert Holders(Next(s, Copy(f)), f) == Holders(s, f);
  }

  /** A reader may leave while a writer waits: the list stays unshared. */
  lemma ReleaseKeepsInv(s: State, r: Reader)
    requires Inv(s) && Enabled(s, Release(r))
    ensures Inv(Next(s, Release(r)))
  {
    hide CountsInv, ContentInv;
    ReleaseCounts(s, r);
    ReleaseContent(s, r);
    assert Holders(Next(s, Release(r)), s.current) <= Holders(s, s.current);
  }

  lemma AcquireKeepsInv(s: State, r: Reader)
    requires Inv(s) && Enabled(s, Acquire(r))
    ensures Inv(Next(s, Acquire(r)))
  {
    hide CountsInv, ContentInv;
    AcquireCounts(s, r);
    AcquireContent(s, r);
  }

  lemma ModifyContent(s: State)
    requires CountsInv(s) && LockInv(s) && ContentInv(s) && Enabled(s, Modify)
    ensures ContentInv(Next(s, Modify))
  {
    hide CountsInv, Fold;
    var n := Next(s, Modify);
    ChangesSplit(s.changes, s.lock.change);
    forall r | r in s.readers ensures n.lists[n.readers[r].list] == Fold(n.changes[..n.readers[r].at]) {
      ReaderHolds(s, r);
      assert s.readers[r].list != s.current;
    }
  }

  lemma ModifyKeepsInv(s: State)
    requires Inv(s) && Enabled(s, Modify)
    ensures Inv(Next(s, Modify))
  {
    hide ContentInv, Fold;
    ModifyContent(s);
    var n := Next(s, Modify);
    assert forall k :: Holders(n, k) == Holders(s, k);
  }

  lemma StepKeepsInv(s: State, a: Action)
    requires Inv(s) && Enabled(s, a)
    ensures Inv(Next(s, a))
  {
    match a
    case Copy(f) => CopyKeepsInv(s, f);
    case Modify => ModifyKeepsInv(s);
    case Acquire(r) => AcquireKeepsInv(s, r);
    case Release(r) => ReleaseKeepsInv(s, r);
    case Check =>
      CurrentCounted(s);
      SameHolders(s, Next(s, a));
    case _ => SameHolders(s, Next(s, a));
  }

  lemma SameHolders(s: State, n: State)
    requires n == s.(lock := n.lock)
    ensures forall l :: Holders(n, l) == Holders(s, l)
  {
  }

  // ---- Whole runs ----

  ghost predicate IsStep(s: State, a: Action, n: State) {
    Inv(s) ==> Enabled(s, a) && n == Next(s, a)
  }

  ghost predicate IsRun(states: seq<State>, actions: seq<Action>) {
    && |states| == |actions| + 1 && states[0] == Initial(states[0].current)
    && (forall i {:trigger actions[i]} :: 0 <= i < |actions| ==> IsStep(states[i], actions[i], states[i + 1]))
  }

  lemma {:induction false} RunKeepsInv(states: seq<State>, actions: seq<Action>, n: nat)
    requires IsRun(states, actions) && n < |states|
    ensures Inv(states[n])
  {
    hide Inv, Next;
    if n > 0 {
      RunKeepsInv(states, actions, n - 1);
      StepKeepsInv(states[n - 1], actions[n - 1]);
    } else {
      InitialInv(states[0].current);
    }
  }

  /** On every interleaving: connections_ is the fold of all onConnection calls so far. */
  lemma CurrentIsFold(states: seq<State>, actions: seq<Action>, n: nat)
    requires IsRun(states, actions) && n < |states|
    ensures var s := states[n];
            s.current in s.lists && s.lists[s.current] == Fold(s.changes)
  {
    RunKeepsInv(states, actions, n);
  }

  /** A connection is in the list exactly if its last change is an up. */
  lemma {:induction false} FoldIsLastChange(changes: seq<Change>, c: Conn)
    ensures c in Fold(changes) <==>
            exists k :: 0 <= k < |changes| && changes[k] == Change(c, true) &&
                        forall j :: k < j < |changes| ==> changes[j].conn != c
  {
    if changes != [] {
      var n := |changes| - 1;
      var before, last := changes[..n], changes[n];
      FoldIsLastChange(before, c);
      assert c in Fold(changes) <==> if last.conn == c then last.up else c in Fold(before);
      if last.conn == c {
        assert last.up ==> changes[n] == Change(c, true);
      } else {
        assert forall k :: 0 <= k < n ==> before[k] == changes[k];
      }
    }
  }

  /** On every interleaving: a connection is in connections_ exactly if its last completed onConnection was an up. */
  lemma ListedExactly(states: seq<State>, actions: seq<Action>, n: nat, c: Conn)
    requires IsRun(states, actions) && n < |states|
    ensures var s := states[n];
            && s.current in s.lists
            && (c in s.lists[s.current] <==>
                  exists k :: 0 <= k < |s.changes| && s.changes[k] == Change(c, true) &&
                              forall j :: k < j < |s.changes| ==> s.changes[j].conn != c)
  {
    CurrentIsFold(states, actions, n);
    FoldIsLastChange(states[n].changes, c);
  }

  /** The history is what the steps of onConnection did: each completes with the change it entered with. */
  lemma ChangesExactly(states: seq<State>, actions: seq<Action>, n: nat)
    requires IsRun(states, actions) && n < |actions|
    ensures actions[n].Modify? ==>
              states[n].lock.Ready? && states[n + 1].changes == states[n].changes + [states[n].lock.change]
    ensures !actions[n].Modify? ==> states[n + 1].changes == states[n].changes
    ensures actions[n].Enter? ==> states[n + 1].lock == Entered(actions[n].change)
    ensures states[n].lock != Free && states[n + 1].lock != Free ==>
              states[n + 1].lock.change == states[n].lock.change
  {
    RunKeepsInv(states, actions, n);
    assert IsStep(states[n], actions[n], states[n + 1]);
    ChangesStep(states[n], actions[n]);
  }

  lemma ChangesStep(s: State, a: Action)
    requires Enabled(s, a)
    ensures var n := Next(s, a);
            && n.changes == (if a.Modify? then s.changes + [s.lock.change] else s.changes)
            && (a.Enter? ==> n.lock == Entered(a.change))
            && (s.lock != Free && n.lock != Free ==> n.lock.change == s.lock.change)
            && (a.Modify? ==> s.lock.Ready? && n.lock == Free)
  {
    hide Apply;
  }

  /** The writer finds the list shared exactly if some reader holds it, and makes a copy only then. */
  lemma CopiesOnlyShared(states: seq<State>, actions: seq<Action>, n: nat)
    requires IsRun(states, actions) && n < |actions|
    ensures actions[n].Check? ==>
              && states[n + 1].lock.Checked?
              && (states[n + 1].lock.unique <==>
                    forall r :: r in states[n].readers ==> states[n].readers[r].list != states[n].current)
    ensures actions[n].Copy? ==> states[n].lock.Checked? && !states[n].lock.unique
    ensures !actions[n].Copy? ==> states[n + 1].current == states[n].current
  {
    RunKeepsInv(states, actions, n);
    assert IsStep(states[n], actions[n], states[n + 1]);
    CurrentCounted(states[n]);
    var holders := Holders(states[n], states[n].current);
    assert forall r :: r in holders <==> r in states[n].readers && states[n].readers[r].list == states[n].current;
  }

  lemma StepKeepsHeld(s: State, a: Action, r: Reader)
    requires Inv(s) && Enabled(s, a) && r in s.readers && a != Release(r)
    ensures r in Next(s, a).readers && Next(s, a).readers[r] == s.readers[r]
    ensures s.changes <= Next(s, a).changes
  {
  }

  lemma {:induction false} HeldStays(states: seq<State>, actions: seq<Action>, r: Reader, i: nat, n: nat)
    requires IsRun(states, actions) && i < n < |states| && actions[i] == Acquire(r)
    requires forall k :: i < k < n ==> actions[k] != Release(r)
    ensures r in states[n].readers && states[n].readers[r] == Held(states[i].current, |states[i].changes|)
    ensures states[i].changes <= states[n].changes
    decreases n
  {
    hide Inv;
    RunKeepsInv(states, actions, n - 1);
    if i < n - 1 {
      HeldStays(states, actions, r, i, n - 1);
      StepKeepsHeld(states[n - 1], actions[n - 1], r);
    }
  }

  /** Snapshot isolation on every interleaving: as long as a reader holds its reference, the list is allocated and
      contains exactly the connections that were up when the reference was taken. */
  lemma SnapshotIsolation(states: seq<State>, actions: seq<Action>, r: Reader, i: nat, n: nat)
    requires IsRun(states, actions) && i < n < |states| && actions[i] == Acquire(r)
    requires forall k :: i < k < n ==> actions[k] != Release(r)
    ensures var l := states[i].current;
            && r in states[n].readers && states[n].readers[r].list == l
            && l in states[n].lists && states[n].lists[l] == Fold(states[i].changes)
  {
    HeldStays(states, actions, r, i, n);
    RunKeepsInv(states, actions, n);
    assert states[n].changes[..|states[i].changes|] == states[i].changes;
  }

  /** The assert before a list is changed holds: the writer has the only reference. */
  lemma WriterIsAlone(states: seq<State>, actions: seq<Action>, n: nat)
    requires IsRun(states, actions) && n < |actions| && actions[n].Modify?
    ensures states[n].current in states[n].refs && states[n].refs[states[n].current] == 1
  {
    RunKeepsInv(states, actions, n);
    CurrentCounted(states[n]);
  }

  /** No use after free on any interleaving: whatever a writer's or a reader's place in the code allows next, the
      lists and reference counts that the step touches are there. */
  lemma NeverDangling(states: seq<State>, actions: seq<Action>, n: nat, r: Reader, f: ListId)
    requires IsRun(states, actions) && n < |states|
    ensures var s := states[n];
            && (s.lock.Entered? ==> Enabled(s, Check))
            && (s.lock.Checked? ==> Enabled(s, SkipCopy) || f in s.lists || Enabled(s, Copy(f)))
            && (s.lock.Ready? ==> Enabled(s, Modify))
            && (s.lock.Free? && r !in s.readers ==> Enabled(s, Acquire(r)))
            && (r in s.readers ==> Enabled(s, Release(r)))
  {
    RunKeepsInv(states, actions, n);
  }

  /** Lists are freed as soon as nobody refers to them: each allocated list is the current one or held. */
  lemma NoListLeaks(states: seq<State>, actions: seq<Action>, n: nat, l: ListId)
    requires IsRun(states, actions) && n < |states| && l in states[n].lists
    ensures l == states[n].current || exists r :: r in states[n].readers && states[n].readers[r].list == l
  {
    RunKeepsInv(states, actions, n);
    if l != states[n].current {
      var holders := Holders(states[n], l);
      assert |holders| > 0;
      var r :| r in holders;
    }
  }

  // ---- The object ----

  class ChatServer {
    var lists: map<ListId, set<Conn>>
    var refs: map<ListId, nat>
    var connections: ListId
    ghost var lock: Lock
    ghost var readers: map<Reader, Held>
    ghost var changes: seq<Change>

    ghost function Abs(): State
      reads this
    {
      State(lists, refs, connections, lock, readers, changes)
    }

    constructor (address: ListId)
      ensures Abs() == Initial(address) && Inv(Abs())
    {
      lists, refs, connections := map[address := {}], map[address := 1], address;
      lock, readers, changes := Free, map[], [];
      new;
      InitialInv(address);
    }

    /** Gives up the shared list for a copy of its own. */
    method CopyList(address: ListId)
      requires Inv(Abs()) && Enabled(Abs(), Copy(address))
      modifies this`lists, this`refs, this`connections, this`lock
      ensures Inv(Abs()) && Abs() == Next(old(Abs()), Copy(address))
    {
      StepKeepsInv(Abs(), Copy(address));
      hide Inv, Fold;
      var list := lists[connections];
      if refs[connections] == 1 {
        lists, refs := lists - {connections}, refs - {connections};
      } else {
        refs := refs[connections := refs[connections] - 1];
      }
      lists, refs, connections := lists[address := list], refs[address := 1], address;
      lock := Ready(lock.change);
    }

    method ModifyList(conn: Conn, up: bool)
      requires Inv(Abs()) && Enabled(Abs(), Modify) && lock.change == Change(conn, up)
      modifies this`lists, this`lock, this`changes
      ensures Inv(Abs()) && Abs() == Next(old(Abs()), Modify)
    {
      StepKeepsInv(Abs(), Modify);
      hide Inv, Fold;
      var list := lists[connections];
      lists := lists[connections := if up then list + {conn} else list - {conn}];
      changes := changes + [lock.change];
      lock := Free;
    }

    /** Changes the list, in a copy at `address` if somebody else holds it: the connection is in it or not, all others
        as before, and no reader sees a change. */
    method OnConnection(conn: Conn, up: bool, address: ListId)
      requires Inv(Abs()) && lock.Free? && address !in lists
      modifies this`lists, this`refs, this`connections, this`lock, this`changes
      ensures Inv(Abs()) && lock.Free? && changes == old(changes) + [Change(conn, up)]
      ensures CurrentList(Abs()) == Apply(CurrentList(old(Abs())), Change(conn, up))
      ensures forall r :: r in readers ==> HeldList(Abs(), r) == HeldList(old(Abs()), r)
    {
      hide Inv, Fold;
      ghost var s := Abs();
      ghost var c := Change(conn, up);
      StepKeepsInv(s, Enter(c));
      lock := Entered(c);
      WriterGoesOn(Abs(), address);
      StepKeepsInv(Abs(), Check);
      var unique := refs[connections] == 1;
      lock := Checked(c, unique);
      WriterGoesOn(Abs(), address);
      if !unique {
        CopyList(address);
      } else {
        StepKeepsInv(Abs(), SkipCopy);
        lock := Ready(c);
      }
      WriterGoesOn(Abs(), address);
      ModifyList(conn, up);
      ListsAreFolds(s);
      ListsAreFolds(Abs());
      ChangesSplit(s.changes, c);
    }

    /** The locked part of `onMessage`. */
    method Acquire(ghost r: Reader) returns (held: ListId)
      requires Inv(Abs()) && Enabled(Abs(), Action.Acquire(r))
      modifies this`refs, this`readers
      ensures Inv(Abs()) && Abs() == Next(old(Abs()), Action.Acquire(r)) && held == connections
    {
      StepKeepsInv(Abs(), Action.Acquire(r));
      held := connections;
      refs := refs[held := refs[held] + 1];
      readers := readers[r := Held(held, |changes|)];
    }

    /** The end of `onMessage`: the reader's pointer goes out of scope, without the lock. */
    method Release(ghost r: Reader, held: ListId)
      requires Inv(Abs()) && Enabled(Abs(), Action.Release(r)) && readers[r].list == held
      modifies this`lists, this`refs, this`readers
      ensures Inv(Abs()) && Abs() == Next(old(Abs()), Action.Release(r))
    {
      StepKeepsInv(Abs(), Action.Release(r));
      if refs[held] == 1 {
        lists, refs := lists - {held}, refs - {held};
      } else {
        refs := refs[held := refs[held] - 1];
      }
      readers := readers - {r};
    }
  }

  /** The connections in connections_. */
  function CurrentList(s: State): set<Conn> {
    if s.current in s.lists then s.lists[s.current] else {}
  }

  /** The connections that a reader iterates over. */
  function HeldList(s: State, r: Reader): set<Conn> {
    if r in s.readers && s.readers[r].list in s.lists then s.lists[s.readers[r].list] else {}
  }

  lemma ListsAreFolds(s: State)
    requires Inv(s)
    ensures CurrentList(s) == Fold(s.changes)
    ensures forall r :: r in s.readers ==>
              s.readers[r].at <= |s.changes| && HeldList(s, r) == Fold(s.changes[..s.readers[r].at])
  {
    hide Fold;
  }

  lemma ChangesSplit(changes: seq<Change>, c: Change)
    ensures Fold(changes + [c]) == Apply(Fold(changes), c)
    ensures forall n :: 0 <= n <= |changes| ==> (changes + [c])[..n] == changes[..n]
  {
    assert (changes + [c])[..|changes|] == changes;
  }

  /** A writer never finds its list or reference count gone. */
  lemma WriterGoesOn(s: State, address: ListId)
    requires Inv(s)
    ensures s.lock.Entered? ==> Enabled(s, Check)
    ensures s.lock.Checked? && s.lock.unique ==> Enabled(s, SkipCopy)
    ensures s.lock.Checked? && !s.lock.unique && address !in s.lists ==> Enabled(s, Copy(address))
    ensures s.lock.Ready? ==> Enabled(s, Modify)
  {
    hide Fold;
  }
}
