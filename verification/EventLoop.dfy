/**
 The functor queue and wake-up protocol of arale/net/EventLoop.cc, as a step system: one loop
 thread and any number of poster threads share the mutex-guarded vector `pendingFunctors_`, the
 flag `quit_` and the eventfd counter. Every step is one lock-protected or atomic piece of code.
 */
module EventLoop {

  type Thread = nat  // thread ids

  /** Where the loop thread stands in `loop` and `doPendingFunctors`. */
  datatype Phase =
    | Idle                          // loop() is not running
    | Polling                       // blocked in poll
    | Handling(wakeReported: bool)  // in the active channels' callbacks; the wake-up channel may be one of them
    | Swapping                      // isHandlingPendingFunctors_ is set, the swap is ahead
    | Running                       // running the swapped-out functors
    | Checking                      // about to test quit_

  datatype State<F> = State(
    posted: seq<F>,         // every functor pushed so far, in lock order
    executed: seq<F>,       // every functor run so far
    batch: seq<F>,          // the functors of doPendingFunctors not yet run
    pending: seq<F>,        // pendingFunctors_
    counter: nat,           // the eventfd counter
    wakers: set<Thread>,    // posters with their weakup() write still ahead
    loopWake: bool,         // the loop thread itself is about to call weakup()
    handlingPending: bool,  // isHandlingPendingFunctors_
    quit: bool,
    phase: Phase)

  datatype Action<F> =
    | Post(t: Thread, f: F) | Quit(t: Thread) | Wake(t: Thread)
    | LoopPost(f: F) | LoopWake | LoopQuit
    | Start | PollReturn | ReadWake | EndHandling | Swap | RunNext | EndBatch | Check

  /** An eventfd refuses a write that would pass this value; it stays readable. */
  const EVENTFD_MAX: nat := 0xFFFF_FFFF_FFFF_FFFE

  function Written(counter: nat): nat {
    if counter < EVENTFD_MAX then counter + 1 else counter
  }

  /** The loop thread runs user code: event callbacks, functors, or the code around loop(). */
  predicate InUserCode(s: State) {
    (s.phase.Idle? || s.phase.Handling? || s.phase.Running?) && !s.loopWake
  }

  predicate Enabled<F>(s: State<F>, a: Action<F>) {
    match a
    case Post(t, _) => t !in s.wakers
    case Quit(t) => t !in s.wakers
    case Wake(t) => t in s.wakers
    case LoopPost(_) => InUserCode(s)
    case LoopWake => s.loopWake
    case LoopQuit => InUserCode(s)
    case Start => s.phase.Idle? && !s.loopWake
    case PollReturn => s.phase.Polling?
    case ReadWake => s.phase == Handling(true) && !s.loopWake
    case EndHandling => s.phase == Handling(false) && !s.loopWake
    case Swap => s.phase.Swapping?
    case RunNext => s.phase.Running? && !s.loopWake && s.batch != []
    case EndBatch => s.phase.Running? && !s.loopWake && s.batch == []
    case Check => s.phase.Checking?
  }

  function Next<F>(s: State<F>, a: Action<F>): State<F>
    requires Enabled(s, a)
  {
    match a
    case Post(t, f) => s.(pending := s.pending + [f], posted := s.posted + [f], wakers := s.wakers + {t})
    case Quit(t) => s.(quit := true, wakers := s.wakers + {t})
    case Wake(t) => s.(counter := Written(s.counter), wakers := s.wakers - {t})
    // in the loop thread: only a post made while functors are being handled wakes the loop
    case LoopPost(f) => s.(pending := s.pending + [f], posted := s.posted + [f], loopWake := s.handlingPending)
    case LoopWake => s.(counter := Written(s.counter), loopWake := false)
    case LoopQuit => s.(quit := true)
    case Start => s.(quit := false, phase := Checking)
    case PollReturn => s.(phase := Handling(s.counter > 0))
    case ReadWake => s.(counter := 0, phase := Handling(false))
    case EndHandling => s.(handlingPending := true, phase := Swapping)
    case Swap => s.(batch := s.pending, pending := [], phase := Running)
    case RunNext => s.(executed := s.executed + [s.batch[0]], batch := s.batch[1..])
    case EndBatch => s.(handlingPending := false, phase := Checking)
    case Check => s.(phase := if s.quit then Idle else Polling)
  }

  /** Something will make poll return: the eventfd is readable or a write to it is still to come. */
  predicate Alerted(s: State) {
    s.counter > 0 || s.wakers != {} || s.loopWake
  }

  /** No functor is waiting without the loop being alerted. */
  predicate Prompt(s: State) {
    s.pending == [] || Alerted(s)
  }

  ghost predicate Inv<F>(s: State<F>) {
    && s.executed + s.batch + s.pending == s.posted
    && (s.batch != [] ==> s.phase.Running?)
    && (s.handlingPending <==> s.phase.Swapping? || s.phase.Running?)
    && (s.loopWake ==> s.phase.Running?)
    && (s.phase.Running? || s.phase.Checking? || s.phase.Polling? ==> Prompt(s))
    && (s.phase.Polling? && s.quit ==> Alerted(s))
  }

  function Initial<F>(): (s: State<F>)
    ensures Inv(s)
  {
    State([], [], [], [], 0, {}, false, false, false, Idle)
  }

  /** Every step keeps the invariant, provided that loop() is not entered on a queue that nobody announced. */
  lemma StepKeepsInv<F>(s: State<F>, a: Action<F>)
    requires Inv(s) && Enabled(s, a)
    requires a.Start? ==> Prompt(s)
    ensures Inv(Next(s, a))
  {
    var n := Next(s, a);
    assert n.executed + n.batch + n.pending == n.posted by {
      if a.RunNext? {
        assert s.batch == [s.batch[0]] + s.batch[1..];
        assert n.executed + n.batch == s.executed + s.batch;
      } else if a.Swap? {
        assert s.executed + [] == s.executed && n.executed + n.batch + [] == n.executed + n.batch;
      } else {
        assert a.Post? || a.LoopPost? ==> n.posted == s.executed + s.batch + (s.pending + [a.f]);
      }
    }
    assert a.Post? || a.Quit? ==> a.t in n.wakers;
  }

  // ---- Whole runs ----

  ghost predicate IsStep<F>(s: State<F>, a: Action<F>, n: State<F>) {
    Enabled(s, a) && n == Next(s, a)
  }

  ghost predicate IsRun<F>(states: seq<State<F>>, actions: seq<Action<F>>) {
    && |states| == |actions| + 1
    && (forall i {:trigger actions[i]} :: 0 <= i < |actions| ==> IsStep(states[i], actions[i], states[i + 1]))
  }

  /** Every entry into loop() finds the queue empty or the loop alerted. */
  ghost predicate PromptEntries<F>(states: seq<State<F>>, actions: seq<Action<F>>)
    requires IsRun(states, actions)
  {
    forall i :: 0 <= i < |actions| && actions[i].Start? ==> Prompt(states[i])
  }

  ghost predicate FromStart<F>(states: seq<State<F>>, actions: seq<Action<F>>) {
    IsRun(states, actions) && PromptEntries(states, actions) && states[0] == Initial()
  }

  lemma PrefixTransitive<F>(a: seq<F>, b: seq<F>, c: seq<F>)
    requires a <= b <= c
    ensures a <= c
  {
  }

  lemma LastStep<F>(states: seq<State<F>>, actions: seq<Action<F>>, n: nat)
    requires FromStart(states, actions) && n + 1 < |states|
    ensures |states| == |actions| + 1
    ensures IsStep(states[n], actions[n], states[n + 1]) && (actions[n].Start? ==> Prompt(states[n]))
  {
  }

  lemma {:induction false} RunKeepsInv<F>(states: seq<State<F>>, actions: seq<Action<F>>, n: nat)
    requires FromStart(states, actions)
    requires n < |states|
    ensures Inv(states[n])
  {
    hide Next, Inv, IsRun, PromptEntries;
    if n > 0 {
      RunKeepsInv(states, actions, n - 1);
      LastStep(states, actions, n - 1);
      StepKeepsInv(states[n - 1], actions[n - 1]);
    }
  }

  /** On every interleaving: functors run once each, in posting order. */
  lemma ExecutedInOrder<F>(states: seq<State<F>>, actions: seq<Action<F>>, n: nat)
    requires FromStart(states, actions)
    requires n < |states|
    ensures states[n].executed + states[n].batch + states[n].pending == states[n].posted
    ensures states[n].executed <= states[n].posted
  {
    hide Next, IsRun, PromptEntries;
    RunKeepsInv(states, actions, n);
    var s := states[n];
    assert s.posted == s.executed + (s.batch + s.pending);
  }

  /** On every interleaving: poll never stays blocked over a waiting functor or a request to quit. */
  lemma NeverSleepsOnWork<F>(states: seq<State<F>>, actions: seq<Action<F>>, n: nat)
    requires FromStart(states, actions)
    requires n < |states| && states[n].phase.Polling?
    requires states[n].pending != [] || states[n].quit
    ensures states[n].counter > 0 || states[n].wakers != {}
  {
    hide Next, IsRun, PromptEntries;
    RunKeepsInv(states, actions, n);
  }

  /** The proviso is needed: entered on an unannounced queue, the loop goes to sleep over it. */
  lemma UnannouncedEntrySleeps<F>(s: State<F>)
    requires Inv(s) && s.phase.Idle? && !Prompt(s)
    ensures var states := [s, Next(s, Start), Next(Next(s, Start), Check)];
            && IsRun(states, [Start, Check])
            && states[2].phase.Polling? && states[2].pending != [] && !Alerted(states[2])
  {
  }

  /** Such a state is one post away: the loop thread posts before it calls loop(). */
  lemma PostBeforeLoop<F>(f: F)
    ensures Enabled(Initial(), LoopPost(f))
    ensures var s := Next(Initial(), LoopPost(f));
            Inv(s) && s.phase.Idle? && !Prompt(s)
  {
  }

  /** A continuation that enters loop() first and once, and ends asleep over a waiting functor. */
  ghost predicate EntrySleeps<F>(s: State<F>, states: seq<State<F>>, actions: seq<Action<F>>) {
    && IsRun(states, actions) && actions != [] && states[0] == s && actions[0].Start?
    && (forall i :: 0 < i < |actions| ==> !actions[i].Start?)
    && states[|actions|].phase.Polling? && states[|actions|].pending != [] && !Alerted(states[|actions|])
  }

  lemma {:induction false} PromptEntryKeepsInv<F>(states: seq<State<F>>, actions: seq<Action<F>>, n: nat)
    requires IsRun(states, actions) && n < |states| && Inv(states[0]) && Prompt(states[0])
    requires forall i :: 0 < i < |actions| ==> !actions[i].Start?
    ensures Inv(states[n])
  {
    hide Next, Inv;
    if n > 0 {
      PromptEntryKeepsInv(states, actions, n - 1);
      assert IsStep(states[n - 1], actions[n - 1], states[n]);
      StepKeepsInv(states[n - 1], actions[n - 1]);
    }
  }

  /** The exact condition on an entry into loop(): some interleaving after it goes to sleep over a waiting functor if
      and only if a functor is pending that nobody announced. */
  lemma EntrySleepsExactly<F>(s: State<F>)
    requires Inv(s) && s.phase.Idle?
    ensures !Prompt(s) <==>
            exists states: seq<State<F>>, actions: seq<Action<F>> :: EntrySleeps(s, states, actions)
  {
    if !Prompt(s) {
      UnannouncedEntrySleeps(s);
      var states := [s, Next(s, Start), Next(Next(s, Start), Check)];
      assert EntrySleeps(s, states, [Start, Check]);
    } else {
      forall states: seq<State<F>>, actions: seq<Action<F>> ensures !EntrySleeps(s, states, actions) {
        if EntrySleeps(s, states, actions) {
          PromptEntryKeepsInv(states, actions, |actions|);
          assert false;
        }
      }
    }
  }

  // ---- Ending the loop ----

  /** Step k requested to quit, and loop() was not entered since. */
  predicate QuitSince<F>(actions: seq<Action<F>>, k: nat, n: nat)
    requires n <= |actions|
  {
    k < n && (actions[k].Quit? || actions[k].LoopQuit?) && forall j :: k < j < n ==> !actions[j].Start?
  }

  lemma QuitStep<F>(s: State<F>, a: Action<F>)
    requires Enabled(s, a)
    ensures Next(s, a).quit <==> a.Quit? || a.LoopQuit? || (s.quit && !a.Start?)
  {
  }

  /** On every run: the flag is set exactly when some thread has called quitLoop since loop() was last entered. */
  lemma {:induction false} QuitFlagExactly<F>(states: seq<State<F>>, actions: seq<Action<F>>, n: nat)
    requires IsRun(states, actions) && states[0] == Initial() && n < |states|
    ensures states[n].quit <==> exists k: nat :: QuitSince(actions, k, n)
  {
    hide Next;
    if n > 0 {
      var m: nat := n - 1;
      assert IsStep(states[m], actions[m], states[n]);
      QuitStep(states[m], actions[m]);
      QuitFlagExactly(states, actions, m);
      if actions[m].Quit? || actions[m].LoopQuit? {
        assert QuitSince(actions, m, n);
      } else if !actions[m].Start? {
        if k: nat :| QuitSince(actions, k, m) {
          assert QuitSince(actions, k, n);
        }
      }
      if k: nat :| QuitSince(actions, k, n) {
        assert k < m ==> QuitSince(actions, k, m);
      }
    }
  }

  /** On every run: at the end of a turn loop() returns if quitLoop was called since it was entered, and polls again if
      not; it returns nowhere else. */
  lemma LoopEndsExactly<F>(states: seq<State<F>>, actions: seq<Action<F>>, n: nat)
    requires IsRun(states, actions) && states[0] == Initial() && n < |actions|
    ensures actions[n].Check? ==>
              states[n + 1].phase == if exists k: nat :: QuitSince(actions, k, n) then Idle else Polling
    ensures !states[n].phase.Idle? && states[n + 1].phase.Idle? ==> actions[n].Check?
  {
    QuitFlagExactly(states, actions, n);
    assert IsStep(states[n], actions[n], states[n + 1]);
  }

  // ---- The eventfd ----

  /** Step k wrote to the eventfd, and it was not read since. */
  predicate WokenSince<F>(actions: seq<Action<F>>, k: nat, n: nat)
    requires n <= |actions|
  {
    k < n && (actions[k].Wake? || actions[k].LoopWake?) && forall j :: k < j < n ==> !actions[j].ReadWake?
  }

  /** Each wake-up adds one, up to the largest value that an eventfd holds, and reading takes all. */
  lemma CounterStep<F>(s: State<F>, a: Action<F>)
    requires Enabled(s, a)
    ensures Next(s, a).counter ==
            if a.ReadWake? then 0
            else if (a.Wake? || a.LoopWake?) && s.counter < 0xFFFF_FFFF_FFFF_FFFE then s.counter + 1
            else s.counter
  {
  }

  /** On every run: the eventfd is readable exactly when a wake-up was written and not read since. */
  lemma {:induction false} ReadableExactly<F>(states: seq<State<F>>, actions: seq<Action<F>>, n: nat)
    requires IsRun(states, actions) && states[0] == Initial() && n < |states|
    ensures states[n].counter > 0 <==> exists k: nat :: WokenSince(actions, k, n)
    ensures states[n].counter <= 0xFFFF_FFFF_FFFF_FFFE
  {
    hide Next;
    if n > 0 {
      var m: nat := n - 1;
      assert IsStep(states[m], actions[m], states[n]);
      CounterStep(states[m], actions[m]);
      ReadableExactly(states, actions, m);
      if actions[m].Wake? || actions[m].LoopWake? {
        assert WokenSince(actions, m, n);
      } else if !actions[m].ReadWake? {
        if k: nat :| WokenSince(actions, k, m) {
          assert WokenSince(actions, k, n);
        }
      }
      if k: nat :| WokenSince(actions, k, n) {
        assert k < m ==> WokenSince(actions, k, m);
      }
    }
  }

  /** On every run: poll reports the wake-up channel exactly when there is something to read; what is reported is read
      before the functors are handled, and nothing is left then but what was written meanwhile. */
  lemma WakeIsReported<F>(states: seq<State<F>>, actions: seq<Action<F>>, n: nat)
    requires IsRun(states, actions) && states[0] == Initial() && n < |actions|
    ensures actions[n].PollReturn? ==>
              states[n + 1].phase == Handling(exists k: nat :: WokenSince(actions, k, n))
    ensures actions[n].ReadWake? ==> states[n + 1].counter == 0 && states[n + 1].phase == Handling(false)
    ensures actions[n].EndHandling? ==> states[n].phase == Handling(false)
  {
    ReadableExactly(states, actions, n);
    assert IsStep(states[n], actions[n], states[n + 1]);
  }

  /** The loop thread has to wake itself for a post exactly when it makes it while functors are being run. */
  lemma LoopPostWakesExactly<F>(states: seq<State<F>>, actions: seq<Action<F>>, n: nat)
    requires FromStart(states, actions) && n < |actions| && actions[n].LoopPost?
    ensures states[n + 1].loopWake <==> states[n].phase.Running?
    ensures states[n + 1].counter == states[n].counter
  {
    RunKeepsInv(states, actions, n);
    LastStep(states, actions, n);
  }

  // ---- What is swapped out gets run ----

  lemma StepKeepsTaken<F>(s: State<F>, a: Action<F>)
    requires Inv(s) && Enabled(s, a)
    ensures var n := Next(s, a);
            s.executed + s.batch <= n.executed + n.batch && s.posted <= n.posted
  {
    if a.RunNext? {
      assert s.batch == [s.batch[0]] + s.batch[1..];
      assert s.executed + s.batch == Next(s, a).executed + Next(s, a).batch;
    }
  }

  lemma {:induction false} TakenGrows<F>(states: seq<State<F>>, actions: seq<Action<F>>, i: nat, j: nat)
    requires FromStart(states, actions)
    requires i <= j < |states|
    ensures states[i].executed + states[i].batch <= states[j].executed + states[j].batch
  {
    hide Next, Inv, IsRun, PromptEntries;
    if i < j {
      TakenGrows(states, actions, i, j - 1);
      RunKeepsInv(states, actions, j - 1);
      LastStep(states, actions, j - 1);
      var s, n := states[j - 1], states[j];
      StepKeepsTaken(s, actions[j - 1]);
      PrefixTransitive(states[i].executed + states[i].batch, s.executed + s.batch, n.executed + n.batch);
    }
  }

  /** Everything posted before a swap has been run, in order, whenever the loop is out of the batch again. */
  lemma SwappedIsExecuted<F>(states: seq<State<F>>, actions: seq<Action<F>>, i: nat, j: nat)
    requires FromStart(states, actions)
    requires i < |actions| && actions[i].Swap? && i < j < |states| && !states[j].phase.Running?
    ensures states[i].posted <= states[j].executed
  {
    hide IsRun, PromptEntries;
    RunKeepsInv(states, actions, i);
    RunKeepsInv(states, actions, j);
    LastStep(states, actions, i);
    TakenGrows(states, actions, i + 1, j);
    SwapTakesAll(states[i]);
    assert states[j].executed + states[j].batch == states[j].executed;
  }

  lemma SwapTakesAll<F>(s: State<F>)
    requires Inv(s) && s.phase.Swapping?
    ensures var n := Next(s, Swap);
            n.executed + n.batch == s.posted
  {
    assert s.executed + [] == s.executed;
  }

  // ---- The object ----

  /** The code of `postFuntor` without anything in between. */
  function AfterPost<F>(s: State<F>, t: Thread, f: F, inLoopThread: bool): State<F>
    requires Enabled(s, if inLoopThread then LoopPost(f) else Post(t, f))
  {
    if inLoopThread then
      var n := Next(s, LoopPost(f));
      if n.loopWake then Next(n, LoopWake) else n
    else Next(Next(s, Post(t, f)), Wake(t))
  }

  function AfterQuit<F>(s: State<F>, t: Thread, inLoopThread: bool): State<F>
    requires Enabled(s, if inLoopThread then LoopQuit else Quit(t))
  {
    if inLoopThread then Next(s, LoopQuit) else Next(Next(s, Quit(t)), Wake(t))
  }

  /** All functors that these callbacks post, in order. */
  function Posts<F>(callbacks: seq<seq<F>>): seq<F> {
    if callbacks == [] then [] else Posts(callbacks[..|callbacks| - 1]) + callbacks[|callbacks| - 1]
  }

  /** The state after a batch in which these functors were posted. */
  lemma BatchDone<F>(s: State<F>, n: State<F>, posts: seq<F>)
    requires Inv(s) && s.batch == [] && n.batch == []
    requires n.phase.Checking? && !n.handlingPending && !n.loopWake
    requires n.executed == s.executed + s.pending && n.pending == posts && n.posted == s.posted + posts
    requires n.pending != [] ==> n.counter > 0
    ensures Inv(n)
  {
    assert s.executed + [] == s.executed && n.executed + [] == n.executed;
  }

  lemma PostsStep<F>(callbacks: seq<seq<F>>, i: nat)
    ensures Posts(callbacks[..0]) == []
    ensures i < |callbacks| ==> Posts(callbacks[..i + 1]) == Posts(callbacks[..i]) + callbacks[i]
  {
    if i < |callbacks| {
      assert callbacks[..i + 1][..i] == callbacks[..i];
    }
  }

  class EventLoop<F> {
    var pendingFunctors: seq<F>
    var isHandlingPendingFunctors: bool
    var quit: bool
    var wakeupCounter: nat  // of the eventfd
    ghost var posted: seq<F>
    ghost var executed: seq<F>
    ghost var batch: seq<F>
    ghost var wakers: set<Thread>
    ghost var loopWake: bool
    ghost var phase: Phase

    ghost function Abs(): State<F>
      reads this
    {
      State(posted, executed, batch, pendingFunctors, wakeupCounter, wakers, loopWake, isHandlingPendingFunctors, quit,
            phase)
    }

    constructor ()
      ensures Abs() == Initial()
    {
      pendingFunctors, isHandlingPendingFunctors, quit, wakeupCounter := [], false, false, 0;
      posted, executed, batch, wakers, loopWake, phase := [], [], [], {}, false, Idle;
    }

    method Weakup()
      modifies this`wakeupCounter
      ensures wakeupCounter == Written(old(wakeupCounter)) && wakeupCounter > 0
    {
      if wakeupCounter < EVENTFD_MAX {
        wakeupCounter := wakeupCounter + 1;
      }
    }

    method HandleWakeup()
      requires Enabled(Abs(), ReadWake)
      modifies this`wakeupCounter, this`phase
      ensures Abs() == Next(old(Abs()), ReadWake) && wakeupCounter == 0
    {
      wakeupCounter := 0;
      phase := Handling(false);
    }

    method PostFuntor(f: F, inLoopThread: bool, ghost t: Thread)
      requires Enabled(Abs(), if inLoopThread then LoopPost(f) else Post(t, f))
      modifies this`pendingFunctors, this`posted, this`wakeupCounter
      ensures Abs() == AfterPost(old(Abs()), t, f, inLoopThread)
      ensures pendingFunctors == old(pendingFunctors) + [f]
      ensures if inLoopThread && !isHandlingPendingFunctors then wakeupCounter == old(wakeupCounter)
              else wakeupCounter > 0
    {
      ghost var before := wakers;
      pendingFunctors := pendingFunctors + [f];
      posted := posted + [f];
      if !inLoopThread || isHandlingPendingFunctors {
        Weakup();
      }
      assert t !in before ==> before + {t} - {t} == before;
    }

    method QuitLoop(inLoopThread: bool, ghost t: Thread)
      requires Enabled(Abs(), if inLoopThread then LoopQuit else Quit(t))
      modifies this`quit, this`wakeupCounter
      ensures Abs() == AfterQuit(old(Abs()), t, inLoopThread) && quit
      ensures if inLoopThread then wakeupCounter == old(wakeupCounter) else wakeupCounter > 0
    {
      ghost var before := wakers;
      quit := true;
      if !inLoopThread {
        Weakup();
      }
      assert t !in before ==> before + {t} - {t} == before;
    }

    /** Returns whether the functor is called right away. */
    method RunInLoop(f: F, inLoopThread: bool, ghost t: Thread) returns (runNow: bool)
      requires !inLoopThread ==> Enabled(Abs(), Post(t, f))
      modifies this`pendingFunctors, this`posted, this`wakeupCounter
      ensures runNow == inLoopThread
      ensures inLoopThread ==> Abs() == old(Abs())
      ensures !inLoopThread ==> Abs() == AfterPost(old(Abs()), t, f, false) && wakeupCounter > 0
    {
      runNow := inLoopThread;
      if !inLoopThread {
        PostFuntor(f, false, t);
      }
    }

    /** A callback in the loop thread that posts these functors. */
    method PostAll(functors: seq<F>)
      requires InUserCode(Abs())
      modifies this`pendingFunctors, this`posted, this`wakeupCounter
      ensures pendingFunctors == old(pendingFunctors) + functors && posted == old(posted) + functors
      ensures wakeupCounter >= old(wakeupCounter)
      ensures functors != [] && isHandlingPendingFunctors ==> wakeupCounter > 0
    {
      var i := 0;
      while i < |functors|
        invariant 0 <= i <= |functors|
        invariant pendingFunctors == old(pendingFunctors) + functors[..i] && posted == old(posted) + functors[..i]
        invariant wakeupCounter >= old(wakeupCounter) && (i > 0 && isHandlingPendingFunctors ==> wakeupCounter > 0)
      {
        PostFuntor(functors[i], true, 0);
        assert functors[..i + 1] == functors[..i] + [functors[i]];
        i := i + 1;
      }
    }

    /** The swap under the mutex. */
    method TakePending() returns (functors: seq<F>)
      requires Enabled(Abs(), EndHandling)
      modifies this`pendingFunctors, this`isHandlingPendingFunctors, this`batch, this`phase
      ensures Abs() == Next(Next(old(Abs()), EndHandling), Swap)
      ensures functors == old(pendingFunctors) == batch && pendingFunctors == []
      ensures isHandlingPendingFunctors && phase.Running?
    {
      isHandlingPendingFunctors := true;
      functors := pendingFunctors;
      pendingFunctors, batch, phase := [], functors, Running;
    }

    /** The call of one functor; what it posts comes after. */
    ghost method CountFunctor()
      requires Enabled(Abs(), RunNext)
      modifies this`executed, this`batch
      ensures Abs() == Next(old(Abs()), RunNext)
      ensures executed == old(executed) + [old(batch)[0]] && batch == old(batch)[1..]
    {
      executed := executed + [batch[0]];
      batch := batch[1..];
    }

    method RunFunctor(posts: seq<F>)
      requires Enabled(Abs(), RunNext) && isHandlingPendingFunctors
      modifies this`executed, this`batch, this`pendingFunctors, this`posted, this`wakeupCounter
      ensures executed == old(executed) + [old(batch)[0]] && batch == old(batch)[1..]
      ensures pendingFunctors == old(pendingFunctors) + posts && posted == old(posted) + posts
      ensures old(wakeupCounter) > 0 || posts != [] ==> wakeupCounter > 0
    {
      CountFunctor();
      PostAll(posts);
    }

    /** Runs exactly the functors that were pending, in order; what they post stays pending, and is announced.
        `script` says what each functor posts. */
    method DoPendingFunctors(script: seq<seq<F>>)
      requires Inv(Abs()) && Enabled(Abs(), EndHandling) && |script| == |pendingFunctors|
      modifies this
      ensures Inv(Abs()) && phase.Checking? && !isHandlingPendingFunctors
      ensures executed == old(executed) + old(pendingFunctors)
      ensures pendingFunctors == Posts(script) && posted == old(posted) + Posts(script)
      ensures quit == old(quit) && wakers == old(wakers)
    {
      assert batch == [] && !loopWake;
      hide Next, Inv, Posts;
      PostsStep(script, 0);
      var functors := TakePending();
      var i := 0;
      assert functors[0..] == functors && old(executed) + functors[..0] == old(executed);
      while i < |functors|
        invariant 0 <= i <= |functors| == |script|
        invariant phase.Running? && isHandlingPendingFunctors && !loopWake && quit == old(quit) && wakers == old(wakers)
        invariant batch == functors[i..] && executed == old(executed) + functors[..i]
        invariant pendingFunctors == Posts(script[..i]) && posted == old(posted) + pendingFunctors
        invariant pendingFunctors != [] ==> wakeupCounter > 0
      {
        PostsStep(script, i);
        RunFunctor(script[i]);
        assert functors[..i + 1] == functors[..i] + [functors[i]];
        i := i + 1;
      }
      assert functors[..i] == functors && script[..i] == script;
      isHandlingPendingFunctors := false;
      phase := Checking;
      BatchDone(old(Abs()), Abs(), Posts(script));
    }

    /** One turn of `loop`: poll, the wake-up and the other callbacks, the functors, and the test of quit_.
        `posts` is what the callbacks post. */
    method Turn(posts: seq<F>, script: seq<seq<F>>)
      requires Inv(Abs()) && phase.Polling? && |script| == |pendingFunctors| + |posts|
      modifies this
      ensures Inv(Abs()) && phase == if quit then Idle else Polling
      ensures executed == old(executed) + old(pendingFunctors) + posts
      ensures pendingFunctors == Posts(script) && quit == old(quit)
    {
      phase := Handling(wakeupCounter > 0);
      if wakeupCounter > 0 {
        HandleWakeup();
      }
      PostAll(posts);
      assert executed + batch + pendingFunctors == posted;
      DoPendingFunctors(script);
      phase := if quit then Idle else Polling;
    }
  }
}
