/**
 The connector of arale/net/Connector.cc: it creates sockets, waits until one is connected, closes and
 retries with a growing delay, and hands a connected socket over. The code's asserts are guards: a run
 ends where one fails. What the kernel answers is a parameter of each step.
 */
module Connector {
  const INIT_RETRY_DELAY_MS := 500
  const MAX_RETRY_DELAY_MS := 30 * 1000

  type Sock = nat  // sockets, numbered as they are created: descriptors are reused, these numbers are not

  datatype Phase = Disconnected | Connecting | Connected

  /** connectChannel_: whether it is still registered with the poller. */
  datatype Channel = NoChannel | Channel(sock: Sock, registered: bool)

  /** The answers of `connect`: the four error lists of the switch, the last two closing the socket alike. */
  datatype ConnectResult = Progress | TryAgain | Failed

  /** What a writable socket turns out to be. */
  datatype SocketResult = SocketError | SelfConnect | Established

  datatype State = State(
    phase: Phase,             // state_
    connected: bool,          // connected_
    retryDelayMs: nat,
    channel: Channel,
    resets: nat,              // posted resetChannel functors
    starts: nat,              // startInLoop calls that are posted or scheduled by retry timers
    created: nat,             // history: how many sockets were created,
    closed: multiset<Sock>,   //          each close,
    handed: multiset<Sock>,   //          each call of connectionCallback_,
    delays: seq<nat>)         //          and the delays of the retries since the last restart

  datatype Action =
    | SetConnected(on: bool)         // the first line of `start` or `stop`, in any thread
    | PostStart                      // the second line of `start`
    | StartInLoop(c: ConnectResult)  // a posted call runs, or a retry timer fires
    | HandleWrite(r: SocketResult)
    | HandleError
    | ResetChannel
    | StopInLoop
    | Restart(c: ConnectResult)

  const INITIAL := State(Disconnected, false, INIT_RETRY_DELAY_MS, NoChannel, 0, 0, 0, multiset{}, multiset{}, [])

  function Min(a: nat, b: nat): nat {
    if b < a then b else a
  }

  function Close(s: State, sock: Sock): State {
    s.(closed := s.closed + multiset{sock})
  }

  function AfterRetry(s: State, sock: Sock): State {
    var t := Close(s, sock).(phase := Disconnected);
    if s.connected then
      t.(starts := s.starts + 1, delays := s.delays + [s.retryDelayMs],
         retryDelayMs := Min(s.retryDelayMs * 2, MAX_RETRY_DELAY_MS))
    else t
  }

  function AfterConnect(s: State, c: ConnectResult): State {
    var t := s.(created := s.created + 1);
    match c
    case Progress => t.(phase := Connecting, channel := Channel(s.created, true))
    case TryAgain => AfterRetry(t, s.created)
    case Failed => Close(t, s.created)
  }

  function AfterStart(s: State, c: ConnectResult): State {
    if s.connected then AfterConnect(s, c) else s
  }

  function AfterRemove(s: State): State
    requires s.channel.Channel?
  {
    s.(channel := s.channel.(registered := false), resets := s.resets + 1)
  }

  function Restarted(s: State): State {
    s.(connected := true, phase := Disconnected, retryDelayMs := INIT_RETRY_DELAY_MS, delays := [])
  }

  /** When a step can happen at all: callbacks belong to a channel, and no null channel is used. */
  predicate Enabled(s: State, a: Action) {
    match a
    case HandleWrite(_) | HandleError => s.channel.Channel?
    case ResetChannel => s.resets > 0
    case StartInLoop(_) => s.starts > 0
    case StopInLoop => s.phase.Connecting? ==> s.channel.Channel?
    case _ => true
  }

  /** The asserts on the way: Connector.cc:38, 86, 87 and 122. */
  predicate AssertsHold(s: State, a: Action) {
    match a
    case StartInLoop(c) => s.phase.Disconnected? && (s.connected && c.Progress? ==> s.channel.NoChannel?)
    case HandleWrite(_) => s.phase.Connecting? || s.phase.Disconnected?
    case Restart(c) => c.Progress? ==> s.channel.NoChannel?
    case _ => true
  }

  function Next(s: State, a: Action): State
    requires Enabled(s, a) && AssertsHold(s, a)
  {
    match a
    case SetConnected(on) => s.(connected := on)
    case PostStart => s.(starts := s.starts + 1)
    case StartInLoop(c) => AfterStart(s.(starts := s.starts - 1), c)
    case HandleWrite(r) =>
      if !s.phase.Connecting? then s
      else
        var t := AfterRemove(s);
        if !r.Established? then AfterRetry(t, s.channel.sock)
        else if s.connected then t.(phase := Connected, handed := s.handed + multiset{s.channel.sock})
        else Close(t, s.channel.sock).(phase := Disconnected)
    case HandleError => if s.phase.Connecting? then AfterRetry(AfterRemove(s), s.channel.sock) else s
    case ResetChannel => s.(channel := NoChannel, resets := s.resets - 1)
    case StopInLoop => if s.phase.Connecting? then AfterRetry(AfterRemove(s), s.channel.sock) else s
    case Restart(c) => AfterStart(Restarted(s), c)
  }

  // ---- Sockets are neither lost nor closed twice ----

  predicate InFlight(s: State, k: Sock) {
    s.channel.Channel? && s.channel.registered && s.channel.sock == k && s.phase.Connecting?
  }

  /** Each created socket is in exactly one place, and exactly once. */
  ghost predicate Conserved(s: State) {
    forall k: Sock :: InOnePlace(s, k)
  }

  predicate InOnePlace(s: State, k: Sock) {
    s.closed[k] + s.handed[k] + (if InFlight(s, k) then 1 else 0) == (if k < s.created then 1 else 0)
  }

  /** A channel is registered exactly while connecting, and has one posted reset exactly afterwards. */
  predicate ChannelInv(s: State) {
    && (s.phase.Connecting? <==> s.channel.Channel? && s.channel.registered)
    && s.resets == if s.channel.Channel? && !s.channel.registered then 1 else 0
  }

  ghost predicate Inv(s: State) {
    Conserved(s) && ChannelInv(s)
  }

  /** `restart` is for a connection that was up and is lost; it must not be called while one is on its way. */
  predicate Careful(s: State, a: Action) {
    a.Restart? ==> !s.phase.Connecting?
  }

  lemma RetryKeepsPlaces(s: State, sock: Sock, k: Sock)
    requires !s.phase.Connecting? || (s.channel.Channel? && !s.channel.registered)
    ensures var n := AfterRetry(s, sock);
            && n.closed[k] == s.closed[k] + (if k == sock then 1 else 0) && n.handed == s.handed
            && n.created == s.created && n.channel == s.channel && n.resets == s.resets && n.phase.Disconnected?
            && !InFlight(n, k)
  {
  }

  lemma StartKeepsPlace(s: State, c: ConnectResult, k: Sock)
    requires ChannelInv(s) && s.phase.Disconnected? && InOnePlace(s, k)
    requires s.connected && c.Progress? ==> s.channel.NoChannel?
    ensures ChannelInv(AfterStart(s, c)) && InOnePlace(AfterStart(s, c), k)
  {
    hide AfterRetry;
    RetryKeepsPlaces(s.(created := s.created + 1), s.created, k);
  }

  lemma StepKeepsPlace(s: State, a: Action, k: Sock)
    requires ChannelInv(s) && InOnePlace(s, k) && Enabled(s, a) && AssertsHold(s, a) && Careful(s, a)
    ensures ChannelInv(Next(s, a)) && InOnePlace(Next(s, a), k)
  {
    hide AfterRetry, AfterStart;
    match a
    case StartInLoop(c) => StartKeepsPlace(s.(starts := s.starts - 1), c, k);
    case Restart(c) => StartKeepsPlace(Restarted(s), c, k);
    case SetConnected(_) =>
    case PostStart =>
    case ResetChannel =>
    case _ =>
      if s.phase.Connecting? {
        RetryKeepsPlaces(AfterRemove(s), s.channel.sock, k);
      }
  }

  lemma StepKeepsInv(s: State, a: Action)
    requires Inv(s) && Enabled(s, a) && AssertsHold(s, a) && Careful(s, a)
    ensures Inv(Next(s, a))
  {
    hide Next, Enabled, AssertsHold, Careful, InFlight, ChannelInv;
    var n := Next(s, a);
    StepKeepsPlace(s, a, 0) by {
      assert InOnePlace(s, 0);
    }
    forall k: Sock ensures InOnePlace(n, k) {
      assert InOnePlace(s, k);
      StepKeepsPlace(s, a, k);
    }
  }

  /** Exactly when `restart` loses a socket: when it is called while connecting, whatever the kernel answers. */
  lemma RestartConserves(s: State, c: ConnectResult)
    requires Inv(s) && AssertsHold(s, Restart(c))
    ensures Conserved(Next(s, Restart(c))) <==> !s.phase.Connecting?
  {
    var n := Next(s, Restart(c));
    if s.phase.Connecting? {
      var k := s.channel.sock;
      assert InFlight(s, k);
      assert InOnePlace(s, k) && !InOnePlace(n, k);
    } else {
      StepKeepsInv(s, Restart(c));
    }
  }

  // ---- What each step does with a socket ----

  /** What a retry leaves: its timer, with the delay, which doubles up to its limit; nothing if the connector was
      stopped. */
  predicate Retried(s: State, n: State) {
    if s.connected then
      && n.starts == s.starts + 1 && n.delays == s.delays + [s.retryDelayMs]
      && n.retryDelayMs == (if s.retryDelayMs * 2 > 30000 then 30000 else s.retryDelayMs * 2)
    else n.starts == s.starts && n.delays == s.delays && n.retryDelayMs == s.retryDelayMs
  }

  /** A writable socket is handed over exactly if it is established and the connector was not stopped. If it is not
      established it is closed and retried, and else closed without a retry. */
  lemma WritableOutcome(s: State, r: SocketResult)
    requires s.phase == Connecting && Enabled(s, HandleWrite(r))
    ensures var n := Next(s, HandleWrite(r));
            var sock := s.channel.sock;
            && (r == Established && s.connected ==>
                  n.phase == Connected && n.handed == s.handed + multiset{sock} && n.closed == s.closed)
            && (r != Established || !s.connected ==>
                  n.phase == Disconnected && n.handed == s.handed && n.closed == s.closed + multiset{sock})
            && (r != Established ==> Retried(s, n))
            && (r == Established ==> n.starts == s.starts && n.delays == s.delays && n.retryDelayMs == s.retryDelayMs)
            && n.channel == Channel(sock, false) && n.resets == s.resets + 1
            && n.created == s.created && n.connected == s.connected
  {
  }

  /** An error event, and stopInLoop, close the socket on its way and retry. */
  lemma FailedOutcome(s: State, a: Action)
    requires s.phase == Connecting && (a == HandleError || a == StopInLoop) && Enabled(s, a)
    ensures var n := Next(s, a);
            var sock := s.channel.sock;
            && n.phase == Disconnected && n.handed == s.handed && n.closed == s.closed + multiset{sock}
            && Retried(s, n) && n.channel == Channel(sock, false) && n.resets == s.resets + 1
            && n.created == s.created && n.connected == s.connected
  {
  }

  /** None of them does anything when no socket is on its way. */
  lemma IdleOutcome(s: State, a: Action)
    requires s.phase != Connecting && Enabled(s, a) && AssertsHold(s, a)
    requires a.HandleWrite? || a == HandleError || a == StopInLoop
    ensures Next(s, a) == s
  {
  }

  /** A start of a connector that is not stopped creates one socket. It is on its way if the kernel says so, closed and
      retried if it is worth it, and closed for good if not. A stopped one does nothing. */
  lemma StartOutcome(s: State, c: ConnectResult)
    requires Enabled(s, StartInLoop(c)) && AssertsHold(s, StartInLoop(c))
    ensures var n := Next(s, StartInLoop(c));
            var t := s.(starts := s.starts - 1);
            var sock := s.created;
            && (!s.connected ==> n == t)
            && (s.connected ==> n.created == s.created + 1 && n.handed == s.handed && n.connected)
            && (s.connected && c == Progress ==>
                  && n.phase == Connecting && n.channel == Channel(sock, true) && n.closed == s.closed
                  && n.starts == t.starts && n.delays == s.delays && n.retryDelayMs == s.retryDelayMs)
            && (s.connected && c == TryAgain ==>
                  && n.phase == Disconnected && n.channel == s.channel && n.closed == s.closed + multiset{sock}
                  && Retried(t, n))
            && (s.connected && c == Failed ==>
                  && n.phase == Disconnected && n.channel == s.channel && n.closed == s.closed + multiset{sock}
                  && n.starts == t.starts && n.delays == s.delays && n.retryDelayMs == s.retryDelayMs)
  {
  }

  /** A restart is such a start, with the first delay again and of a connector that is not stopped. */
  lemma RestartOutcome(s: State, c: ConnectResult)
    requires AssertsHold(s, Restart(c))
    ensures var anew := s.(connected := true, phase := Disconnected, retryDelayMs := 500, delays := [],
                                  starts := s.starts + 1);
            AssertsHold(anew, StartInLoop(c)) && Next(s, Restart(c)) == Next(anew, StartInLoop(c))
  {
  }

  /** The flag, the posted calls and the reset. */
  lemma OtherOutcomes(s: State, on: bool)
    ensures Next(s, SetConnected(on)) == s.(connected := on)
    ensures Next(s, PostStart) == s.(starts := s.starts + 1)
    ensures s.resets > 0 ==> Next(s, ResetChannel) == s.(channel := NoChannel, resets := s.resets - 1)
  {
  }

  // ---- Whole runs ----

  ghost predicate IsStep(s: State, a: Action, n: State) {
    Enabled(s, a) && AssertsHold(s, a) && n == Next(s, a)
  }

  ghost predicate IsRun(states: seq<State>, actions: seq<Action>) {
    && |states| == |actions| + 1 && states[0] == INITIAL
    && (forall i {:trigger actions[i]} :: 0 <= i < |actions| ==> IsStep(states[i], actions[i], states[i + 1]))
  }

  ghost predicate IsCareful(states: seq<State>, actions: seq<Action>) {
    && |states| == |actions| + 1
    && (forall i {:trigger actions[i]} :: 0 <= i < |actions| ==> Careful(states[i], actions[i]))
  }

  lemma {:induction false} RunKeepsInv(states: seq<State>, actions: seq<Action>, n: nat)
    requires IsRun(states, actions) && IsCareful(states, actions) && n < |states|
    ensures Inv(states[n])
  {
    if n > 0 {
      hide Inv;
      RunKeepsInv(states, actions, n - 1);
      assert Careful(states[n - 1], actions[n - 1]) && IsStep(states[n - 1], actions[n - 1], states[n]);
      StepKeepsInv(states[n - 1], actions[n - 1]);
    }
  }

  /** Socket conservation: on every run that keeps the asserts and does not restart while connecting, each created
      socket is in flight, or closed once, or handed over once; and there is one in flight exactly while the state is
      kConnecting. */
  lemma SocketConservation(states: seq<State>, actions: seq<Action>, n: nat, k: Sock)
    requires IsRun(states, actions) && IsCareful(states, actions) && n < |states| && k < states[n].created
    ensures var s := states[n];
            || (InFlight(s, k) && s.closed[k] == 0 && s.handed[k] == 0)
            || (!InFlight(s, k) && s.closed[k] == 1 && s.handed[k] == 0)
            || (!InFlight(s, k) && s.closed[k] == 0 && s.handed[k] == 1)
    ensures states[n].phase.Connecting? <==> exists j :: InFlight(states[n], j)
  {
    RunKeepsInv(states, actions, n);
    var s := states[n];
    assert InOnePlace(s, k);
    if s.phase.Connecting? {
      assert InFlight(s, s.channel.sock);
    }
  }

  lemma ExtendRun(states: seq<State>, actions: seq<Action>, a: Action) returns (longer: seq<State>)
    requires IsRun(states, actions) && Enabled(states[|actions|], a) && AssertsHold(states[|actions|], a)
    ensures longer == states + [Next(states[|actions|], a)] && |longer| == |actions| + 2
    ensures IsRun(longer, actions + [a])
    ensures IsCareful(states, actions) && Careful(states[|actions|], a) ==> IsCareful(longer, actions + [a])
  {
    hide Next, Enabled, AssertsHold, Careful;
    longer := states + [Next(states[|actions|], a)];
    forall i {:trigger (actions + [a])[i]} | 0 <= i < |actions| + 1
      ensures IsStep(longer[i], (actions + [a])[i], longer[i + 1])
      ensures IsCareful(states, actions) && Careful(states[|actions|], a) ==>
                Careful(longer[i], (actions + [a])[i])
    {
      if i < |actions| {
        assert actions[i] == (actions + [a])[i];
      }
    }
  }

  /** A socket on its way. */
  lemma IntoConnecting() returns (states: seq<State>, actions: seq<Action>)
    ensures IsRun(states, actions) && |actions| == 3 && |states| == 4
    ensures var s := states[3];
            && s.phase.Connecting? && s.channel == Channel(0, true) && s.created == 1
            && s.closed == s.handed == multiset{}
  {
    states, actions := [INITIAL], [];
    states := ExtendRun(states, actions, SetConnected(true));
    actions := actions + [SetConnected(true)];
    states := ExtendRun(states, actions, PostStart);
    actions := actions + [PostStart];
    states := ExtendRun(states, actions, StartInLoop(Progress));
    actions := actions + [StartInLoop(Progress)];
  }

  /** A run that keeps every assert and loses its first socket: a restart while connecting, answered with a retry. */
  lemma RestartLosesSocket()
    ensures exists states: seq<State>, actions: seq<Action> ::
              IsRun(states, actions) && |actions| == 4 && actions[3].Restart? && states[3].phase.Connecting?
              && states[4].created == 2 && states[4].closed[0] == 0 && states[4].handed[0] == 0
              && !InFlight(states[4], 0)
  {
    var states, actions := IntoConnecting();
    hide IsRun;
    states := ExtendRun(states, actions, Restart(TryAgain));
    actions := actions + [Restart(TryAgain)];
    assert IsRun(states, actions);
  }

  /** Step j found socket k established, on its way, and the connector not stopped. */
  predicate EstablishedAt(s: State, a: Action, k: Sock) {
    a == HandleWrite(Established) && InFlight(s, k) && s.connected
  }

  lemma HandedStep(s: State, a: Action, k: Sock)
    requires Inv(s) && Enabled(s, a) && AssertsHold(s, a) && Careful(s, a)
    ensures Next(s, a).handed[k] == s.handed[k] + (if EstablishedAt(s, a, k) then 1 else 0)
  {
  }

  /** On every such run: exactly the sockets are handed over that were found established. */
  lemma {:induction false} HandedExactly(states: seq<State>, actions: seq<Action>, n: nat, k: Sock)
    requires IsRun(states, actions) && IsCareful(states, actions) && n < |states|
    ensures states[n].handed[k] > 0 <==>
            exists j {:trigger actions[j]} :: 0 <= j < n && EstablishedAt(states[j], actions[j], k)
  {
    hide Next, EstablishedAt, Inv;
    if n > 0 {
      var s, a := states[n - 1], actions[n - 1];
      RunKeepsInv(states, actions, n - 1);
      assert Careful(s, a) && IsStep(s, a, states[n]);
      HandedStep(s, a, k);
      HandedExactly(states, actions, n - 1, k);
    }
  }

  /** Step k was the last to set the flag, and set it. */
  predicate WantedSince(actions: seq<Action>, k: nat, n: nat)
    requires n <= |actions|
  {
    && k < n && (actions[k] == SetConnected(true) || actions[k].Restart?)
    && forall j :: k < j < n ==> actions[j] != SetConnected(false)
  }

  /** On every run: connected_ is set exactly if start or restart set it and no stop cleared it since. */
  lemma {:induction false} ConnectedExactly(states: seq<State>, actions: seq<Action>, n: nat)
    requires IsRun(states, actions) && n < |states|
    ensures states[n].connected <==> exists k: nat :: WantedSince(actions, k, n)
  {
    if n > 0 {
      var m: nat := n - 1;
      assert IsStep(states[m], actions[m], states[n]);
      ConnectedStep(states[m], actions[m]);
      ConnectedExactly(states, actions, m);
      hide Next, Enabled, AssertsHold;
      if actions[m] == SetConnected(true) || actions[m].Restart? {
        assert WantedSince(actions, m, n);
      } else if states[n].connected {
        var k: nat :| WantedSince(actions, k, m);
        assert WantedSince(actions, k, n);
      }
      if k: nat :| WantedSince(actions, k, n) {
        assert k < m ==> WantedSince(actions, k, m);
      }
    }
  }

  lemma ConnectedStep(s: State, a: Action)
    requires Enabled(s, a) && AssertsHold(s, a)
    ensures Next(s, a).connected <==>
            a == SetConnected(true) || a.Restart? || (s.connected && a != SetConnected(false))
  {
  }

  // ---- Retry delays ----

  function Pow2(k: nat): nat {
    if k == 0 then 1 else 2 * Pow2(k - 1)
  }

  /** The delay of a retry that follows k others. */
  function Delay(k: nat): nat {
    Min(500 * Pow2(k), 30000)
  }

  predicate DelaysInv(s: State) {
    s.retryDelayMs == Delay(|s.delays|) && forall k :: 0 <= k < |s.delays| ==> s.delays[k] == Delay(k)
  }

  lemma StepKeepsDelays(s: State, a: Action)
    requires DelaysInv(s) && Enabled(s, a) && AssertsHold(s, a)
    ensures DelaysInv(Next(s, a))
  {
    assert Pow2(|s.delays| + 1) == 2 * Pow2(|s.delays|);
    assert Delay(0) == INIT_RETRY_DELAY_MS;
  }

  /** On every run: the delay after k retries since the last restart is min(500 * 2^k, 30000) milliseconds. */
  lemma {:induction false} DelaysDouble(states: seq<State>, actions: seq<Action>, n: nat)
    requires IsRun(states, actions) && n < |states|
    ensures states[n].retryDelayMs == Min(500 * Pow2(|states[n].delays|), 30000)
    ensures forall k :: 0 <= k < |states[n].delays| ==> states[n].delays[k] == Min(500 * Pow2(k), 30000)
  {
    if n > 0 {
      DelaysDouble(states, actions, n - 1);
      assert IsStep(states[n - 1], actions[n - 1], states[n]);
      StepKeepsDelays(states[n - 1], actions[n - 1]);
    }
  }

  // ---- The assert of startInLoop ----

  /** The assert that the state is kDisconnected fails when the next pending startInLoop runs. */
  predicate StartAsserts(s: State) {
    s.starts > 0 ==> s.phase.Disconnected?
  }

  /** Steps that no caller asks for. */
  predicate IsOwnStep(a: Action) {
    a.StartInLoop? || a.HandleWrite? || a.HandleError? || a.ResetChannel? || a.StopInLoop?
  }

  /** At most one attempt to connect is pending, under way or handed over, or the connector is stopped and idle. */
  predicate OneAttempt(s: State) {
    s.starts + (if s.phase.Disconnected? then 0 else 1) <= 1 || (s.phase.Disconnected? && !s.connected)
  }

  lemma OwnStepKeepsOneAttempt(s: State, a: Action)
    requires OneAttempt(s) && IsOwnStep(a) && Enabled(s, a) && AssertsHold(s, a)
    ensures OneAttempt(Next(s, a))
  {
  }

  /** A continuation without calls from outside that keeps its asserts and ends where the next one fails. */
  ghost predicate FailsAfter(s: State, states: seq<State>, actions: seq<Action>) {
    && |states| == |actions| + 1 && states[0] == s && !StartAsserts(states[|actions|])
    && (forall i {:trigger actions[i]} :: 0 <= i < |actions| ==>
          IsOwnStep(actions[i]) && IsStep(states[i], actions[i], states[i + 1]))
  }

  lemma {:induction false} OwnStepsKeepOneAttempt(s: State, states: seq<State>, actions: seq<Action>, n: nat)
    requires FailsAfter(s, states, actions) && OneAttempt(s) && n <= |actions|
    ensures OneAttempt(states[n])
  {
    hide OneAttempt, StartAsserts;
    if n > 0 {
      OwnStepsKeepOneAttempt(s, states, actions, n - 1);
      assert IsOwnStep(actions[n - 1]) && IsStep(states[n - 1], actions[n - 1], states[n]);
      OwnStepKeepsOneAttempt(states[n - 1], actions[n - 1]);
    }
  }

  lemma TwoAttemptsFail(s: State) returns (states: seq<State>, actions: seq<Action>)
    requires ChannelInv(s) && !OneAttempt(s)
    ensures FailsAfter(s, states, actions)
  {
    states, actions := [s], [];
    if s.phase.Disconnected? {
      if s.channel.Channel? {
        states, actions := [s, Next(s, ResetChannel)], [ResetChannel];
      }
      var last := states[|actions|];
      states, actions := states + [Next(last, StartInLoop(Progress))], actions + [StartInLoop(Progress)];
    }
  }

  /** The exact condition for the assert of startInLoop: without further calls from outside, some course of events fails
      it if and only if there is more than one attempt. */
  lemma StartAssertFailsExactly(s: State)
    requires ChannelInv(s)
    ensures !OneAttempt(s) <==> exists states: seq<State>, actions: seq<Action> :: FailsAfter(s, states, actions)
  {
    if !OneAttempt(s) {
      var states, actions := TwoAttemptsFail(s);
    }
    forall states: seq<State>, actions: seq<Action> | FailsAfter(s, states, actions) ensures !OneAttempt(s) {
      if OneAttempt(s) {
        OwnStepsKeepOneAttempt(s, states, actions, |actions|);
        assert false;
      }
    }
  }

  /** start, a refused connect, and stop: the retry timer is still running. */
  lemma StoppedAfterRefusal() returns (states: seq<State>, actions: seq<Action>)
    ensures IsRun(states, actions) && IsCareful(states, actions) && |states| == |actions| + 1
    ensures var s := states[|actions|];
            s.starts == 1 && s.phase.Disconnected? && !s.connected && s.channel.NoChannel?
  {
    states, actions := [INITIAL], [];
    states := ExtendRun(states, actions, SetConnected(true));
    actions := actions + [SetConnected(true)];
    states := ExtendRun(states, actions, PostStart);
    actions := actions + [PostStart];
    states := ExtendRun(states, actions, StartInLoop(TryAgain));
    actions := actions + [StartInLoop(TryAgain)];
    states := ExtendRun(states, actions, SetConnected(false));
    actions := actions + [SetConnected(false)];
  }

  /** A run of ordinary calls that fails it: start, a refused connect, stop and start, and the old retry timer fires
      while the new attempt is under way. */
  lemma StartAgainFails()
    ensures exists states: seq<State>, actions: seq<Action> ::
              && IsRun(states, actions) && IsCareful(states, actions)
              && states[|actions|].phase.Connecting? && !StartAsserts(states[|actions|])
  {
    var states, actions := StoppedAfterRefusal();
    hide IsRun, IsCareful;
    states := ExtendRun(states, actions, SetConnected(true));
    actions := actions + [SetConnected(true)];
    states := ExtendRun(states, actions, PostStart);
    actions := actions + [PostStart];
    states := ExtendRun(states, actions, StartInLoop(Progress));
    actions := actions + [StartInLoop(Progress)];
  }

  // ---- Stopping ----

  predicate Starts(a: Action) {
    a.Restart? || a == SetConnected(true)
  }

  /** After `stop`, and until the next `start` or `restart`: no socket is created or handed over and no retry is
      scheduled; and once `stopInLoop` has run, every socket has been closed or had been handed over. */
  lemma {:induction false} StopIsFinal(states: seq<State>, actions: seq<Action>, i: nat, n: nat)
    requires IsRun(states, actions) && i < n < |states| && actions[i] == SetConnected(false)
    requires forall j :: i <= j < n ==> !Starts(actions[j])
    ensures !states[n].connected
    ensures states[n].created == states[i].created && states[n].handed == states[i].handed
    ensures states[n].delays == states[i].delays
    ensures StopInLoop in actions[i..n] ==> !states[n].phase.Connecting?
    decreases n
  {
    assert IsStep(states[n - 1], actions[n - 1], states[n]);
    StoppedStep(states[n - 1], actions[n - 1]);
    hide Next, Enabled, AssertsHold;
    if i < n - 1 {
      StopIsFinal(states, actions, i, n - 1);
      assert actions[i..n] == actions[i..n - 1] + [actions[n - 1]];
    }
  }

  lemma StoppedStep(s: State, a: Action)
    requires Enabled(s, a) && AssertsHold(s, a) && !Starts(a)
    ensures var n := Next(s, a);
            && (!s.connected || a == SetConnected(false) ==>
                  !n.connected && n.created == s.created && n.handed == s.handed && n.delays == s.delays
                  && (!s.phase.Connecting? || a == StopInLoop ==> !n.phase.Connecting?))
  {
  }

  class Connector {
    var phase: Phase
    var connected: bool
    var retryDelayMs: nat
    var channel: Channel
    var resets: nat
    ghost var starts: nat
    var created: nat
    ghost var closed: multiset<Sock>
    ghost var handed: multiset<Sock>
    ghost var delays: seq<nat>

    ghost function Model(): State
      reads this
    {
      State(phase, connected, retryDelayMs, channel, resets, starts, created, closed, handed, delays)
    }

    constructor ()
      ensures Model() == INITIAL
    {
      phase, connected, retryDelayMs, channel := Disconnected, false, INIT_RETRY_DELAY_MS, NoChannel;
      resets, starts, created, closed, handed, delays := 0, 0, 0, multiset{}, multiset{}, [];
    }

    method CloseSocket(sock: Sock)
      modifies this`closed
      ensures Model() == Close(old(Model()), sock)
    {
      closed := closed + multiset{sock};
    }

    /** `start` in the loop thread. */
    method Start(c: ConnectResult)
      requires AssertsHold(Model().(connected := true), StartInLoop(c))
      modifies this
      ensures Model() == Next(Next(Next(old(Model()), SetConnected(true)), PostStart), StartInLoop(c))
    {
      connected := true;
      RunStart(c);
    }

    /** A posted startInLoop, or one whose retry timer fires. */
    method RunPendingStart(c: ConnectResult)
      requires Enabled(Model(), StartInLoop(c)) && AssertsHold(Model(), StartInLoop(c))
      modifies this
      ensures Model() == Next(old(Model()), StartInLoop(c))
    {
      starts := starts - 1;
      RunStart(c);
    }

    /** The body of startInLoop. */
    method RunStart(c: ConnectResult)
      requires AssertsHold(Model(), StartInLoop(c))
      modifies this
      ensures Model() == AfterStart(old(Model()), c)
    {
      if connected {
        Connect(c);
      }
    }

    method Connect(c: ConnectResult)
      requires connected && (c.Progress? ==> channel.NoChannel?)
      modifies this
      ensures Model() == AfterConnect(old(Model()), c)
    {
      var sock := created;
      created := created + 1;
      match c
      case Progress => StartConnecting(sock);
      case TryAgain => Retry(sock);
      case Failed => CloseSocket(sock);
    }

    method StartConnecting(sock: Sock)
      requires connected && channel.NoChannel?
      modifies this`phase, this`channel
      ensures phase == Connecting && channel == Channel(sock, true)
    {
      phase := Connecting;
      channel := Channel(sock, true);
    }

    method RemoveAndResetChannel() returns (sock: Sock)
      requires channel.Channel?
      modifies this`channel, this`resets
      ensures Model() == AfterRemove(old(Model())) && sock == old(channel.sock)
    {
      sock := channel.sock;
      channel := channel.(registered := false);
      resets := resets + 1;
    }

    method RunReset()
      requires Enabled(Model(), ResetChannel)
      modifies this`channel, this`resets
      ensures Model() == Next(old(Model()), ResetChannel)
    {
      channel := NoChannel;
      resets := resets - 1;
    }

    method Retry(sock: Sock)
      modifies this`phase, this`retryDelayMs, this`closed, this`delays, this`starts
      ensures Model() == AfterRetry(old(Model()), sock)
    {
      CloseSocket(sock);
      phase := Disconnected;
      if connected {
        starts := starts + 1;
        delays := delays + [retryDelayMs];
        retryDelayMs := Min(retryDelayMs * 2, MAX_RETRY_DELAY_MS);
      }
    }

    method OnWritable(r: SocketResult)
      requires Enabled(Model(), HandleWrite(r)) && AssertsHold(Model(), HandleWrite(r))
      modifies this
      ensures Model() == Next(old(Model()), HandleWrite(r))
    {
      if phase.Connecting? {
        var sock := RemoveAndResetChannel();
        if r.SocketError? {
          Retry(sock);
        } else if r.SelfConnect? {
          Retry(sock);
        } else if connected {
          phase := Connected;
          handed := handed + multiset{sock};
        } else {
          CloseSocket(sock);
          phase := Disconnected;
        }
      }
    }

    method OnError()
      requires Enabled(Model(), HandleError)
      modifies this
      ensures Model() == Next(old(Model()), HandleError)
    {
      if phase.Connecting? {
        var sock := RemoveAndResetChannel();
        Retry(sock);
      }
    }

    method Stop()
      requires Enabled(Model(), StopInLoop)
      modifies this
      ensures Model() == Next(old(Model()).(connected := false), StopInLoop)
    {
      connected := false;
      RunStop();
    }

    method RunStop()
      requires Enabled(Model(), StopInLoop)
      modifies this
      ensures Model() == Next(old(Model()), StopInLoop)
    {
      if phase.Connecting? {
        phase := Disconnected;
        var sock := RemoveAndResetChannel();
        Retry(sock);
      }
    }

    method RunRestart(c: ConnectResult)
      requires AssertsHold(Model(), Restart(c))
      modifies this
      ensures Model() == Next(old(Model()), Restart(c))
    {
      connected := true;
      phase := Disconnected;
      retryDelayMs, delays := INIT_RETRY_DELAY_MS, [];
      RunStart(c);
    }
  }
}
