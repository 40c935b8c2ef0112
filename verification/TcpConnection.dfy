/**
 The output path of a connection (arale/net/TcpConnection.cc, arale/net/Channel.h): direct writes,
 partial writes, the buffered remainder, write interest and the delayed half-close. All steps run
 in the loop thread; system call results are parameters.
 */
module TcpConnection {
  import opened Bytes
  import B = Buffer

  datatype ConnState = Connecting | Connected | Disconnecting | Disconnected

  datatype Interest = Read | Write

  /** `disableWrite`: as written it masks with the write bit instead of its complement. */
  function DisableWrite(mask: Form, events: set<Interest>): set<Interest> {
    match mask
    case AsWritten => events * {Write}
    case Intended => events - {Write}
  }

  /** What write(2) returned. */
  datatype WriteResult = Wrote(n: nat) | WouldBlock | Failed(reset: bool)  // reset: EPIPE or ECONNRESET

  /** What the connection did to its socket, and the callbacks it posted. */
  datatype Event = Sent(bytes: seq<byte>) | HalfClosed | WriteComplete | HighWater(size: nat)

  /** The lines with two readings, and the settings that do not change. `rest` is the append of what a
      direct write left over: as written it copies from the start of the data. */
  datatype Config = Config(mask: Form, rest: Form, completeCallback: bool, highWaterCallback: bool, highWaterMark: nat)

  datatype Conn = Conn(
    state: ConnState,
    events: set<Interest>,   // the channel's interest
    reading: bool,
    output: seq<byte>,       // contents of outputBuffer_
    trace: seq<Event>,
    accepted: seq<byte>,     // the data of every send that was not refused or dropped
    asked: bool,             // shutdown() took effect
    buffered: bool)          // some send left a remainder

  predicate IsWriting(c: Conn) { Write in c.events }

  /** Whether `sendInLoop` tries to write before it buffers. */
  predicate WritesDirectly(c: Conn) {
    !IsWriting(c) && c.output == []
  }

  predicate Possible(r: WriteResult, len: nat) {
    r.Wrote? ==> r.n <= len
  }

  function Dropped(c: Conn, r: WriteResult): bool {
    WritesDirectly(c) && r == Failed(true)
  }

  /** How much a direct write sends at once. */
  function SentAtOnce(c: Conn, r: WriteResult): nat {
    if WritesDirectly(c) && r.Wrote? then r.n else 0
  }

  /** The bytes that `sendInLoop` buffers after `n` bytes were written directly. */
  function Remainder(rest: Form, data: seq<byte>, n: nat): (s: seq<byte>)
    requires n <= |data|
    ensures |s| == |data| - n
  {
    match rest
    case AsWritten => data[..|data| - n]
    case Intended => data[n..]
  }

  /** A direct write and the callback it posts if it took everything. */
  function DirectEvents(g: Config, c: Conn, data: seq<byte>, r: WriteResult): seq<Event>
    requires Possible(r, |data|)
  {
    if WritesDirectly(c) && r.Wrote? then
      [Sent(data[..r.n])] + (if r.n == |data| && g.completeCallback then [WriteComplete] else [])
    else []
  }

  /** The callback posted when buffering takes the buffer over the mark. */
  function QueueEvents(g: Config, having: nat, left: nat): seq<Event> {
    if having < g.highWaterMark && having + left >= g.highWaterMark && g.highWaterCallback
    then [HighWater(having + left)] else []
  }

  /** The write and the callbacks of one `sendInLoop`. */
  function SendEvents(g: Config, c: Conn, data: seq<byte>, r: WriteResult): seq<Event>
    requires Possible(r, |data|)
  {
    var left := |data| - SentAtOnce(c, r);
    if Dropped(c, r) || left == 0 then DirectEvents(g, c, data, r)
    else DirectEvents(g, c, data, r) + QueueEvents(g, |c.output|, left)
  }

  function AfterSend(g: Config, c: Conn, data: seq<byte>, r: WriteResult): Conn
    requires Possible(r, |data|)
  {
    var n := SentAtOnce(c, r);
    var c1 := c.(trace := c.trace + SendEvents(g, c, data, r));
    if Dropped(c, r) then c1
    else if n == |data| then c1.(accepted := c.accepted + data)
    else c1.(output := c.output + Remainder(g.rest, data, n), events := c.events + {Write},
             accepted := c.accepted + data, buffered := true)
  }

  function AfterShutdown(c: Conn): Conn {
    if IsWriting(c) then c else c.(trace := c.trace + [HalfClosed])
  }

  function AfterWrite(g: Config, c: Conn, r: WriteResult): Conn
    requires Possible(r, |c.output|)
  {
    if IsWriting(c) && r.Wrote? && r.n > 0 then
      var c1 := c.(trace := c.trace + [Sent(c.output[..r.n])], output := c.output[r.n..]);
      if c1.output != [] then c1
      else
        var c2 := c1.(events := DisableWrite(g.mask, c.events),
                      trace := c1.trace + (if g.completeCallback then [WriteComplete] else []));
        if c.state.Disconnecting? then AfterShutdown(c2) else c2
    else c
  }

  function AfterClose(c: Conn): Conn {
    c.(state := Disconnected, events := {})
  }

  // ---- Steps of the loop thread ----

  datatype Action =
    | Establish | Send(data: seq<byte>, r: WriteResult) | WriteReady(r: WriteResult) | Shutdown
    | Close | Destroy | ForceClose | ForceCloseLater | StartRead | StopRead

  /** The asserts of the operations, and system calls that keep their promises. */
  predicate Enabled(c: Conn, a: Action) {
    match a
    case Establish => c.state.Connecting?
    case Send(data, r) => Possible(r, |data|)
    case WriteReady(r) => Possible(r, |c.output|)
    case Close => c.state.Connected? || c.state.Disconnecting?
    case StartRead => c.state.Connected?
    case StopRead => c.state.Connected?
    case _ => true
  }

  function Next(g: Config, c: Conn, a: Action): Conn
    requires Enabled(c, a)
  {
    match a
    case Establish => c.(state := Connected, events := c.events + {Read})
    case Send(data, r) => if c.state.Connected? then AfterSend(g, c, data, r) else c
    case WriteReady(r) => AfterWrite(g, c, r)
    case Shutdown => if c.state.Connected? then AfterShutdown(c.(state := Disconnecting, asked := true)) else c
    case Close => AfterClose(c)
    case Destroy => if c.state.Connected? then AfterClose(c) else c
    case ForceClose => if c.state.Connected? || c.state.Disconnecting? then AfterClose(c) else c
    case ForceCloseLater => if c.state.Connected? || c.state.Disconnecting? then c.(state := Disconnecting) else c
    case StartRead => c.(reading := true, events := c.events + {Read})
    case StopRead => c.(reading := false, events := c.events - {Read})
  }

  function Initial(): Conn {
    Conn(Connecting, {}, false, [], [], [], false, false)
  }

  // ---- The trace ----

  /** All bytes written to the socket, in order. */
  function Written(trace: seq<Event>): seq<byte> {
    if trace == [] then []
    else
      var last := trace[|trace| - 1];
      Written(trace[..|trace| - 1]) + (if last.Sent? then last.bytes else [])
  }

  lemma {:induction false} WrittenConcat(trace: seq<Event>, more: seq<Event>)
    ensures Written(trace + more) == Written(trace) + Written(more)
  {
    if more == [] {
      assert trace + more == trace;
    } else {
      var front, last := more[..|more| - 1], more[|more| - 1];
      var bytes := if last.Sent? then last.bytes else [];
      WrittenConcat(trace, front);
      assert (trace + more)[..|trace + more| - 1] == trace + front;
      assert Written(trace) + Written(front) + bytes == Written(trace) + (Written(front) + bytes);
    }
  }

  lemma WrittenOne(e: Event)
    ensures Written([e]) == if e.Sent? then e.bytes else []
  {
    assert [e][..0] == [];
  }

  /** Events that write nothing can be left out. */
  lemma WrittenQuiet(trace: seq<Event>, e: Event)
    requires !e.Sent?
    ensures Written(trace + [e]) == Written(trace)
  {
    WrittenConcat(trace, [e]);
    WrittenOne(e);
  }

  /** Written to the socket or waiting in the buffer. */
  function Outgoing(c: Conn): seq<byte> {
    Written(c.trace) + c.output
  }

  // ---- Conservation of bytes ----

  predicate HasPeriod(data: seq<byte>, n: nat) {
    forall i :: n <= i < |data| ==> data[i] == data[i - n]
  }

  /** The send does not lose bytes: the remainder is copied as intended, or the direct write took nothing
      or everything, or the data happens to repeat itself. */
  predicate KeepsBytes(g: Config, c: Conn, a: Action)
  {
    a.Send? && c.state.Connected? && g.rest.AsWritten? ==>
      var n := SentAtOnce(c, a.r);
      n == 0 || n == |a.data| || HasPeriod(a.data, n)
  }

  lemma RemainderIsRest(rest: Form, data: seq<byte>, n: nat)
    requires n <= |data|
    ensures data[..n] + Remainder(rest, data, n) == data <==>
            rest.Intended? || n == 0 || n == |data| || HasPeriod(data, n)
  {
    var s := data[..n] + Remainder(rest, data, n);
    if rest.AsWritten? {
      assert forall i :: n <= i < |data| ==> s[i] == data[i - n];
      if s == data {
        assert forall i :: n <= i < |data| ==> data[i] == s[i];
      }
    }
  }

  lemma SendWrites(g: Config, c: Conn, data: seq<byte>, r: WriteResult)
    requires Possible(r, |data|)
    ensures Written(SendEvents(g, c, data, r)) == data[..SentAtOnce(c, r)]
  {
    var n := SentAtOnce(c, r);
    var left := |data| - n;
    var direct, queue := DirectEvents(g, c, data, r), QueueEvents(g, |c.output|, left);
    assert Written(direct) == data[..n] by {
      if WritesDirectly(c) && r.Wrote? {
        WrittenOne(Sent(data[..n]));
        WrittenQuiet([Sent(data[..n])], WriteComplete);
        assert direct == [Sent(data[..n])] || direct == [Sent(data[..n])] + [WriteComplete];
      }
    }
    assert Written(queue) == [] by { WrittenOne(HighWater(|c.output| + left)); }
    WrittenConcat(direct, queue);
    assert Written(direct) + [] == Written(direct);
  }

  /** What one send adds to the outgoing bytes, next to the data it accepts. */
  lemma SendAdds(g: Config, c: Conn, data: seq<byte>, r: WriteResult)
    requires Possible(r, |data|)
    ensures var c' := AfterSend(g, c, data, r);
            var n := SentAtOnce(c, r);
            if Dropped(c, r) then Outgoing(c') == Outgoing(c) && c'.accepted == c.accepted
            else Outgoing(c') == Outgoing(c) + (data[..n] + Remainder(g.rest, data, n)) &&
                 c'.accepted == c.accepted + data
  {
    hide SendEvents, Written;
    var n := SentAtOnce(c, r);
    var rem := Remainder(g.rest, data, n);
    SendWrites(g, c, data, r);
    WrittenConcat(c.trace, SendEvents(g, c, data, r));
    if n == 0 {
      assert Written(c.trace) + data[..n] == Written(c.trace);
      assert data[..n] + rem == rem;
      assert Written(c.trace) + (c.output + rem) == Outgoing(c) + rem;
      assert |data| == 0 ==> rem == [] && Outgoing(c) + rem == Outgoing(c);
    } else {
      assert Outgoing(c) == Written(c.trace);
      assert Written(c.trace) + data[..n] + rem == Outgoing(c) + (data[..n] + rem);
      assert [] + rem == rem && Written(c.trace) + data[..n] + [] == Written(c.trace) + data[..n];
    }
  }

  lemma HandleWriteMoves(g: Config, c: Conn, r: WriteResult)
    requires Possible(r, |c.output|)
    ensures Outgoing(AfterWrite(g, c, r)) == Outgoing(c) && AfterWrite(g, c, r).accepted == c.accepted
  {
    hide Written;
    if IsWriting(c) && r.Wrote? && r.n > 0 {
      var sent := Sent(c.output[..r.n]);
      var t := c.trace + [sent];
      WrittenConcat(c.trace, [sent]);
      WrittenOne(sent);
      WrittenQuiet(t, WriteComplete);
      WrittenQuiet(t, HalfClosed);
      WrittenQuiet(t + [WriteComplete], HalfClosed);
      assert t + [] == t;
      assert c.output == c.output[..r.n] + c.output[r.n..];
      assert Written(c.trace) + c.output[..r.n] + c.output[r.n..] == Outgoing(c);
    }
  }

  /** Every step extends the outgoing bytes and the accepted bytes by equally much; by the same bytes
      exactly when the step is not a send that loses bytes. */
  lemma StepAdds(g: Config, c: Conn, a: Action) returns (stored: seq<byte>, taken: seq<byte>)
    requires Enabled(c, a)
    ensures Outgoing(Next(g, c, a)) == Outgoing(c) + stored
    ensures Next(g, c, a).accepted == c.accepted + taken
    ensures |stored| == |taken| && (stored == taken <==> KeepsBytes(g, c, a))
  {
    hide Written, AfterSend, AfterWrite;
    stored, taken := [], [];
    assert Outgoing(c) + [] == Outgoing(c) && c.accepted + [] == c.accepted;
    if a.Send? && c.state.Connected? {
      SendAdds(g, c, a.data, a.r);
      if !Dropped(c, a.r) {
        var n := SentAtOnce(c, a.r);
        stored, taken := a.data[..n] + Remainder(g.rest, a.data, n), a.data;
        RemainderIsRest(g.rest, a.data, n);
      }
    } else if a.WriteReady? {
      HandleWriteMoves(g, c, a.r);
    } else if a.Shutdown? {
      WrittenQuiet(c.trace, HalfClosed);
    }
  }

  // ---- Whole runs ----

  ghost predicate IsRun(g: Config, conns: seq<Conn>, actions: seq<Action>) {
    && |conns| == |actions| + 1 && conns[0] == Initial()
    && forall i {:trigger actions[i]} :: 0 <= i < |actions| ==>
         Enabled(conns[i], actions[i]) && conns[i + 1] == Next(g, conns[i], actions[i])
  }

  lemma {:induction false} OutgoingLength(g: Config, conns: seq<Conn>, actions: seq<Action>, n: nat)
    requires IsRun(g, conns, actions) && n < |conns|
    ensures |Outgoing(conns[n])| == |conns[n].accepted|
  {
    if n > 0 {
      OutgoingLength(g, conns, actions, n - 1);
      var stored, taken := StepAdds(g, conns[n - 1], actions[n - 1]);
    }
  }

  /** On every run: written ++ buffered is exactly the accepted data in order, if and only if no send on the
      way was one that loses bytes. */
  lemma {:induction false} BytesConserved(g: Config, conns: seq<Conn>, actions: seq<Action>, n: nat)
    requires IsRun(g, conns, actions) && n < |conns|
    ensures Written(conns[n].trace) + conns[n].output == conns[n].accepted
            <==> forall i :: 0 <= i < n ==> KeepsBytes(g, conns[i], actions[i])
  {
    hide Written, Next, KeepsBytes, Enabled;
    if n == 0 {
      assert Outgoing(Initial()) == [] by { EmptyTrace(); }
    } else {
      BytesConserved(g, conns, actions, n - 1);
      OutgoingLength(g, conns, actions, n - 1);
      var stored, taken := StepAdds(g, conns[n - 1], actions[n - 1]);
      var q, p := Outgoing(conns[n - 1]), conns[n - 1].accepted;
      SameLengthConcat(q, stored, p, taken);
    }
  }

  lemma EmptyTrace()
    ensures Written([]) == []
  {
  }

  lemma SameLengthConcat(q: seq<byte>, s: seq<byte>, p: seq<byte>, t: seq<byte>)
    requires |q| == |p| && |s| == |t|
    ensures q + s == p + t <==> q == p && s == t
  {
    if q + s == p + t {
      assert q == (q + s)[..|q|] && p == (p + t)[..|p|];
      assert s == (q + s)[|q|..] && t == (p + t)[|p|..];
    }
  }

  /** Copying the remainder from where the direct write stopped, every run conserves the bytes. */
  lemma IntendedConserves(g: Config, conns: seq<Conn>, actions: seq<Action>, n: nat)
    requires IsRun(g, conns, actions) && n < |conns| && g.rest.Intended?
    ensures Written(conns[n].trace) + conns[n].output == conns[n].accepted
  {
    BytesConserved(g, conns, actions, n);
  }

  /** As written, a partial direct write of two different bytes loses the second one. */
  lemma PartialWriteLosesBytes(g: Config)
    requires g.rest.AsWritten?
    ensures var c := Next(g, Initial(), Establish);
            var a := Send([1, 2], Wrote(1));
            Enabled(c, a) && !KeepsBytes(g, c, a) && Next(g, c, a).output == [1]
  {
    var c := Next(g, Initial(), Establish);
    assert !HasPeriod([1, 2], 1) by { assert [1, 2][1] != [1, 2][0]; }
    assert [] + [1, 2][..1] == [1];
  }

  // ---- What each send does ----

  /** A send on a connection that is not up for it does nothing. */
  lemma SendUnconnected(g: Config, c: Conn, data: seq<byte>, r: WriteResult)
    requires Possible(r, |data|) && c.state != Connected
    ensures Next(g, c, Send(data, r)) == c
  {
  }

  /** With data queued or write interest, the data is queued behind, whatever the kernel would have said. */
  lemma SendQueues(g: Config, c: Conn, data: seq<byte>, r: WriteResult)
    requires Possible(r, |data|) && c.state == Connected && (Write in c.events || c.output != [])
    ensures var n := Next(g, c, Send(data, r));
            && n.output == c.output + data && n.accepted == c.accepted + data
            && n.events == (if data == [] then c.events else c.events + {Write})
            && n.trace == c.trace + (if g.highWaterCallback && data != [] && |c.output| < g.highWaterMark
                                        && |c.output| + |data| >= g.highWaterMark
                                     then [HighWater(|c.output| + |data|)] else [])
  {
    assert data[..|data|] == data && data[0..] == data && c.output + [] == c.output;
    assert c.trace + [] == c.trace;
  }

  /** Otherwise it is written at once. What the kernel took is sent, what it left is queued (which part of the data that
      is depends on the reading of the append), and the two callbacks are posted exactly in their cases. */
  lemma SendWritesDirectly(g: Config, c: Conn, data: seq<byte>, k: nat)
    requires k <= |data| && c.state == Connected && Write !in c.events && c.output == []
    ensures var n := Next(g, c, Send(data, Wrote(k)));
            && n.accepted == c.accepted + data
            && n.output == (if g.rest.Intended? then data[k..] else data[..|data| - k])
            && n.events == (if k == |data| then c.events else c.events + {Write})
            && n.trace == c.trace + [Sent(data[..k])]
                          + (if k == |data| && g.completeCallback then [WriteComplete] else [])
                          + (if k < |data| && g.highWaterCallback && g.highWaterMark > 0
                                && |data| - k >= g.highWaterMark then [HighWater(|data| - k)] else [])
  {
    var sent: seq<Event> := [Sent(data[..k])];
    assert c.trace + (sent + [WriteComplete]) == c.trace + sent + [WriteComplete];
    assert c.trace + (sent + [HighWater(|data| - k)]) == c.trace + sent + [HighWater(|data| - k)];
    assert sent + [] == sent && c.trace + sent + [] == c.trace + sent;
  }

  /** A write that would block, or fails for another reason than a dead peer, loses nothing: all data is queued. */
  lemma SendBlocked(g: Config, c: Conn, data: seq<byte>, r: WriteResult)
    requires r == WouldBlock || r == Failed(false)
    requires c.state == Connected && Write !in c.events && c.output == []
    ensures var n := Next(g, c, Send(data, r));
            && n.output == data && n.accepted == c.accepted + data
            && n.events == (if data == [] then c.events else c.events + {Write})
            && n.trace == c.trace + (if g.highWaterCallback && data != [] && g.highWaterMark > 0
                                        && |data| >= g.highWaterMark then [HighWater(|data|)] else [])
  {
    assert data[..|data|] == data && data[0..] == data && [] + data == data;
    assert [] + [HighWater(|data|)] == [HighWater(|data|)];
    assert c.trace + [] == c.trace;
  }

  /** EPIPE and ECONNRESET drop the data, and nothing else changes. */
  lemma SendToDeadPeer(g: Config, c: Conn, data: seq<byte>)
    requires c.state == Connected && Write !in c.events && c.output == []
    ensures Next(g, c, Send(data, Failed(true))) == c
  {
    assert c.trace + [] == c.trace;
  }

  /** The data of the sends on connected connections, in order, without those that a dead peer refused. */
  ghost function Wanted(conns: seq<Conn>, actions: seq<Action>, n: nat): seq<byte>
    requires n <= |actions| < |conns|
  {
    if n == 0 then []
    else
      var c, a := conns[n - 1], actions[n - 1];
      Wanted(conns, actions, n - 1) +
      (if a.Send? && c.state == Connected
          && !(a.r == Failed(true) && Write !in c.events && c.output == []) then a.data else [])
  }

  /** On every run the accepted bytes are exactly those. */
  lemma {:induction false} AcceptedExactly(g: Config, conns: seq<Conn>, actions: seq<Action>, n: nat)
    requires IsRun(g, conns, actions) && n <= |actions|
    ensures conns[n].accepted == Wanted(conns, actions, n)
  {
    if n > 0 {
      var c, a := conns[n - 1], actions[n - 1];
      assert Enabled(c, a) && conns[n] == Next(g, c, a);
      AcceptedExactly(g, conns, actions, n - 1);
      AcceptedStep(g, c, a);
      assert c.accepted + [] == c.accepted;
    }
  }

  lemma AcceptedStep(g: Config, c: Conn, a: Action)
    requires Enabled(c, a)
    ensures Next(g, c, a).accepted ==
            if a.Send? && c.state == Connected
               && !(a.r == Failed(true) && Write !in c.events && c.output == []) then c.accepted + a.data
            else c.accepted
  {
    hide DirectEvents, QueueEvents, SendEvents, Remainder;
  }

  // ---- What a writable socket does ----

  /** Without write interest, or if the kernel takes nothing: nothing. */
  lemma NothingWritten(g: Config, c: Conn, r: WriteResult)
    requires Possible(r, |c.output|) && (Write !in c.events || !r.Wrote? || r.n == 0)
    ensures Next(g, c, WriteReady(r)) == c
  {
  }

  /** What the kernel takes is sent from the front of the buffer. Only when nothing is left the write interest goes, the
      callback is posted, and a half-close that was asked for is made, unless write interest is still there. */
  lemma WritesBuffered(g: Config, c: Conn, k: nat)
    requires 0 < k <= |c.output| && Write in c.events
    ensures var n := Next(g, c, WriteReady(Wrote(k)));
            var masked := if g.mask.Intended? then c.events - {Write} else c.events * {Write};
            && n.output == c.output[k..]
            && n.events == (if k < |c.output| then c.events else masked)
            && n.trace == c.trace + [Sent(c.output[..k])]
                          + (if k == |c.output| && g.completeCallback then [WriteComplete] else [])
                          + (if k == |c.output| && c.state == Disconnecting && g.mask.Intended?
                             then [HalfClosed] else [])
            && n.state == c.state && n.reading == c.reading
  {
    var sent := c.trace + [Sent(c.output[..k])];
    assert sent + [] == sent && sent + [WriteComplete] + [] == sent + [WriteComplete];
  }

  /** shutdown() acts on a connected connection only: it half-closes at once, or leaves it to the write that drains. */
  lemma ShutdownHalfCloses(g: Config, c: Conn)
    ensures var n := Next(g, c, Shutdown);
            && n.trace == (if c.state == Connected && Write !in c.events then c.trace + [HalfClosed] else c.trace)
            && n.events == c.events && n.output == c.output && n.accepted == c.accepted && n.reading == c.reading
  {
  }

  /** No other step writes, closes or calls back. */
  lemma QuietSteps(g: Config, c: Conn, a: Action)
    requires Enabled(c, a) && !a.Send? && !a.WriteReady? && !a.Shutdown?
    ensures var n := Next(g, c, a);
            n.trace == c.trace && n.output == c.output && n.accepted == c.accepted
  {
  }

  // ---- The state ----

  /** Step k established the connection, and nothing since began to take it down. */
  ghost predicate UpSince(actions: seq<Action>, k: nat, n: nat)
    requires n <= |actions|
  {
    && k < n && actions[k].Establish?
    && forall j :: k < j < n ==> !(actions[j].Shutdown? || actions[j].Close? || actions[j].Destroy?
                                   || actions[j].ForceClose? || actions[j].ForceCloseLater?)
  }

  lemma StateStep(g: Config, c: Conn, a: Action)
    requires Enabled(c, a)
    ensures var n := Next(g, c, a);
            n.state == match a
              case Establish => Connected
              case Shutdown => if c.state == Connected then Disconnecting else c.state
              case Close => Disconnected
              case Destroy => if c.state == Connected then Disconnected else c.state
              case ForceClose => if c.state == Connected || c.state == Disconnecting then Disconnected else c.state
              case ForceCloseLater =>
                if c.state == Connected || c.state == Disconnecting then Disconnecting else c.state
              case _ => c.state
    ensures Next(g, c, a).reading == (a.StartRead? || (c.reading && !a.StopRead?))
    ensures Next(g, c, a).state == Disconnected ==> Next(g, c, a).events == {} || c.state == Disconnected
    ensures c.state == Disconnected ==> Next(g, c, a).events <= c.events
  {
    hide DirectEvents, QueueEvents, SendEvents, Remainder;
  }

  /** On every run: the connection is kConnected exactly when it was established and nothing since began to take it
      down, and once it is kDisconnected the channel asks for no events. */
  lemma {:induction false} ConnectedExactly(g: Config, conns: seq<Conn>, actions: seq<Action>, n: nat)
    requires IsRun(g, conns, actions) && n <= |actions|
    ensures conns[n].state == Connected <==> exists k: nat :: UpSince(actions, k, n)
    ensures conns[n].state == Disconnected ==> conns[n].events == {}
  {
    hide Next;
    if n > 0 {
      var m: nat := n - 1;
      var c, a := conns[m], actions[m];
      assert Enabled(c, a) && conns[n] == Next(g, c, a);
      StateStep(g, c, a);
      ConnectedExactly(g, conns, actions, m);
      if a.Establish? {
        assert UpSince(actions, m, n);
      } else if conns[n].state == Connected {
        var k: nat :| UpSince(actions, k, m);
        assert UpSince(actions, k, n);
      }
      if k: nat :| UpSince(actions, k, n) {
        assert k < m ==> UpSince(actions, k, m);
      }
    }
  }

  /** Step k told the connection to start reading, and none since to stop. */
  predicate StartedSince(actions: seq<Action>, k: nat, n: nat)
    requires n <= |actions|
  {
    k < n && actions[k].StartRead? && forall j :: k < j < n ==> !actions[j].StopRead?
  }

  /** On every run: reading_ says whether the connection was told to start reading and not to stop since. */
  lemma {:induction false} ReadingExactly(g: Config, conns: seq<Conn>, actions: seq<Action>, n: nat)
    requires IsRun(g, conns, actions) && n <= |actions|
    ensures conns[n].reading <==> exists k: nat :: StartedSince(actions, k, n)
  {
    hide Next;
    if n > 0 {
      var m: nat := n - 1;
      assert Enabled(conns[m], actions[m]) && conns[n] == Next(g, conns[m], actions[m]);
      StateStep(g, conns[m], actions[m]);
      ReadingExactly(g, conns, actions, m);
      if actions[m].StartRead? {
        assert StartedSince(actions, m, n);
      } else if conns[n].reading {
        var k: nat :| StartedSince(actions, k, m);
        assert StartedSince(actions, k, n);
      }
      if k: nat :| StartedSince(actions, k, n) {
        assert k < m ==> StartedSince(actions, k, m);
      }
    }
  }

  // ---- Half-close ----

  /** Nothing is written after a half-close, and there is no second one. */
  predicate QuietAfterHalfClose(trace: seq<Event>) {
    forall i, j :: 0 <= i < j < |trace| && trace[i].HalfClosed? ==> !trace[j].Sent? && !trace[j].HalfClosed?
  }

  predicate IsHalfClosed(c: Conn) {
    HalfClosed in c.trace
  }

  predicate WritingInv(g: Config, c: Conn) {
    && (c.output != [] && !c.state.Disconnected? ==> IsWriting(c))
    && (c.state.Connecting? || c.state.Disconnected? ==> !IsWriting(c))
    && (c.state.Connecting? ==> c.output == [] && !c.buffered)
    && (g.mask.Intended? && IsWriting(c) ==> c.output != [])
    && (g.mask.AsWritten? && !c.state.Disconnected? ==> (IsWriting(c) <==> c.buffered))
  }

  predicate HalfCloseInv(c: Conn) {
    && QuietAfterHalfClose(c.trace)
    && (IsHalfClosed(c) ==> (c.state.Disconnecting? || c.state.Disconnected?) && c.output == [] && !IsWriting(c))
    && (c.asked ==> c.state.Disconnecting? || c.state.Disconnected?)
    && (c.asked && c.state.Disconnecting? && !IsWriting(c) ==> IsHalfClosed(c))
  }

  lemma WritingStep(g: Config, c: Conn, a: Action)
    requires Enabled(c, a) && WritingInv(g, c)
    ensures WritingInv(g, Next(g, c, a))
  {
  }

  lemma QuietAppend(trace: seq<Event>, more: seq<Event>)
    requires QuietAfterHalfClose(trace) && HalfClosed !in trace
    requires forall i :: 0 <= i < |more| - 1 ==> !more[i].HalfClosed?
    ensures QuietAfterHalfClose(trace + more)
    ensures HalfClosed in trace + more <==> more != [] && more[|more| - 1].HalfClosed?
  {
    var t := trace + more;
    assert forall i :: 0 <= i < |trace| ==> t[i] == trace[i] && t[i] in trace;
    assert forall i :: 0 <= i < |more| ==> t[|trace| + i] == more[i];
    if more != [] {
      assert t[|t| - 1] == more[|more| - 1];
    }
  }

  lemma HalfCloseWrite(g: Config, c: Conn, r: WriteResult)
    requires Possible(r, |c.output|) && WritingInv(g, c) && HalfCloseInv(c)
    ensures HalfCloseInv(AfterWrite(g, c, r))
  {
    if IsWriting(c) && r.Wrote? && r.n > 0 {
      var sent := Sent(c.output[..r.n]);
      var done := if g.completeCallback then [WriteComplete] else [];
      QuietAppend(c.trace, [sent]);
      QuietAppend(c.trace, [sent] + done);
      QuietAppend(c.trace, [sent] + done + [HalfClosed]);
      assert c.trace + [sent] + done == c.trace + ([sent] + done);
      assert c.trace + [sent] + done + [HalfClosed] == c.trace + ([sent] + done + [HalfClosed]);
    }
  }

  lemma HalfCloseStep(g: Config, c: Conn, a: Action)
    requires Enabled(c, a) && WritingInv(g, c) && HalfCloseInv(c)
    ensures HalfCloseInv(Next(g, c, a))
  {
    hide AfterWrite;
    if a.Send? && c.state.Connected? {
      QuietAppend(c.trace, SendEvents(g, c, a.data, a.r));
    } else if a.WriteReady? {
      HalfCloseWrite(g, c, a.r);
    } else if a.Shutdown? && c.state.Connected? {
      QuietAppend(c.trace, [HalfClosed]);
    }
  }

  lemma {:induction false} RunInv(g: Config, conns: seq<Conn>, actions: seq<Action>, n: nat)
    requires IsRun(g, conns, actions) && n < |conns|
    ensures WritingInv(g, conns[n]) && HalfCloseInv(conns[n])
  {
    if n > 0 {
      RunInv(g, conns, actions, n - 1);
      WritingStep(g, conns[n - 1], actions[n - 1]);
      HalfCloseStep(g, conns[n - 1], actions[n - 1]);
    }
  }

  /** On every run: while the connection is not down, buffered bytes mean write interest. */
  lemma BufferedMeansWriting(g: Config, conns: seq<Conn>, actions: seq<Action>, n: nat)
    requires IsRun(g, conns, actions) && n < |conns|
    requires !conns[n].state.Disconnected? && conns[n].output != []
    ensures IsWriting(conns[n])
  {
    RunInv(g, conns, actions, n);
  }

  lemma {:induction false} WrittenBeforeQuiet(trace: seq<Event>, i: nat)
    requires i < |trace| && trace[i].HalfClosed? && QuietAfterHalfClose(trace)
    ensures Written(trace[..i]) == Written(trace)
  {
    var front := trace[..|trace| - 1];
    assert trace == front + [trace[|trace| - 1]];
    WrittenQuiet(front, trace[|trace| - 1]);
    if i < |front| {
      WrittenBeforeQuiet(front, i);
      assert front[..i] == trace[..i];
    } else {
      assert front == trace[..i];
    }
  }

  /** On every run whose sends keep their bytes: at a half-close every accepted byte has been written, nothing
      is written after it, and it happens at most once. */
  lemma HalfCloseComesLast(g: Config, conns: seq<Conn>, actions: seq<Action>, n: nat, i: nat)
    requires IsRun(g, conns, actions) && n < |conns|
    requires forall k :: 0 <= k < n ==> KeepsBytes(g, conns[k], actions[k])
    requires i < |conns[n].trace| && conns[n].trace[i] == HalfClosed
    ensures Written(conns[n].trace[..i]) == conns[n].accepted
    ensures forall j :: i < j < |conns[n].trace| ==> !conns[n].trace[j].Sent? && !conns[n].trace[j].HalfClosed?
  {
    hide Written, KeepsBytes;
    RunInv(g, conns, actions, n);
    BytesConserved(g, conns, actions, n);
    var c := conns[n];
    assert IsHalfClosed(c);
    assert Written(c.trace) + [] == Written(c.trace);
    WrittenBeforeQuiet(c.trace, i);
  }

  /** On every run, after shutdown() and until the connection is down: the half-close has happened exactly when the
      buffer is drained. As `disableWrite` is written, it has happened exactly when no send ever left a remainder. */
  lemma DrainingHalfCloses(g: Config, conns: seq<Conn>, actions: seq<Action>, n: nat)
    requires IsRun(g, conns, actions) && n < |conns|
    requires conns[n].asked && conns[n].state.Disconnecting?
    ensures IsHalfClosed(conns[n]) <==>
            match g.mask case Intended => conns[n].output == [] case AsWritten => !conns[n].buffered
  {
    RunInv(g, conns, actions, n);
  }

  /** A run that never half-closes with the mask as written: a partial write, the rest when the socket is writable,
      then shutdown(). Everything is written and nothing will write again. */
  lemma WrongMaskNeverHalfCloses(g: Config)
    requires g.mask.AsWritten? && g.rest.Intended?
    ensures exists conns: seq<Conn>, actions: seq<Action> ::
              && IsRun(g, conns, actions) && |actions| == 4 && actions[3] == Shutdown
              && conns[4].state.Disconnecting? && conns[4].asked && conns[4].output == [] && !IsHalfClosed(conns[4])
  {
    var actions := [Establish, Send([1, 2], Wrote(1)), WriteReady(Wrote(1)), Shutdown];
    var c1 := Next(g, Initial(), actions[0]);
    var c2 := Next(g, c1, actions[1]);
    var c3 := Next(g, c2, actions[2]);
    var c4 := Next(g, c3, actions[3]);
    var conns := [Initial(), c1, c2, c3, c4];
    assert [1, 2][1..] == [2] && [] + [2] == [2] && [2][1..] == [];
    assert IsRun(g, conns, actions);
  }

  // ---- Read interest ----

  predicate IsUp(c: Conn) {
    c.state.Connected? || c.state.Disconnecting?
  }

  /** The step writes the last buffered byte. */
  predicate Drains(c: Conn, a: Action) {
    a.WriteReady? && IsWriting(c) && c.output != [] && a.r == Wrote(|c.output|)
  }

  predicate TurnsReadOn(a: Action) {
    a.Establish? || a.StartRead?
  }

  /** `disableWrite` as it is written takes the read interest, too. */
  predicate TurnsReadOff(g: Config, c: Conn, a: Action) {
    a.StopRead? || (g.mask.AsWritten? && Drains(c, a))
  }

  lemma ReadStep(g: Config, c: Conn, a: Action)
    requires Enabled(c, a) && IsUp(Next(g, c, a))
    ensures (a.Establish? && TurnsReadOn(a)) || IsUp(c)
    ensures Read in Next(g, c, a).events <==> TurnsReadOn(a) || (Read in c.events && !TurnsReadOff(g, c, a))
  {
  }

  /** Step k turned the read interest on, and no step since turned it off. */
  ghost predicate OnSince(g: Config, conns: seq<Conn>, actions: seq<Action>, k: nat, n: nat)
    requires n <= |actions| < |conns|
  {
    k < n && TurnsReadOn(actions[k]) && forall j :: k < j < n ==> !TurnsReadOff(g, conns[j], actions[j])
  }

  /** On every run, while the connection is up: it reads exactly when it was established or told to start reading, and
      since then neither told to stop nor, as `disableWrite` is written, drained. */
  lemma {:induction false} ReadInterestExactly(g: Config, conns: seq<Conn>, actions: seq<Action>, n: nat)
    requires IsRun(g, conns, actions) && n <= |actions| && IsUp(conns[n])
    ensures Read in conns[n].events <==> exists k: nat :: OnSince(g, conns, actions, k, n)
  {
    hide Next, TurnsReadOff;
    assert n > 0;
    var m: nat := n - 1;
    var c, a := conns[m], actions[m];
    assert Enabled(c, a) && conns[n] == Next(g, c, a) && |conns| == |actions| + 1;
    hide IsRun, Enabled, TurnsReadOn;
    ReadStep(g, c, a);
    if TurnsReadOn(a) {
      assert OnSince(g, conns, actions, m, n);
    } else {
      ReadInterestExactly(g, conns, actions, m);
      if !TurnsReadOff(g, c, a) {
        if k: nat :| OnSince(g, conns, actions, k, m) {
          assert OnSince(g, conns, actions, k, n);
        }
      }
      if k: nat :| OnSince(g, conns, actions, k, n) {
        assert OnSince(g, conns, actions, k, m);
      }
    }
  }

  /** With the mask as written, and neither startRead nor stopRead: a connection that is up reads exactly until it first
      drains its buffer. */
  lemma DrainedStopsReading(g: Config, conns: seq<Conn>, actions: seq<Action>, n: nat)
    requires IsRun(g, conns, actions) && n <= |actions| && IsUp(conns[n]) && g.mask.AsWritten?
    requires forall k :: 0 <= k < n ==> !actions[k].StartRead? && !actions[k].StopRead?
    ensures Read in conns[n].events <==> forall k :: 0 <= k < n ==> !Drains(conns[k], actions[k])
  {
    assert |conns| == |actions| + 1;
    hide IsRun, Drains;
    ReadInterestExactly(g, conns, actions, n);
    var e := Established(g, conns, actions, n);
    if Read in conns[n].events {
      var k: nat :| OnSince(g, conns, actions, k, n);
      OnlyOnce(g, conns, actions, e, k);
      forall j | e < j < n ensures !Drains(conns[j], actions[j]) {
        assert !TurnsReadOff(g, conns[j], actions[j]);
      }
    }
    if forall k :: 0 <= k < n ==> !Drains(conns[k], actions[k]) {
      assert OnSince(g, conns, actions, e, n);
    }
  }

  /** With the mask as needed: a connection that is up and was never told to stop reads. */
  lemma IntendedKeepsReading(g: Config, conns: seq<Conn>, actions: seq<Action>, n: nat)
    requires IsRun(g, conns, actions) && n <= |actions| && IsUp(conns[n]) && g.mask.Intended?
    requires forall k :: 0 <= k < n ==> !actions[k].StopRead?
    ensures Read in conns[n].events
  {
    hide Next;
    ReadInterestExactly(g, conns, actions, n);
    var e := Established(g, conns, actions, n);
    assert OnSince(g, conns, actions, e, n);
  }

  /** A connection that is up was established, and drained nothing up to then. */
  lemma {:induction false} Established(g: Config, conns: seq<Conn>, actions: seq<Action>, n: nat) returns (e: nat)
    requires IsRun(g, conns, actions) && n <= |actions| && IsUp(conns[n])
    ensures e < n && actions[e].Establish? && conns[e].state.Connecting?
    ensures forall k :: 0 <= k <= e ==> !Drains(conns[k], actions[k])
  {
    hide Next;
    assert n > 0;
    ReadStep(g, conns[n - 1], actions[n - 1]);
    if actions[n - 1].Establish? {
      e := n - 1;
      forall k | 0 <= k < e ensures !Drains(conns[k], actions[k]) {
        StaysConnecting(g, conns, actions, k, e);
        RunInv(g, conns, actions, k);
      }
    } else {
      e := Established(g, conns, actions, n - 1);
    }
  }

  /** Nothing leads back to kConnecting. */
  lemma {:induction false} StaysConnecting(g: Config, conns: seq<Conn>, actions: seq<Action>, k: nat, e: nat)
    requires IsRun(g, conns, actions) && k <= e <= |actions| && conns[e].state.Connecting?
    ensures conns[k].state.Connecting?
    decreases e
  {
    if k < e {
      assert Enabled(conns[e - 1], actions[e - 1]) && conns[e] == Next(g, conns[e - 1], actions[e - 1]);
      StaysConnecting(g, conns, actions, k, e - 1);
    }
  }

  /** Without startRead the read interest is turned on by the one establishment only. */
  lemma OnlyOnce(g: Config, conns: seq<Conn>, actions: seq<Action>, e: nat, k: nat)
    requires IsRun(g, conns, actions) && e < |actions| && k < |actions|
    requires actions[e].Establish? && actions[k].Establish?
    ensures e == k
  {
    assert Enabled(conns[e], actions[e]) && Enabled(conns[k], actions[k]);
    if e < k {
      StaysConnecting(g, conns, actions, e + 1, k);
    } else if k < e {
      StaysConnecting(g, conns, actions, k + 1, e);
    }
  }

  /** The shortest such run: one partial write, and the connection is up and reads nothing. */
  lemma DrainStopsReading(g: Config)
    requires g.mask.AsWritten? && g.rest.Intended?
    ensures exists conns: seq<Conn>, actions: seq<Action> ::
              && IsRun(g, conns, actions) && |actions| == 3 && Read in conns[2].events
              && conns[3].state.Connected? && conns[3].reading == conns[1].reading && Read !in conns[3].events
  {
    var actions := [Establish, Send([1, 2], Wrote(1)), WriteReady(Wrote(1))];
    var c1 := Next(g, Initial(), actions[0]);
    var c2 := Next(g, c1, actions[1]);
    var c3 := Next(g, c2, actions[2]);
    var conns := [Initial(), c1, c2, c3];
    assert [1, 2][1..] == [2] && [] + [2] == [2] && [2][1..] == [];
    assert IsRun(g, conns, actions);
  }

  // ---- The object ----

  class TcpConnection {
    const g: Config
    var state: ConnState
    var events: set<Interest>
    var reading: bool
    const outputBuffer: B.Buffer
    ghost var trace: seq<Event>
    ghost var accepted: seq<byte>
    ghost var asked: bool
    ghost var buffered: bool

    ghost predicate Valid()
      reads this, outputBuffer
    {
      outputBuffer.Valid()
    }

    ghost function Abs(): Conn
      requires Valid()
      reads this, outputBuffer, outputBuffer.buffer
    {
      Conn(state, events, reading, outputBuffer.Contents(), trace, accepted, asked, buffered)
    }

    constructor (g: Config, form: Form)
      ensures Valid() && Abs() == Initial() && this.g == g
      ensures fresh(outputBuffer) && fresh(outputBuffer.buffer) && outputBuffer.form == form
    {
      this.g := g;
      outputBuffer := new B.Buffer(form);
      state, events, reading := Connecting, {}, false;
      trace, accepted, asked, buffered := [], [], false, false;
    }

    method ConnectionEstablished()
      requires Valid() && state.Connecting?
      modifies this`state, this`events
      ensures Valid() && Abs() == Next(g, old(Abs()), Establish)
    {
      state := Connected;
      events := events + {Read};
    }

    method ConnectionDestroyed()
      requires Valid()
      modifies this`state, this`events
      ensures Valid() && Abs() == Next(g, old(Abs()), Destroy)
    {
      if state.Connected? {
        state := Disconnected;
        events := {};
      }
    }

    method Send(data: seq<byte>, r: WriteResult) returns (ok: bool)
      requires Valid() && Possible(r, |data|)
      modifies this, outputBuffer, outputBuffer.buffer
      ensures Valid() && (outputBuffer.buffer == old(outputBuffer.buffer) || fresh(outputBuffer.buffer))
      ensures ok ==> Abs() == Next(g, old(Abs()), Action.Send(data, r))
      ensures ok == (!old(state).Connected? || SendFits(old(Abs()), data, r, old(Room())))
    {
      ok := true;
      if state.Connected? {
        ok := SendInLoop(data, r);
      }
    }

    /** The lengths that the output buffer can take now. */
    ghost function Room(): iset<nat>
      requires Valid()
      reads this, outputBuffer
    {
      iset n: nat | outputBuffer.Fits(n)
    }

    /** Returns false where the assert under the buffer's `append` ends the program. */
    method SendInLoop(data: seq<byte>, r: WriteResult) returns (ok: bool)
      requires Valid() && Possible(r, |data|)
      modifies this, outputBuffer, outputBuffer.buffer
      ensures Valid() && (outputBuffer.buffer == old(outputBuffer.buffer) || fresh(outputBuffer.buffer))
      ensures ok ==> Abs() == AfterSend(g, old(Abs()), data, r)
      ensures ok == SendFits(old(Abs()), data, r, old(Room()))
    {
      ghost var c := Abs();
      var nwrote, error := TryWrite(data, r);
      ok := true;
      if !error && nwrote < |data| {
        ok := QueueRemainder(data, nwrote);
        assert ok ==> trace == c.trace + SendEvents(g, c, data, r);
      }
      if !error {
        accepted := accepted + data;
      }
    }

    /** The head of `sendInLoop`: writes directly if nothing is queued. */
    method TryWrite(data: seq<byte>, r: WriteResult) returns (nwrote: nat, error: bool)
      requires Valid() && Possible(r, |data|)
      modifies this`trace
      ensures nwrote == SentAtOnce(old(Abs()), r) && error == Dropped(old(Abs()), r)
      ensures trace == old(trace) + DirectEvents(g, old(Abs()), data, r)
    {
      nwrote, error := 0, false;
      if Write !in events && outputBuffer.ReadableBytes() == 0 {
        match r
        case Wrote(n) =>
          nwrote := n;
          trace := trace + [Sent(data[..n])];
          if |data| - nwrote == 0 && g.completeCallback {
            trace := trace + [WriteComplete];
          }
        case WouldBlock =>
        case Failed(reset) =>
          error := reset;
      }
    }

    method CheckHighWater(left: nat)
      requires Valid()
      modifies this`trace
      ensures trace == old(trace) + QueueEvents(g, |outputBuffer.Contents()|, left)
    {
      var having := outputBuffer.ReadableBytes();
      if having < g.highWaterMark && having + left >= g.highWaterMark && g.highWaterCallback {
        trace := trace + [HighWater(having + left)];
      }
    }

    /** The tail of `sendInLoop`: buffers what the direct write left. */
    method QueueRemainder(data: seq<byte>, nwrote: nat) returns (ok: bool)
      requires Valid() && nwrote < |data|
      modifies this`trace, this`buffered, this`events, outputBuffer, outputBuffer.buffer
      ensures Valid() && (outputBuffer.buffer == old(outputBuffer.buffer) || fresh(outputBuffer.buffer))
      ensures ok == old(outputBuffer.Fits(|data| - nwrote))
      ensures ok ==> outputBuffer.Contents() == old(outputBuffer.Contents()) + Remainder(g.rest, data, nwrote)
      ensures ok ==> events == old(events) + {Write} && buffered
      ensures trace == old(trace) + QueueEvents(g, |old(outputBuffer.Contents())|, |data| - nwrote)
    {
      hide B.AppendFits, QueueEvents;
      var left := |data| - nwrote;
      CheckHighWater(left);
      buffered := true;
      var remainder := match g.rest case AsWritten => data[..left] case Intended => data[nwrote..];
      ok := outputBuffer.Append(remainder);
      if ok && Write !in events {
        events := events + {Write};
      }
    }

    method HandleWrite(r: WriteResult)
      requires Valid() && Possible(r, |outputBuffer.Contents()|)
      modifies this, outputBuffer`readIndex, outputBuffer`writeIndex
      ensures Valid() && Abs() == Next(g, old(Abs()), WriteReady(r))
    {
      if Write in events {
        if r.Wrote? && r.n > 0 {
          trace := trace + [Sent(outputBuffer.Contents()[..r.n])];
          outputBuffer.Retrieve(r.n);
          if outputBuffer.ReadableBytes() == 0 {
            events := DisableWrite(g.mask, events);
            if g.completeCallback {
              trace := trace + [WriteComplete];
            }
            if state.Disconnecting? {
              ShutdownInLoop();
            }
          }
        }
      }
    }

    method Shutdown()
      requires Valid()
      modifies this`state, this`asked, this`trace
      ensures Valid() && Abs() == Next(g, old(Abs()), Action.Shutdown)
    {
      if state.Connected? {
        state := Disconnecting;
        asked := true;
        ShutdownInLoop();
      }
    }

    method ShutdownInLoop()
      requires Valid()
      modifies this`trace
      ensures Valid() && Abs() == AfterShutdown(old(Abs()))
    {
      if Write !in events {
        trace := trace + [HalfClosed];
      }
    }

    method HandleClose()
      requires Valid() && (state.Connected? || state.Disconnecting?)
      modifies this`state, this`events
      ensures Valid() && Abs() == AfterClose(old(Abs()))
    {
      state := Disconnected;
      events := {};
    }

    method ForceClose()
      requires Valid()
      modifies this`state, this`events
      ensures Valid() && Abs() == Next(g, old(Abs()), Action.ForceClose)
    {
      if state.Connected? || state.Disconnecting? {
        state := Disconnecting;
        HandleClose();
      }
    }

    method StartRead()
      requires Valid() && state.Connected?
      modifies this`reading, this`events
      ensures Valid() && Abs() == Next(g, old(Abs()), Action.StartRead)
    {
      if !reading || Read !in events {
        events := events + {Read};
        reading := true;
      }
    }

    method StopRead()
      requires Valid() && state.Connected?
      modifies this`reading, this`events
      ensures Valid() && Abs() == Next(g, old(Abs()), Action.StopRead)
    {
      if reading || Read in events {
        events := events - {Read};
        reading := false;
      }
    }
  }

  /** The buffer has room for what a send leaves over. */
  ghost predicate SendFits(c: Conn, data: seq<byte>, r: WriteResult, room: iset<nat>)
    requires Possible(r, |data|)
  {
    Dropped(c, r) || SentAtOnce(c, r) == |data| || |data| - SentAtOnce(c, r) in room
  }
}
