/**
 The poll(2) based poller of arale/net/PollPoller.cc: a vector of `pollfd` structures, a map from
 descriptors to channels, and in each channel the index of its structure. A disabled channel keeps its
 structure with the descriptor encoded as -fd-1, and removing one moves the last structure into the gap.
 */
module PollPoller {
  const NONE_EVENT := 0

  datatype PollFd = PollFd(fd: int, events: int, revents: int)

  class Channel {
    const fd: nat
    var events: int
    var revents: int
    var index: int

    constructor (fd: nat)
      ensures this.fd == fd && index == -1 && events == NONE_EVENT && revents == NONE_EVENT
    {
      this.fd, events, revents, index := fd, NONE_EVENT, NONE_EVENT, -1;
    }
  }

  /** The descriptor that a structure stands for, ignored or not. */
  function Key(fd: int): nat {
    if fd < 0 then -fd - 1 else fd
  }

  // ---- The index on values ----

  /** Each descriptor in the map has one structure and each structure is the one of its descriptor. */
  ghost predicate Bijection(index: map<int, int>, pollfds: seq<PollFd>) {
    && (forall fd :: fd in index ==> 0 <= index[fd] < |pollfds| && Key(pollfds[index[fd]].fd) == fd)
    && (forall i :: 0 <= i < |pollfds| ==> Key(pollfds[i].fd) in index && index[Key(pollfds[i].fd)] == i)
  }

  function SwapRemove(pollfds: seq<PollFd>, i: nat): seq<PollFd>
    requires i < |pollfds|
  {
    var last := |pollfds| - 1;
    if i == last then pollfds[..last] else pollfds[i := pollfds[last]][..last]
  }

  /** The moved structure takes the free index. */
  function IndexAfterRemove(index: map<int, int>, pollfds: seq<PollFd>, fd: nat): map<int, int>
    requires fd in index && 0 <= index[fd] < |pollfds|
  {
    var moved := Key(pollfds[|pollfds| - 1].fd);
    if moved == fd then index - {fd} else (index - {fd})[moved := index[fd]]
  }

  /** Removing keeps the bijection. */
  lemma SwapRemoveKeepsIndex(index: map<int, int>, pollfds: seq<PollFd>, fd: nat)
    requires Bijection(index, pollfds) && fd in index
    ensures Bijection(IndexAfterRemove(index, pollfds, fd), SwapRemove(pollfds, index[fd]))
  {
    var last := |pollfds| - 1;
    assert index[Key(pollfds[last].fd)] == last;
  }

  lemma LastIndexed(index: map<int, int>, pollfds: seq<PollFd>, i: nat)
    requires Bijection(index, pollfds) && i < |pollfds|
    ensures var last := Key(pollfds[|pollfds| - 1].fd);
            && last in index && index[last] == |pollfds| - 1
            && Key(pollfds[i].fd) in index && index[Key(pollfds[i].fd)] == i
  {
  }

  /** Removing takes exactly one structure away. */
  lemma SwapRemoveTakesOne(pollfds: seq<PollFd>, i: nat)
    requires i < |pollfds|
    ensures multiset(SwapRemove(pollfds, i)) == multiset(pollfds) - multiset{pollfds[i]}
  {
    var last := |pollfds| - 1;
    var after := SwapRemove(pollfds, i);
    assert pollfds == pollfds[..last] + [pollfds[last]];
    if i != last {
      var swapped := pollfds[i := pollfds[last]];
      assert swapped == after + [pollfds[last]];
      assert multiset(swapped) == multiset(pollfds) - multiset{pollfds[i]} + multiset{pollfds[last]};
    }
  }

  lemma AddKeepsIndex(index: map<int, int>, pollfds: seq<PollFd>, pfd: PollFd)
    requires Bijection(index, pollfds) && Key(pfd.fd) !in index
    ensures Bijection(index[Key(pfd.fd) := |pollfds|], pollfds + [pfd])
  {
  }

  lemma UpdateKeepsIndex(index: map<int, int>, pollfds: seq<PollFd>, i: nat, pfd: PollFd)
    requires Bijection(index, pollfds) && i < |pollfds| && Key(pfd.fd) == Key(pollfds[i].fd)
    ensures Bijection(index, pollfds[i := pfd])
  {
  }

  // ---- Disabling ----

  /** The update of a structure that is in use. */
  function AfterUpdate(pfd: PollFd, fd: nat, events: int): PollFd {
    PollFd(if events == NONE_EVENT then -(fd as int) - 1 else pfd.fd, events, 0)
  }

  function AfterUpdates(pfd: PollFd, fd: nat, masks: seq<int>): PollFd
    decreases |masks|
  {
    if masks == [] then pfd else AfterUpdates(AfterUpdate(pfd, fd, masks[0]), fd, masks[1..])
  }

  /** Exactly when updates leave a structure watched: it was, and no update ever disabled all events. */
  lemma {:induction false} WatchedExactly(pfd: PollFd, fd: nat, masks: seq<int>)
    requires Key(pfd.fd) == fd
    ensures var after := AfterUpdates(pfd, fd, masks);
            && Key(after.fd) == fd
            && (after.fd >= 0 <==> pfd.fd >= 0 && NONE_EVENT !in masks)
    decreases |masks|
  {
    if masks != [] {
      WatchedExactly(AfterUpdate(pfd, fd, masks[0]), fd, masks[1..]);
      assert NONE_EVENT in masks <==> masks[0] == NONE_EVENT || NONE_EVENT in masks[1..];
    }
  }

  /** A structure asks for the events of the last update, and reports none until the next poll. */
  lemma {:induction false} AsksForLast(pfd: PollFd, fd: nat, masks: seq<int>)
    requires masks != []
    ensures var after := AfterUpdates(pfd, fd, masks);
            after.events == masks[|masks| - 1] && after.revents == 0
    decreases |masks|
  {
    if |masks| > 1 {
      AsksForLast(AfterUpdate(pfd, fd, masks[0]), fd, masks[1..]);
    } else {
      assert masks[1..] == [];
    }
  }

  /** Registered, disabled and enabled again: the events are asked for, and the structure is ignored. */
  lemma EnabledButIgnored(fd: nat, events: int)
    requires events != NONE_EVENT
    ensures AfterUpdates(PollFd(fd, events, 0), fd, [NONE_EVENT, events]) ==
            PollFd(-(fd as int) - 1, events, 0)
  {
    var off := AfterUpdate(PollFd(fd, events, 0), fd, NONE_EVENT);
    assert [NONE_EVENT, events][1..] == [events] && [events][1..] == [];
    assert AfterUpdates(off, fd, [events]) == AfterUpdates(AfterUpdate(off, fd, events), fd, []);
  }

  // ---- The active channels on values ----

  /** The descriptors of the structures with events, in order. */
  function Ready(pollfds: seq<PollFd>): seq<int> {
    if pollfds == [] then []
    else
      var n := |pollfds| - 1;
      Ready(pollfds[..n]) + (if pollfds[n].revents > 0 then [pollfds[n].fd] else [])
  }

  /** What poll(2) promises: no events on an ignored structure. */
  predicate IgnoresNegative(pollfds: seq<PollFd>) {
    forall i :: 0 <= i < |pollfds| && pollfds[i].revents > 0 ==> pollfds[i].fd >= 0
  }

  lemma {:induction false} ReadyPrefix(pollfds: seq<PollFd>, i: nat)
    requires i <= |pollfds|
    ensures Ready(pollfds[..i]) <= Ready(pollfds)
  {
    if i < |pollfds| {
      var n := |pollfds| - 1;
      ReadyPrefix(pollfds[..n], i);
      assert pollfds[..n][..i] == pollfds[..i];
    } else {
      assert pollfds[..i] == pollfds;
    }
  }

  lemma {:induction false} ReadyMembers(pollfds: seq<PollFd>, fd: int)
    ensures fd in Ready(pollfds) <==> exists i :: 0 <= i < |pollfds| && pollfds[i].revents > 0 && pollfds[i].fd == fd
  {
    if pollfds != [] {
      var n := |pollfds| - 1;
      ReadyMembers(pollfds[..n], fd);
      assert forall i :: 0 <= i < n ==> pollfds[..n][i] == pollfds[i];
      assert Ready(pollfds) == Ready(pollfds[..n]) + (if pollfds[n].revents > 0 then [pollfds[n].fd] else []);
    }
  }

  predicate Distinct(s: seq<int>) {
    forall i, j :: 0 <= i < j < |s| ==> s[i] != s[j]
  }

  predicate DistinctKeys(pollfds: seq<PollFd>) {
    forall i, j :: 0 <= i < j < |pollfds| ==> Key(pollfds[i].fd) != Key(pollfds[j].fd)
  }

  lemma {:induction false} ReadyDistinct(pollfds: seq<PollFd>)
    requires DistinctKeys(pollfds)
    ensures Distinct(Ready(pollfds))
  {
    if pollfds != [] {
      var n := |pollfds| - 1;
      ReadyDistinct(pollfds[..n]);
      ReadyMembers(pollfds[..n], pollfds[n].fd);
      assert forall i :: 0 <= i < n ==> pollfds[..n][i] == pollfds[i];
    }
  }

  /** The ready descriptors come in the order of their structures. */
  lemma {:induction false} ReadyInOrder(index: map<int, int>, pollfds: seq<PollFd>, n: nat)
    requires Bijection(index, pollfds) && IgnoresNegative(pollfds) && n <= |pollfds|
    ensures var ready := Ready(pollfds[..n]);
            && (forall i :: 0 <= i < |ready| ==> ready[i] in index && index[ready[i]] < n)
            && (forall i, j :: 0 <= i < j < |ready| ==> index[ready[i]] < index[ready[j]])
  {
    hide Bijection, IgnoresNegative, Ready;
    if n == 0 {
      ReadyNone(pollfds);
    } else {
      ReadyInOrder(index, pollfds, n - 1);
      ReadyStep(pollfds, n - 1);
      if pollfds[n - 1].revents > 0 {
        ReadyIndexed(index, pollfds, n - 1);
      }
    }
  }

  /** Each descriptor with events is ready exactly once, and no other is. */
  lemma ReadyOnce(index: map<int, int>, pollfds: seq<PollFd>)
    requires Bijection(index, pollfds) && IgnoresNegative(pollfds)
    ensures Distinct(Ready(pollfds))
    ensures forall fd :: fd in index ==> (fd in Ready(pollfds) <==> pollfds[index[fd]].revents > 0)
    ensures forall fd :: fd in Ready(pollfds) ==> fd >= 0 && fd in index
  {
    hide Ready;
    ReadyDistinct(pollfds) by {
      forall i, j | 0 <= i < j < |pollfds| ensures Key(pollfds[i].fd) != Key(pollfds[j].fd) {
        assert index[Key(pollfds[i].fd)] == i && index[Key(pollfds[j].fd)] == j;
      }
    }
    forall fd
      ensures fd in index ==> (fd in Ready(pollfds) <==> pollfds[index[fd]].revents > 0)
      ensures fd in Ready(pollfds) ==> fd >= 0 && fd in index
    {
      ReadyMembers(pollfds, fd);
      if fd in Ready(pollfds) {
        var i :| 0 <= i < |pollfds| && pollfds[i].revents > 0 && pollfds[i].fd == fd;
        assert Key(pollfds[i].fd) == fd && index[fd] == i;
      }
    }
  }

  function First(s: seq<int>, n: nat): seq<int> {
    if n < |s| then s[..n] else s
  }

  lemma ReadyStep(pollfds: seq<PollFd>, i: nat)
    requires i < |pollfds|
    ensures Ready(pollfds[..i + 1]) == Ready(pollfds[..i]) + (if pollfds[i].revents > 0 then [pollfds[i].fd] else [])
  {
    assert pollfds[..i + 1][..i] == pollfds[..i];
  }

  lemma ReadyNone(pollfds: seq<PollFd>)
    ensures Ready(pollfds[..0]) == []
  {
  }

  /** The loop over the structures stops with the first n ready ones. */
  lemma ReadyStops(pollfds: seq<PollFd>, i: nat, n: nat)
    requires i <= |pollfds| && |Ready(pollfds[..i])| <= n
    requires i == |pollfds| || |Ready(pollfds[..i])| == n
    ensures Ready(pollfds[..i]) == First(Ready(pollfds), n)
  {
    ReadyPrefix(pollfds, i);
    assert i == |pollfds| ==> pollfds[..i] == pollfds;
  }

  /** What poll(2) leaves in the array. */
  function Answered(pollfds: seq<PollFd>, answer: seq<int>): seq<PollFd>
    requires |answer| == |pollfds|
  {
    seq(|pollfds|, i requires 0 <= i < |pollfds| => pollfds[i].(revents := answer[i]))
  }

  lemma AnswerKeepsIndex(index: map<int, int>, pollfds: seq<PollFd>, answer: seq<int>)
    requires Bijection(index, pollfds) && |answer| == |pollfds|
    requires forall i :: 0 <= i < |answer| ==> answer[i] >= 0 && (pollfds[i].fd < 0 ==> answer[i] == 0)
    ensures Bijection(index, Answered(pollfds, answer)) && IgnoresNegative(Answered(pollfds, answer))
  {
    var answered := Answered(pollfds, answer);
    assert forall i :: 0 <= i < |pollfds| ==> answered[i].fd == pollfds[i].fd;
  }

  function At(pollfds: seq<PollFd>, i: int): PollFd {
    if 0 <= i < |pollfds| then pollfds[i] else PollFd(-1, 0, 0)
  }

  lemma IndexInRange(index: map<int, int>, pollfds: seq<PollFd>, fd: int)
    requires Bijection(index, pollfds) && fd in index
    ensures 0 <= index[fd] < |pollfds|
  {
  }

  lemma ReadyIndexed(index: map<int, int>, pollfds: seq<PollFd>, i: nat)
    requires Bijection(index, pollfds) && IgnoresNegative(pollfds) && i < |pollfds| && pollfds[i].revents > 0
    ensures pollfds[i].fd in index && index[pollfds[i].fd] == i
  {
    assert Key(pollfds[i].fd) == pollfds[i].fd;
  }

  class PollPoller {
    var channels: map<int, Channel>
    var pollfds: seq<PollFd>

    ghost function Indices(): map<int, int>
      reads this, channels.Values
    {
      map fd | fd in channels :: channels[fd].index
    }

    ghost predicate Valid()
      reads this, channels.Values
    {
      && (forall fd :: fd in channels ==> channels[fd].fd == fd)
      && Bijection(Indices(), pollfds)
    }

    constructor ()
      ensures Valid() && channels == map[] && pollfds == []
    {
      channels, pollfds := map[], [];
    }

    /** Registers a new channel, or passes the events of a registered one on. An ignored structure stays ignored: its
        descriptor is not put back when events are enabled again. */
    method UpdateChannel(channel: Channel)
      requires Valid()
      requires channel.index < 0 ==> channel.fd !in channels
      requires channel.index >= 0 ==>
                 channel.fd in channels && channel.index < |pollfds| && Key(pollfds[channel.index].fd) == channel.fd
      modifies this, channel`index
      ensures Valid()
      ensures old(channel.index) < 0 ==>
                && channels == old(channels)[channel.fd := channel] && channel.index == |old(pollfds)|
                && pollfds == old(pollfds) + [PollFd(channel.fd, channel.events, 0)]
      ensures old(channel.index) >= 0 ==>
                && channels == old(channels) && channel.index == old(channel.index)
                && pollfds == old(pollfds)[channel.index :=
                     AfterUpdate(old(pollfds)[channel.index], channel.fd, channel.events)]
    {
      ghost var indices := Indices();
      if channel.index < 0 {
        var pfd := PollFd(channel.fd, channel.events, 0);
        AddKeepsIndex(indices, pollfds, pfd);
        pollfds := pollfds + [pfd];
        channel.index := |pollfds| - 1;
        channels := channels[pfd.fd := channel];
        ghost var expected := indices[Key(pfd.fd) := channel.index];
        forall fd | fd in channels ensures fd in expected && channels[fd].index == expected[fd] {
          assert fd != channel.fd ==> channels[fd] != channel;
        }
        assert Indices() == expected;
      } else {
        var pfd := pollfds[channel.index].(events := channel.events, revents := 0);
        if channel.events == NONE_EVENT {
          pfd := pfd.(fd := -(channel.fd as int) - 1);
        }
        UpdateKeepsIndex(indices, pollfds, channel.index, pfd);
        pollfds := pollfds[channel.index := pfd];
      }
    }

    /** Swaps a structure with the last one, whose channel is told its new index. */
    method SwapWithLast(index: nat, ghost moved: Channel)
      requires index + 1 < |pollfds|
      requires Key(pollfds[|pollfds| - 1].fd) in channels && channels[Key(pollfds[|pollfds| - 1].fd)] == moved
      modifies this`pollfds, moved`index
      ensures var last := |old(pollfds)| - 1;
              && pollfds == old(pollfds)[index := old(pollfds)[last]][last := old(pollfds)[index]]
              && moved.index == index
    {
      var last := |pollfds| - 1;
      var lastChannel := pollfds[last].fd;
      pollfds := pollfds[index := pollfds[last]][last := pollfds[index]];
      if lastChannel < 0 {
        lastChannel := -lastChannel - 1;
      }
      channels[lastChannel].index := index;
    }

    method RemoveChannel(channel: Channel)
      requires Valid()
      requires channel.fd in channels && 0 <= channel.index < |pollfds|
      requires Key(pollfds[channel.index].fd) == channel.fd
      requires channel.events == NONE_EVENT
      modifies this, channels.Values`index
      ensures Valid()
      ensures channels == old(channels) - {channel.fd} && channel.index == old(channel.index)
      ensures pollfds == SwapRemove(old(pollfds), old(channel.index))
      ensures Indices() == IndexAfterRemove(old(Indices()), old(pollfds), channel.fd)
    {
      ghost var indices := Indices();
      ghost var before := pollfds;
      var index := channel.index;
      var last := |pollfds| - 1;
      LastIndexed(indices, pollfds, index);
      SwapRemoveKeepsIndex(indices, pollfds, channel.fd);
      hide Bijection;
      channels := channels - {channel.fd};
      if index != last {
        SwapWithLast(index, channels[Key(pollfds[last].fd)]);
      }
      pollfds := pollfds[..last];
      assert pollfds == SwapRemove(before, index);
      ghost var expected := IndexAfterRemove(indices, before, channel.fd);
      forall fd | fd in channels ensures fd in expected && channels[fd].index == expected[fd] {
        assert index != last && fd != Key(before[last].fd) ==> channels[fd] != channels[Key(before[last].fd)];
      }
      assert expected.Keys == channels.Keys;
      assert Indices() == expected;
    }

    /** The list of active channels for these descriptors. */
    ghost predicate Lists(active: seq<Channel>, fds: seq<int>)
      reads this
    {
      |active| == |fds| && forall j :: 0 <= j < |fds| ==> fds[j] in channels && active[j] == channels[fds[j]]
    }

    /** Appends the channels of the first numEvents ready structures, and tells each its events. */
    method FillActiveChannels(numEvents: nat, activeChannels: seq<Channel>) returns (active: seq<Channel>)
      requires Valid() && IgnoresNegative(pollfds)
      modifies channels.Values`revents
      ensures Valid() && Indices() == old(Indices())
      ensures activeChannels <= active
      ensures Lists(active[|activeChannels|..], First(Ready(pollfds), numEvents))
      ensures forall fd :: fd in channels ==>
                channels[fd].revents ==
                if fd in First(Ready(pollfds), numEvents) then pollfds[Indices()[fd]].revents
                else old(channels[fd].revents)
    {
      hide Bijection, IgnoresNegative, Ready, First;
      active := activeChannels;
      var left: nat := numEvents;
      var i := 0;
      ghost var indices := Indices();
      ghost var done: seq<int> := [];
      ReadyNone(pollfds);
      while i < |pollfds| && left != 0
        invariant i <= |pollfds| && left <= numEvents
        invariant done == Ready(pollfds[..i]) && |done| == numEvents - left
        invariant Indices() == indices
        invariant activeChannels <= active && Lists(active[|activeChannels|..], done)
        invariant forall fd :: fd in done ==> fd in indices
        invariant forall fd :: fd in channels ==>
                    channels[fd].revents ==
                    if fd in done then At(pollfds, indices[fd]).revents else old(channels[fd].revents)
      {
        var pfd := pollfds[i];
        ReadyStep(pollfds, i);
        if pfd.revents > 0 {
          ReadyIndexed(indices, pollfds, i);
          left := left - 1;
          var channel := channels[pfd.fd];
          channel.revents := pfd.revents;
          active := active + [channel];
          done := done + [pfd.fd];
        }
        i := i + 1;
      }
      ReadyStops(pollfds, i, numEvents);
      forall fd | fd in channels ensures 0 <= indices[fd] < |pollfds| {
        IndexInRange(indices, pollfds, fd);
      }
    }

    /** What poll(2) writes into the array. */
    method ReceiveEvents(answer: seq<int>)
      requires Valid()
      requires |answer| == |pollfds|
      requires forall i :: 0 <= i < |answer| ==> answer[i] >= 0 && (pollfds[i].fd < 0 ==> answer[i] == 0)
      modifies this`pollfds
      ensures Valid() && Indices() == old(Indices()) && IgnoresNegative(pollfds)
      ensures pollfds == Answered(old(pollfds), answer)
    {
      ghost var indices := Indices();
      AnswerKeepsIndex(indices, pollfds, answer);
      hide Bijection, IgnoresNegative, Answered;
      pollfds := Answered(pollfds, answer);
      assert Indices() == indices;
    }

    /** `poll` with the kernel's answer: when the count is exact, each ready channel is in the list exactly once, with
        its events, and no other channel is. */
    method Poll(answer: seq<int>) returns (active: seq<Channel>)
      requires Valid()
      requires |answer| == |pollfds|
      requires forall i :: 0 <= i < |answer| ==> answer[i] >= 0 && (pollfds[i].fd < 0 ==> answer[i] == 0)
      modifies this`pollfds, channels.Values`revents
      ensures Valid() && Indices() == old(Indices())
      ensures pollfds == Answered(old(pollfds), answer)
      ensures forall j, k :: 0 <= j < k < |active| ==> active[j] != active[k]
      ensures forall c :: c in active ==> c.fd in channels && channels[c.fd] == c
      ensures forall fd :: fd in channels ==> (channels[fd] in active <==> pollfds[Indices()[fd]].revents > 0)
      ensures forall fd :: fd in channels && channels[fd] in active ==>
                channels[fd].revents == pollfds[Indices()[fd]].revents
    {
      hide Bijection, Ready, Answered, IgnoresNegative, Indices, Valid;
      ReceiveEvents(answer);
      var nEvents := CountEvents();
      active := FillActiveChannels(nEvents, []);
      assert active[0..] == active;
      ListedOnce(active);
    }

    lemma ListedOnce(active: seq<Channel>)
      requires Valid() && IgnoresNegative(pollfds) && Lists(active, Ready(pollfds))
      ensures forall j, k :: 0 <= j < k < |active| ==> active[j] != active[k]
      ensures forall c :: c in active ==> c.fd in channels && channels[c.fd] == c
      ensures forall fd :: fd in channels ==> (channels[fd] in active <==> fd in Ready(pollfds))
      ensures forall fd :: fd in channels ==> (fd in Ready(pollfds) <==> pollfds[Indices()[fd]].revents > 0)
    {
      var indices := Indices();
      ReadyOnce(indices, pollfds);
      hide Bijection, Ready, IgnoresNegative;
      var ready := Ready(pollfds);
      assert forall j :: 0 <= j < |active| ==> active[j].fd == ready[j];
      forall fd | fd in channels ensures channels[fd] in active <==> fd in ready {
        if fd in ready {
          var j :| 0 <= j < |ready| && ready[j] == fd;
          assert active[j] == channels[fd];
        }
      }
      forall fd | fd in channels ensures 0 <= indices[fd] < |pollfds| {
        IndexInRange(indices, pollfds, fd);
      }
    }

    method CountEvents() returns (n: nat)
      ensures n == |Ready(pollfds)|
    {
      n := 0;
      var i := 0;
      while i < |pollfds|
        invariant i <= |pollfds| && n == |Ready(pollfds[..i])|
      {
        assert pollfds[..i + 1][..i] == pollfds[..i];
        if pollfds[i].revents > 0 {
          n := n + 1;
        }
        i := i + 1;
      }
      assert pollfds[..i] == pollfds;
    }
  }
}
