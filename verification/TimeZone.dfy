/** Local times over a table of transitions (arale/base/TimeZone.cc). */
module TimeZone {
  import Date
  import opened UtcTime

  datatype Transition = Transition(gmttime: int, localtime: int, localtimeIdx: nat)
  datatype Localtime = Localtime(gmtOffset: int, isDst: bool, arrbIdx: int)
  datatype Data = Data(transitions: seq<Transition>, localtimes: seq<Localtime>)

  /** `Comp`: the field of a transition that the search compares. */
  function Key(tr: Transition, gmt: bool): int {
    if gmt then tr.gmttime else tr.localtime
  }

  ghost predicate Ascending(ts: seq<Transition>, gmt: bool) {
    forall i, j :: 0 <= i < j < |ts| ==> Key(ts[i], gmt) < Key(ts[j], gmt)
  }

  /** `lower_bound`: the first position in [lo, hi) whose key is not below `key`, or `hi`. */
  function LowerBound(ts: seq<Transition>, key: int, gmt: bool, lo: nat, hi: nat): (r: nat)
    requires lo <= hi <= |ts|
    ensures lo <= r <= hi && (r < hi ==> Key(ts[r], gmt) >= key)
    ensures Ascending(ts, gmt) ==> forall i :: lo <= i < hi ==> (Key(ts[i], gmt) < key <==> i < r)
    decreases hi - lo
  {
    if lo == hi then lo
    else
      var mid := lo + (hi - lo) / 2;
      if Key(ts[mid], gmt) < key then LowerBound(ts, key, gmt, mid + 1, hi)
      else LowerBound(ts, key, gmt, lo, mid)
  }

  /** A table the file reader can have produced: local times follow from the offsets. */
  ghost predicate Valid(data: Data) {
    && |data.localtimes| > 0
    && (forall i :: 0 <= i < |data.transitions| ==>
          && data.transitions[i].localtimeIdx < |data.localtimes|
          && data.transitions[i].localtime ==
             data.transitions[i].gmttime + data.localtimes[data.transitions[i].localtimeIdx].gmtOffset)
  }

  /** The transition that `findLocaltime` picks; -1 stands for the first local time type. */
  function FindTransition(ts: seq<Transition>, key: int, gmt: bool): (k: int)
    ensures -1 <= k < |ts|
  {
    if |ts| == 0 || key < Key(ts[0], gmt) then -1
    else
      var i := LowerBound(ts, key, gmt, 0, |ts|);
      if i < |ts| then
        if key != Key(ts[i], gmt) then
          assert i != 0;
          i - 1
        else i
      else |ts| - 1
  }

  function FindLocaltime(data: Data, key: int, gmt: bool): Localtime
    requires Valid(data)
  {
    var k := FindTransition(data.transitions, key, gmt);
    if k < 0 then data.localtimes[0] else data.localtimes[data.transitions[k].localtimeIdx]
  }

  // ---- What the search means ----

  /** The local time type in force from transition `k` on; before the first transition it is type 0. */
  function TypeAt(data: Data, k: int): Localtime
    requires Valid(data) && -1 <= k < |data.transitions|
  {
    if k < 0 then data.localtimes[0] else data.localtimes[data.transitions[k].localtimeIdx]
  }

  function Offset(data: Data, k: int): int
    requires Valid(data) && -1 <= k < |data.transitions|
  {
    TypeAt(data, k).gmtOffset
  }

  /** Transition `k` is the last one at or before `key` (-1: there is none). */
  ghost predicate IsLast(data: Data, key: int, gmt: bool, k: int) {
    && -1 <= k < |data.transitions|
    && (k >= 0 ==> Key(data.transitions[k], gmt) <= key)
    && (k + 1 < |data.transitions| ==> key < Key(data.transitions[k + 1], gmt))
  }

  /** The search ends at the last transition if its key is met, and right behind it otherwise. */
  lemma BoundIsNext(ts: seq<Transition>, key: int, gmt: bool, k: int)
    requires Ascending(ts, gmt) && -1 <= k < |ts|
    requires k >= 0 ==> Key(ts[k], gmt) <= key
    requires k + 1 < |ts| ==> key < Key(ts[k + 1], gmt)
    ensures var i := LowerBound(ts, key, gmt, 0, |ts|);
            if k >= 0 && Key(ts[k], gmt) == key then i == k else i == k + 1
    ensures k >= 0 ==> Key(ts[0], gmt) <= key
  {
    hide LowerBound, Key;
    var i := LowerBound(ts, key, gmt, 0, |ts|);
    assert k >= 0 ==> (Key(ts[k], gmt) < key <==> k < i);
    assert k + 1 < |ts| ==> i <= k + 1;
    assert k >= 1 ==> Key(ts[k - 1], gmt) < Key(ts[k], gmt);
    assert k >= 0 ==> Key(ts[0], gmt) <= Key(ts[k], gmt);
  }

  /** Binary search finds the last transition at or before the key. */
  lemma PicksLast(ts: seq<Transition>, key: int, gmt: bool, k: int)
    requires Ascending(ts, gmt) && -1 <= k < |ts|
    requires k >= 0 ==> Key(ts[k], gmt) <= key
    requires k + 1 < |ts| ==> key < Key(ts[k + 1], gmt)
    ensures FindTransition(ts, key, gmt) == k
  {
    BoundIsNext(ts, key, gmt, k);
    hide LowerBound, Key, Ascending;
  }

  /** And so the type of the last transition at or before the key. */
  lemma FindsLast(data: Data, key: int, gmt: bool, k: int)
    requires Valid(data) && Ascending(data.transitions, gmt) && IsLast(data, key, gmt, k)
    ensures FindLocaltime(data, key, gmt) == TypeAt(data, k)
  {
    hide LowerBound, Key, Ascending, FindTransition;
    PicksLast(data.transitions, key, gmt, k);
  }

  lemma LastIsUnique(data: Data, key: int, gmt: bool, k: int, k': int)
    requires Ascending(data.transitions, gmt) && IsLast(data, key, gmt, k) && IsLast(data, key, gmt, k')
    ensures k == k'
  {
  }

  lemma LastExists(data: Data, key: int, gmt: bool) returns (k: int)
    requires Ascending(data.transitions, gmt)
    ensures IsLast(data, key, gmt, k)
  {
    var ts := data.transitions;
    var i := LowerBound(ts, key, gmt, 0, |ts|);
    k := if i < |ts| && Key(ts[i], gmt) == key then i else i - 1;
  }

  // ---- Conversions ----

  /** The local time at instant `t`. `gmtime_r` is the file's own UTC conversion. */
  function ToLocal(data: Data, t: int): Tm
    requires Valid(data)
  {
    var local := FindLocaltime(data, t, true);
    UtcOf(t + local.gmtOffset, true).(isdst := local.isDst, gmtoff := local.gmtOffset)
  }

  /** `fromLocalTime` guesses that a DST time was the first pass of a repeated hour. */
  predicate GuessesFirstPass(data: Data, localTm: Tm, seconds: int)
    requires Valid(data)
  {
    var tryTm := ToLocal(data, seconds - FindLocaltime(data, seconds, false).gmtOffset);
    localTm.isdst && !tryTm.isdst && tryTm.hour == localTm.hour && tryTm.min == localTm.min
  }

  function FromLocal(data: Data, localTm: Tm): int
    requires Valid(data)
  {
    var seconds := FromUtcTm(localTm);
    seconds - (if GuessesFirstPass(data, localTm, seconds) then 3600 else 0)
    - FindLocaltime(data, seconds, false).gmtOffset
  }

  method ToLocalTime(data: Data, seconds: int) returns (localTime: Tm)
    requires Valid(data)
    ensures InUtcRange(seconds + FindLocaltime(data, seconds, true).gmtOffset) ==>
              localTime == ToLocal(data, seconds)
  {
    hide UtcOf;
    var local := FindLocaltime(data, seconds, true);
    var localSeconds := seconds + local.gmtOffset;
    localTime := ToUtcTime(localSeconds, true);
    localTime := localTime.(isdst := local.isDst);
    localTime := localTime.(gmtoff := local.gmtOffset);
  }

  method FromLocalTime(data: Data, localTm: Tm) returns (r: int)
    requires Valid(data)
    ensures var tried := FromUtcTm(localTm) - FindLocaltime(data, FromUtcTm(localTm), false).gmtOffset;
            InUtcRange(tried + FindLocaltime(data, tried, true).gmtOffset) ==> r == FromLocal(data, localTm)
  {
    hide UtcOf, FromUtcTm, FindLocaltime;
    var seconds := FromUtcTm(localTm);
    var local := FindLocaltime(data, seconds, false);
    if localTm.isdst {
      var tryTm := ToLocalTime(data, seconds - local.gmtOffset);
      if !tryTm.isdst && tryTm.hour == localTm.hour && tryTm.min == localTm.min {
        seconds := seconds - 3600;
      }
    }
    r := seconds - local.gmtOffset;
  }

  // ---- The round trip ----

  /** How far transition `k` sets the clock back. */
  function Drop(data: Data, k: int): nat
    requires Valid(data) && 0 <= k < |data.transitions|
  {
    if Offset(data, k) < Offset(data, k - 1) then Offset(data, k - 1) - Offset(data, k) else 0
  }

  /** Ascending transitions, each far enough behind the last that repeated local times do not overlap. */
  ghost predicate Spaced(data: Data) {
    && Valid(data)
    && Ascending(data.transitions, true) && Ascending(data.transitions, false)
    && (forall k :: 0 <= k && k + 1 < |data.transitions| ==>
          && data.transitions[k].gmttime + Drop(data, k) <= data.transitions[k + 1].gmttime
          && data.transitions[k].localtime + Drop(data, k) <= data.transitions[k + 1].localtime)
  }

  /** Instant `t` shows a local time that transition `k + 1` will repeat: the first pass. */
  ghost predicate FirstPass(data: Data, t: int, k: int)
    requires Valid(data) && IsLast(data, t, true, k)
  {
    k + 1 < |data.transitions| && t + Offset(data, k) >= data.transitions[k + 1].localtime
  }

  /** The one kind of transition that `fromLocalTime` can undo: one hour back, from DST to standard time. */
  ghost predicate HourBackFromDst(data: Data, k: int)
    requires Valid(data) && 0 <= k < |data.transitions|
  {
    TypeAt(data, k - 1).isDst && !TypeAt(data, k).isDst && Drop(data, k) == 3600
  }

  lemma LocalSeconds(data: Data, t: int, k: int)
    requires Spaced(data) && IsLast(data, t, true, k) && InUtcRange(t + Offset(data, k))
    ensures FromUtcTm(ToLocal(data, t)) == t + Offset(data, k)
    ensures ToLocal(data, t).isdst == TypeAt(data, k).isDst
  {
    hide UtcOf, Date.JulianDayNumber;
    FindsLast(data, t, true, k);
    var utc := UtcOf(t + Offset(data, k), true);
    UtcRoundTrip(t + Offset(data, k), true);
    ZoneIsIgnored(utc, TypeAt(data, k).isDst, Offset(data, k));
  }

  lemma PlainFields(t: int)
    ensures !UtcOf(t, true).isdst && UtcOf(t, true).gmtoff == 0
  {
    hide Date.JulianDayNumber, Date.YearMonthDay, Date.WeekDay;
  }

  /** The fields of a local time: the UTC fields of the instant moved by the offset of the last transition at or before
      it, with that offset and its flag. */
  lemma LocalFields(data: Data, t: int, k: int)
    requires Valid(data) && Ascending(data.transitions, true) && -1 <= k < |data.transitions|
    requires k >= 0 ==> data.transitions[k].gmttime <= t
    requires k + 1 < |data.transitions| ==> t < data.transitions[k + 1].gmttime
    ensures var local := if k < 0 then data.localtimes[0] else data.localtimes[data.transitions[k].localtimeIdx];
            && ToLocal(data, t).(isdst := false, gmtoff := 0) == UtcOf(t + local.gmtOffset, true)
            && ToLocal(data, t).isdst == local.isDst && ToLocal(data, t).gmtoff == local.gmtOffset
  {
    hide UtcOf, FindLocaltime, Ascending;
    FindsLast(data, t, true, k);
    PlainFields(t + TypeAt(data, k).gmtOffset);
  }

  /** What `fromLocalTime` gives for any broken-down time, one that no instant shows included: k is the last transition
      at or before its seconds by local times, j the last at or before the instant tried by UTC. */
  lemma FromLocalExactly(data: Data, tm: Tm, k: int, j: int)
    requires Valid(data) && Ascending(data.transitions, true) && Ascending(data.transitions, false)
    requires IsLast(data, FromUtcTm(tm), false, k)
    requires IsLast(data, FromUtcTm(tm) - Offset(data, k), true, j)
    ensures var tried := FromUtcTm(tm) - Offset(data, k);
            var shown := UtcOf(tried + Offset(data, j), true);
            FromLocal(data, tm) ==
            if tm.isdst && !TypeAt(data, j).isDst && shown.hour == tm.hour && shown.min == tm.min
            then tried - 3600 else tried
  {
    hide UtcOf, FromUtcTm, FindLocaltime;
    FindsLast(data, FromUtcTm(tm), false, k);
    FindsLast(data, FromUtcTm(tm) - Offset(data, k), true, j);
  }

  /** The two kinds of keys. */
  lemma KeysAre(tr: Transition)
    ensures Key(tr, true) == tr.gmttime && Key(tr, false) == tr.localtime
  {
  }

  lemma ZoneIsIgnored(utc: Tm, isdst: bool, gmtoff: int)
    ensures FromUtcTm(utc.(isdst := isdst, gmtoff := gmtoff)) == FromUtcTm(utc)
  {
    hide Date.JulianDayNumber;
  }

  /** Outside a first pass the local search finds the transition that the instant was under. */
  lemma SingleOrSecondPass(data: Data, t: int, k: int)
    requires Spaced(data) && IsLast(data, t, true, k) && InUtcRange(t + Offset(data, k))
    requires !FirstPass(data, t, k)
    ensures FromLocal(data, ToLocal(data, t)) == t
  {
    hide UtcOf, FromUtcTm, FindLocaltime;
    LocalSeconds(data, t, k);
    var l := t + Offset(data, k);
    FindsLast(data, l, false, k);
    assert l - Offset(data, k) == t;
  }

  /** In a first pass it finds the transition that is still to come, and tries the second pass. */
  lemma FirstPassResult(data: Data, t: int, k: int)
    requires Spaced(data) && IsLast(data, t, true, k) && InUtcRange(t + Offset(data, k))
    requires FirstPass(data, t, k)
    ensures Drop(data, k + 1) > 0
    ensures FromLocal(data, ToLocal(data, t)) ==
            t + Drop(data, k + 1)
            - (if TypeAt(data, k).isDst && !TypeAt(data, k + 1).isDst then 3600 else 0)
  {
    hide UtcOf, FromUtcTm, FindLocaltime;
    var ts := data.transitions;
    var l := t + Offset(data, k);
    LocalSeconds(data, t, k);
    assert l < ts[k + 1].localtime + Drop(data, k + 1);
    FindsLast(data, l, false, k + 1);
    var tried := l - Offset(data, k + 1);
    assert ts[k + 1].gmttime <= tried < ts[k + 1].gmttime + Drop(data, k + 1);
    FindsLast(data, tried, true, k + 1);
    FindsLast(data, t, true, k);
  }

  /** Converting to local time and back gives the instant, except in first passes of other transitions. */
  lemma LocalRoundTrip(data: Data, t: int, k: int)
    requires Spaced(data) && IsLast(data, t, true, k) && InUtcRange(t + Offset(data, k))
    ensures FromLocal(data, ToLocal(data, t)) == t <==>
            (FirstPass(data, t, k) ==> HourBackFromDst(data, k + 1))
  {
    hide FromLocal, ToLocal;
    if FirstPass(data, t, k) {
      FirstPassResult(data, t, k);
    } else {
      SingleOrSecondPass(data, t, k);
    }
  }

  // ---- Tables with plain daylight saving time ----

  /** Transitions at least two hours apart that set the clock forward, or one hour back from DST. */
  ghost predicate PlainDst(data: Data) {
    && Valid(data)
    && (forall k :: 0 <= k && k + 1 < |data.transitions| ==>
          data.transitions[k].gmttime + 7200 <= data.transitions[k + 1].gmttime)
    && (forall k :: 0 <= k < |data.transitions| ==>
          Offset(data, k) >= Offset(data, k - 1) || HourBackFromDst(data, k))
  }

  lemma {:induction false} PlainDstOrdered(data: Data, i: nat, j: nat)
    requires PlainDst(data) && i < j < |data.transitions|
    ensures data.transitions[i].gmttime < data.transitions[j].gmttime
    ensures data.transitions[i].localtime < data.transitions[j].localtime
  {
    assert Offset(data, j) >= Offset(data, j - 1) - 3600;
    if i < j - 1 {
      PlainDstOrdered(data, i, j - 1);
    }
  }

  lemma PlainDstGap(data: Data, k: nat)
    requires PlainDst(data) && k + 1 < |data.transitions|
    ensures data.transitions[k].gmttime + Drop(data, k) <= data.transitions[k + 1].gmttime
    ensures data.transitions[k].localtime + Drop(data, k) <= data.transitions[k + 1].localtime
  {
    assert Drop(data, k) <= 3600 && Offset(data, k + 1) >= Offset(data, k) - 3600;
  }

  lemma PlainDstSpaced(data: Data)
    requires PlainDst(data)
    ensures Spaced(data)
  {
    forall i, j | 0 <= i < j < |data.transitions|
      ensures data.transitions[i].gmttime < data.transitions[j].gmttime
      ensures data.transitions[i].localtime < data.transitions[j].localtime
    {
      PlainDstOrdered(data, i, j);
    }
    forall k | 0 <= k && k + 1 < |data.transitions|
      ensures data.transitions[k].gmttime + Drop(data, k) <= data.transitions[k + 1].gmttime
      ensures data.transitions[k].localtime + Drop(data, k) <= data.transitions[k + 1].localtime
    {
      PlainDstGap(data, k);
    }
  }

  /** With plain daylight saving time every instant survives, both passes of the repeated hour included. */
  lemma PlainDstRoundTrip(data: Data, t: int)
    requires PlainDst(data) && InUtcRange(t + FindLocaltime(data, t, true).gmtOffset)
    ensures FromLocal(data, ToLocal(data, t)) == t
  {
    hide FromLocal, ToLocal;
    PlainDstSpaced(data);
    var k := LastExists(data, t, true);
    FindsLast(data, t, true, k);
    if FirstPass(data, t, k) {
      FirstPassSetsBack(data, t, k);
    }
    LocalRoundTrip(data, t, k);
  }

  lemma FirstPassSetsBack(data: Data, t: int, k: int)
    requires Valid(data) && IsLast(data, t, true, k) && FirstPass(data, t, k)
    ensures Offset(data, k + 1) < Offset(data, k)
  {
  }
}
