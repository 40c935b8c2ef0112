/** `std::set<std::pair<Timestamp, Timer*>>` of arale/net/TimerQueue.h, by its elements in order. */
module TimerSet {
  const ADDR_MAX := 0xFFFF_FFFF_FFFF_FFFF  // UINTPTR_MAX, which is no timer's address

  type Addr = a: int | 0 <= a < ADDR_MAX

  datatype Entry = Entry(when: int, addr: int)

  /** `operator<` of the pair. */
  predicate Less(e: Entry, f: Entry) {
    e.when < f.when || (e.when == f.when && e.addr < f.addr)
  }

  ghost predicate Sorted(s: seq<Entry>) {
    forall i, j :: 0 <= i < j < |s| ==> Less(s[i], s[j])
  }

  function Insert(s: seq<Entry>, e: Entry): seq<Entry> {
    if s == [] || Less(e, s[0]) then [e] + s
    else if e == s[0] then s
    else [s[0]] + Insert(s[1..], e)
  }

  function Erase(s: seq<Entry>, e: Entry): seq<Entry> {
    if s == [] then []
    else if s[0] == e then s[1..]
    else [s[0]] + Erase(s[1..], e)
  }

  /** How many elements lie before `lower_bound(sentry)`. */
  function CountLess(s: seq<Entry>, sentry: Entry): (n: nat)
    ensures n <= |s|
  {
    if s == [] || !Less(s[0], sentry) then 0 else 1 + CountLess(s[1..], sentry)
  }

  lemma {:induction false} InsertSorted(s: seq<Entry>, e: Entry)
    requires Sorted(s)
    ensures Sorted(Insert(s, e))
    ensures forall x :: x in Insert(s, e) <==> x in s || x == e
    ensures Insert(s, e)[0] == if s == [] || Less(e, s[0]) then e else s[0]
  {
    if s != [] && !Less(e, s[0]) && e != s[0] {
      InsertSorted(s[1..], e);
      var r := Insert(s[1..], e);
      assert forall x :: x in s <==> x == s[0] || x in s[1..];
      assert forall i :: 0 <= i < |r| ==> r[i] in r;
      assert forall i :: 0 <= i < |s[1..]| ==> Less(s[0], s[1..][i]);
    }
  }

  lemma {:induction false} EraseSorted(s: seq<Entry>, e: Entry)
    requires Sorted(s)
    ensures Sorted(Erase(s, e))
    ensures forall x :: x in Erase(s, e) <==> x in s && x != e
    ensures |Erase(s, e)| == if e in s then |s| - 1 else |s|
    ensures Erase(s, e) != [] ==> Erase(s, e)[0] == s[0] || Less(s[0], Erase(s, e)[0])
  {
    if s != [] {
      var t := s[1..];
      EraseSorted(t, e);
      assert forall x :: x in s <==> x == s[0] || x in t;
      assert forall i :: 0 <= i < |t| ==> Less(s[0], t[i]);
      if s[0] != e {
        var r := Erase(t, e);
        assert forall i :: 0 <= i < |r| ==> r[i] in r && r[i] in t;
      }
    }
  }

  /** `lower_bound` with the largest address finds the first element that is not due. */
  lemma {:induction false} CountDue(s: seq<Entry>, now: int)
    requires Sorted(s) && forall i :: 0 <= i < |s| ==> s[i].addr < ADDR_MAX
    ensures var n := CountLess(s, Entry(now, ADDR_MAX));
            forall i :: 0 <= i < |s| ==> (s[i].when <= now <==> i < n)
  {
    if s != [] && s[0].when <= now {
      var t := s[1..];
      CountDue(t, now);
      assert forall i :: 0 < i < |s| ==> s[i] == t[i - 1];
    }
  }

  /** It splits a sorted set into what is due and what is not. */
  lemma SplitDue(s: seq<Entry>, now: int, n: nat)
    requires Sorted(s) && forall e :: e in s ==> e.addr < ADDR_MAX
    requires n == CountLess(s, Entry(now, ADDR_MAX))
    ensures Sorted(s[..n]) && Sorted(s[n..])
    ensures forall e :: e in s[..n] <==> e in s && e.when <= now
    ensures forall e :: e in s[n..] <==> e in s && e.when > now
  {
    CountDue(s, now);
  }
}
