/** The idle-connection server of time_wheel/timer_list.cpp on values: which connections a run of events
    leaves open, and that the sorted list closes exactly those that have been idle too long. */
module IdleRuns {
  import opened StableQueue

  const TIMESLOT: nat := 5
  const IDLE_LIMIT: nat := 3 * TIMESLOT

  datatype Event =
    | Accept(fd: int, now: int)
    | Data(fd: int, now: int)
    | Close(fd: int, now: int)
    | Timeout(now: int)

  // ---------- the list of the server ----------

  /** The connections with their expiry times in list order, after an event, and what the event closes. */
  function Step(s: seq<Keyed<int>>, e: Event): (seq<Keyed<int>>, seq<int>) {
    match e
    case Accept(fd, now) => (Insert(s, Keyed(fd, now + IDLE_LIMIT)), [])
    case Data(fd, now) =>
      var k := IndexOf(s, fd);
      (if k < |s| then Adjust(s[k := Keyed(fd, now + IDLE_LIMIT)], k) else s, [])
    case Close(fd, now) => (Filter(s, NotId(fd)), [fd])
    case Timeout(now) =>
      var n := DueLength(s, now);
      (s[n..], Ids(s[..n]))
  }

  // ---------- the reference: when was each open connection last active ----------

  function Active(m: map<int, int>, e: Event): map<int, int> {
    match e
    case Accept(fd, now) => m[fd := now]
    case Data(fd, now) => m[fd := now]
    case Close(fd, now) => m - {fd}
    case Timeout(now) => map fd | fd in m && m[fd] > now - IDLE_LIMIT :: m[fd]
  }

  /** Events come in order of time; a new connection has an unused descriptor, data and close concern
      open ones. */
  ghost predicate Legal(m: map<int, int>, clock: int, e: Event) {
    && e.now >= clock
    && (e.Accept? ==> e.fd !in m)
    && (e.Data? || e.Close? ==> e.fd in m)
  }

  ghost predicate LegalRun(m: map<int, int>, clock: int, es: seq<Event>)
    decreases es
  {
    es == [] || (Legal(m, clock, es[0]) && LegalRun(Active(m, es[0]), es[0].now, es[1..]))
  }

  ghost predicate Has(s: seq<Keyed<int>>, fd: int) {
    exists i :: 0 <= i < |s| && s[i].id == fd
  }

  ghost predicate Distinct(s: seq<Keyed<int>>) {
    forall i, j :: 0 <= i < j < |s| ==> s[i].id != s[j].id
  }

  ghost predicate Matches(x: Keyed<int>, m: map<int, int>, clock: int) {
    x.id in m && x.key == m[x.id] + IDLE_LIMIT && m[x.id] <= clock
  }

  /** The list holds each open connection once, with its last activity plus the limit, least recently
      active first. */
  ghost predicate Lists(s: seq<Keyed<int>>, m: map<int, int>, clock: int) {
    && (forall i :: 0 <= i < |s| ==> Matches(s[i], m, clock))
    && (forall fd :: fd in m ==> Has(s, fd))
    && Distinct(s) && Sorted(s)
  }

  /** A key changed to one that no other exceeds moves its element to the tail. */
  lemma {:induction false} AdjustToTail(s: seq<Keyed<int>>, k: nat, x: Keyed<int>)
    requires Sorted(s) && k < |s| && forall i :: 0 <= i < |s| ==> s[i].key <= x.key
    ensures Adjust(s[k := x], k) == s[..k] + s[k + 1..] + [x]
  {
    var c := s[k := x];
    var rest := s[..k] + s[k + 1..];
    assert c[..k] == s[..k] && c[k + 1..] == s[k + 1..];
    AdjustMoves(c, k);
    InsertLast(rest, x);
  }

  lemma {:induction false} KeysAtMost(s: seq<Keyed<int>>, m: map<int, int>, clock: int)
    requires Lists(s, m, clock)
    ensures forall i :: 0 <= i < |s| ==> s[i].key <= clock + IDLE_LIMIT
  {
    forall i | 0 <= i < |s| ensures s[i].key <= clock + IDLE_LIMIT {
      assert Matches(s[i], m, clock);
    }
  }

  lemma {:induction false} ListsAppend(s: seq<Keyed<int>>, m: map<int, int>, clock: int, fd: int, now: int)
    requires Lists(s, m, clock) && fd !in m && now >= clock
    ensures Lists(s + [Keyed(fd, now + IDLE_LIMIT)], m[fd := now], now)
  {
    var r := s + [Keyed(fd, now + IDLE_LIMIT)];
    KeysAtMost(s, m, clock);
    forall i | 0 <= i < |r| ensures Matches(r[i], m[fd := now], now) {
      assert i < |s| ==> Matches(s[i], m, clock);
    }
    assert Distinct(r) by {
      forall i | 0 <= i < |s| ensures s[i].id != fd {
        assert Matches(s[i], m, clock);
      }
    }
    forall f | f in m[fd := now] ensures Has(r, f) {
      if f == fd {
        assert r[|s|].id == fd;
      } else {
        var i :| 0 <= i < |s| && s[i].id == f;
        assert r[i].id == f;
      }
    }
  }

  lemma {:induction false} CutKeepsOrder(s: seq<Keyed<int>>, k: nat)
    requires Distinct(s) && Sorted(s) && k < |s|
    ensures Distinct(s[..k] + s[k + 1..]) && Sorted(s[..k] + s[k + 1..])
  {
    var r := s[..k] + s[k + 1..];
    forall i, j | 0 <= i < j < |r| ensures r[i].id != r[j].id && r[i].key <= r[j].key {
      var a, b := if i < k then i else i + 1, if j < k then j else j + 1;
      assert r[i] == s[a] && r[j] == s[b];
    }
  }

  lemma {:induction false} ListsRemove(s: seq<Keyed<int>>, m: map<int, int>, clock: int, k: nat)
    requires Lists(s, m, clock) && k < |s|
    ensures Lists(s[..k] + s[k + 1..], m - {s[k].id}, clock)
  {
    var r, m1 := s[..k] + s[k + 1..], m - {s[k].id};
    CutKeepsOrder(s, k);
    forall i | 0 <= i < |r| ensures Matches(r[i], m1, clock) {
      var a := if i < k then i else i + 1;
      assert r[i] == s[a] && s[a].id != s[k].id && Matches(s[a], m, clock);
    }
    forall f | f in m1 ensures Has(r, f) {
      var i :| 0 <= i < |s| && s[i].id == f;
      assert r[if i < k then i else i - 1].id == f;
    }
  }

  lemma {:induction false} SuffixKeepsOrder(s: seq<Keyed<int>>, n: nat)
    requires Distinct(s) && Sorted(s) && n <= |s|
    ensures Distinct(s[n..]) && Sorted(s[n..])
  {
    var r := s[n..];
    forall i, j | 0 <= i < j < |r| ensures r[i].id != r[j].id && r[i].key <= r[j].key {
      assert r[i] == s[n + i] && r[j] == s[n + j];
    }
  }

  lemma {:induction false} StillDue(s: seq<Keyed<int>>, m: map<int, int>, clock: int, now: int)
    requires Lists(s, m, clock) && now >= clock
    ensures var n := DueLength(s, now);
      forall i :: n <= i < |s| ==> Matches(s[i], Active(m, Timeout(now)), now)
  {
    var n := DueLength(s, now);
    forall i | n <= i < |s| ensures Matches(s[i], Active(m, Timeout(now)), now) {
      assert Matches(s[i], m, clock) && s[n].key <= s[i].key;
    }
  }

  lemma {:induction false} StillListed(s: seq<Keyed<int>>, m: map<int, int>, clock: int, now: int, fd: int)
    requires Lists(s, m, clock) && fd in Active(m, Timeout(now))
    ensures Has(s[DueLength(s, now)..], fd)
  {
    var n := DueLength(s, now);
    var i :| 0 <= i < |s| && s[i].id == fd;
    assert Matches(s[i], m, clock);
    assert s[n..][i - n].id == fd;
  }

  lemma {:induction false} ListsDrop(s: seq<Keyed<int>>, m: map<int, int>, clock: int, now: int)
    requires Lists(s, m, clock) && now >= clock
    ensures Lists(s[DueLength(s, now)..], Active(m, Timeout(now)), now)
  {
    var n := DueLength(s, now);
    SuffixKeepsOrder(s, n);
    StillDue(s, m, clock, now);
    forall fd | fd in Active(m, Timeout(now)) ensures Has(s[n..], fd) {
      StillListed(s, m, clock, now, fd);
    }
  }

  lemma {:induction false} DroppedAreIdle(s: seq<Keyed<int>>, m: map<int, int>, clock: int, now: int)
    requires Lists(s, m, clock)
    ensures forall fd :: fd in Ids(s[..DueLength(s, now)]) <==> fd in m && m[fd] <= now - IDLE_LIMIT
  {
    var n := DueLength(s, now);
    var d := Ids(s[..n]);
    forall fd | fd in d ensures fd in m && m[fd] <= now - IDLE_LIMIT {
      var i :| 0 <= i < n && d[i] == fd;
      assert Matches(s[i], m, clock);
    }
    forall fd | fd in m && m[fd] <= now - IDLE_LIMIT ensures fd in d {
      var i :| 0 <= i < |s| && s[i].id == fd;
      assert Matches(s[i], m, clock);
      assert n < |s| ==> s[n].key > now;
      assert i < n && d[i] == fd;
    }
  }

  lemma {:induction false} HasIndex(s: seq<Keyed<int>>, fd: int)
    requires Has(s, fd)
    ensures IndexOf(s, fd) < |s|
  {
  }

  lemma {:induction false} AcceptRefines(s: seq<Keyed<int>>, m: map<int, int>, clock: int, fd: int, now: int)
    requires Lists(s, m, clock) && fd !in m && now >= clock
    ensures Lists(Insert(s, Keyed(fd, now + IDLE_LIMIT)), m[fd := now], now)
  {
    KeysAtMost(s, m, clock);
    InsertLast(s, Keyed(fd, now + IDLE_LIMIT));
    ListsAppend(s, m, clock, fd, now);
  }

  lemma {:induction false} MovedToTail(s: seq<Keyed<int>>, m: map<int, int>, clock: int, k: nat, now: int)
    requires Lists(s, m, clock) && k < |s| && now >= clock
    ensures Lists(s[..k] + s[k + 1..] + [Keyed(s[k].id, now + IDLE_LIMIT)], m[s[k].id := now], now)
  {
    var fd := s[k].id;
    ListsRemove(s, m, clock, k);
    ListsAppend(s[..k] + s[k + 1..], m - {fd}, clock, fd, now);
    assert (m - {fd})[fd := now] == m[fd := now];
  }

  lemma {:induction false} DataRefines(s: seq<Keyed<int>>, m: map<int, int>, clock: int, fd: int, now: int)
    requires Lists(s, m, clock) && fd in m && now >= clock
    ensures Lists(Step(s, Data(fd, now)).0, m[fd := now], now)
  {
    HasIndex(s, fd);
    var k := IndexOf(s, fd);
    KeysAtMost(s, m, clock);
    AdjustToTail(s, k, Keyed(fd, now + IDLE_LIMIT));
    MovedToTail(s, m, clock, k, now);
  }

  lemma {:induction false} CloseRefines(s: seq<Keyed<int>>, m: map<int, int>, clock: int, fd: int, now: int)
    requires Lists(s, m, clock) && fd in m && now >= clock
    ensures Lists(Filter(s, NotId(fd)), m - {fd}, now)
  {
    HasIndex(s, fd);
    var k := IndexOf(s, fd);
    FilterDistinct(s, k);
    ListsRemove(s, m, clock, k);
    Later(Filter(s, NotId(fd)), m - {fd}, clock, now);
  }

  /** One event keeps the list and the reference in step; what is closed is what the reference says. */
  lemma {:induction false} StepRefines(s: seq<Keyed<int>>, m: map<int, int>, clock: int, e: Event)
    requires Lists(s, m, clock) && Legal(m, clock, e)
    ensures Lists(Step(s, e).0, Active(m, e), e.now)
    ensures e.Timeout? ==> forall fd :: fd in Step(s, e).1 <==> fd in m && m[fd] <= e.now - IDLE_LIMIT
  {
    if e.Accept? {
      AcceptRefines(s, m, clock, e.fd, e.now);
    } else if e.Data? {
      DataRefines(s, m, clock, e.fd, e.now);
    } else if e.Close? {
      CloseRefines(s, m, clock, e.fd, e.now);
    } else {
      ListsDrop(s, m, clock, e.now);
      DroppedAreIdle(s, m, clock, e.now);
    }
  }

  lemma {:induction false} Later(s: seq<Keyed<int>>, m: map<int, int>, clock: int, now: int)
    requires Lists(s, m, clock) && now >= clock
    ensures Lists(s, m, now)
  {
    forall i | 0 <= i < |s| ensures Matches(s[i], m, now) {
      assert Matches(s[i], m, clock);
    }
  }

  // ---------- runs ----------

  function Run(s: seq<Keyed<int>>, es: seq<Event>): (r: (seq<Keyed<int>>, seq<seq<int>>))
    ensures |r.1| == |es|
    decreases es
  {
    if es == [] then (s, [])
    else
      var (s1, closed) := Step(s, es[0]);
      var (s2, rest) := Run(s1, es[1..]);
      (s2, [closed] + rest)
  }

  /** The reference state before the i-th event. */
  function ActiveBefore(m: map<int, int>, es: seq<Event>, i: nat): map<int, int>
    requires i <= |es|
    decreases i
  {
    if i == 0 then m else ActiveBefore(Active(m, es[0]), es[1..], i - 1)
  }

  lemma {:induction false} RunSnoc(s: seq<Keyed<int>>, es: seq<Event>, e: Event)
    ensures var l := Run(s, es).0;
      Run(s, es + [e]) == (Step(l, e).0, Run(s, es).1 + [Step(l, e).1])
    decreases es
  {
    if es == [] {
      assert [e][1..] == [] && es + [e] == [e];
      assert [Step(s, e).1] + [] == [] + [Step(s, e).1];
    } else {
      var (s1, closed) := Step(s, es[0]);
      RunSnoc(s1, es[1..], e);
      assert (es + [e])[0] == es[0] && (es + [e])[1..] == es[1..] + [e];
      var rest, last := Run(s1, es[1..]), Step(Run(s1, es[1..]).0, e);
      assert Run(s1, es[1..] + [e]) == (last.0, rest.1 + [last.1]);
      Regroup([closed], rest.1, [last.1]);
    }
  }

  lemma {:induction false} ActiveOfPrefix(m: map<int, int>, es: seq<Event>, e: Event, i: nat)
    requires i <= |es|
    ensures ActiveBefore(m, es + [e], i) == ActiveBefore(m, es, i)
    decreases i
  {
    if i > 0 {
      ActiveOfPrefix(Active(m, es[0]), es[1..], e, i - 1);
      assert (es + [e])[0] == es[0] && (es + [e])[1..] == es[1..] + [e];
    }
  }

  /** Over every run, the tick at time T closes exactly the connections last active at T - 15 or before. */
  lemma {:induction false} ClosesExactlyTheIdle(s: seq<Keyed<int>>, m: map<int, int>, clock: int,
                                                es: seq<Event>, i: nat)
    requires Lists(s, m, clock) && LegalRun(m, clock, es) && i < |es| && es[i].Timeout?
    ensures var before := ActiveBefore(m, es, i);
      forall fd :: fd in Run(s, es).1[i] <==> fd in before && before[fd] <= es[i].now - IDLE_LIMIT
    decreases i
  {
    StepRefines(s, m, clock, es[0]);
    if i > 0 {
      ClosesExactlyTheIdle(Step(s, es[0]).0, Active(m, es[0]), es[0].now, es[1..], i - 1);
    }
  }

  /** After every run the list is the open connections in order of their last activity. */
  lemma {:induction false} RunKeepsLists(s: seq<Keyed<int>>, m: map<int, int>, clock: int, es: seq<Event>)
    requires Lists(s, m, clock) && LegalRun(m, clock, es)
    ensures Lists(Run(s, es).0, ActiveBefore(m, es, |es|), if es == [] then clock else es[|es| - 1].now)
    decreases es
  {
    if es != [] {
      StepRefines(s, m, clock, es[0]);
      RunKeepsLists(Step(s, es[0]).0, Active(m, es[0]), es[0].now, es[1..]);
    }
  }

  // ---------- how long a connection can stay idle ----------

  /** A time before the next tick at most g seconds after the last one; ticked is the time of the last. */
  ghost predicate TicksWithin(ticked: int, g: nat, es: seq<Event>)
    decreases es
  {
    es == [] || (es[0].now <= ticked + g && TicksWithin(if es[0].Timeout? then es[0].now else ticked, g, es[1..]))
  }

  /** Everything in the list expires after time t: was last active after t - 15. */
  ghost predicate NoneOverdue(s: seq<Keyed<int>>, t: int) {
    forall i :: 0 <= i < |s| ==> s[i].key > t
  }

  /** Every open connection is in the list with its last activity plus the limit. */
  ghost predicate HasAll(s: seq<Keyed<int>>, m: map<int, int>) {
    forall fd :: fd in m ==> Keyed(fd, m[fd] + IDLE_LIMIT) in s
  }

  lemma {:induction false} NoneOverdueStep(s: seq<Keyed<int>>, m: map<int, int>, clock: int, ticked: int, e: Event)
    requires Lists(s, m, clock) && Legal(m, clock, e) && ticked <= clock && NoneOverdue(s, ticked)
    ensures NoneOverdue(Step(s, e).0, if e.Timeout? then e.now else ticked)
  {
    StepRefines(s, m, clock, e);
    var t := Step(s, e).0;
    if e.Timeout? {
      var n := DueLength(s, e.now);
      assert forall i :: n <= i < |s| ==> s[n].key <= s[i].key;
    } else {
      forall i | 0 <= i < |t| ensures t[i].key > ticked {
        assert Matches(t[i], Active(m, e), e.now);
        if t[i].id in m && Active(m, e)[t[i].id] == m[t[i].id] {
          var j :| 0 <= j < |s| && s[j].id == t[i].id;
          assert Matches(s[j], m, clock);
        }
      }
    }
  }

  /** If ticks are at most g seconds apart, then at every event of a run nothing in the list has been due for
      g seconds or more: no connection, and the list has them all, has been idle for 15 + g. */
  lemma {:induction false} IdleTimeIsBounded(s: seq<Keyed<int>>, m: map<int, int>, clock: int, ticked: int, g: nat,
                                             es: seq<Event>, i: nat)
    requires Lists(s, m, clock) && LegalRun(m, clock, es) && TicksWithin(ticked, g, es)
    requires NoneOverdue(s, ticked) && ticked <= clock && i < |es|
    ensures var l := Run(s, es[..i]).0;
      NoneOverdue(l, es[i].now - g) && HasAll(l, ActiveBefore(m, es, i))
    decreases i
  {
    if i == 0 {
      assert es[..i] == [];
      forall fd | fd in m ensures Keyed(fd, m[fd] + IDLE_LIMIT) in s {
        var j :| 0 <= j < |s| && s[j].id == fd;
        assert Matches(s[j], m, clock);
      }
    } else {
      StepRefines(s, m, clock, es[0]);
      NoneOverdueStep(s, m, clock, ticked, es[0]);
      assert es[..i][1..] == es[1..][..i - 1] && es[..i][0] == es[0] && es[1..][i - 1] == es[i];
      IdleTimeIsBounded(Step(s, es[0]).0, Active(m, es[0]), es[0].now, if es[0].Timeout? then es[0].now else ticked, g,
                        es[1..], i - 1);
    }
  }

  // ---------- last activity, read off the events ----------

  /** An accept of fd or data from it, at time t. */
  predicate Touches(e: Event, fd: int, t: int) {
    e == Accept(fd, t) || e == Data(fd, t)
  }

  /** Activity of fd, its close, or a tick at least 15 seconds after t. */
  predicate Ends(e: Event, fd: int, t: int) {
    match e
    case Accept(f, _) => f == fd
    case Data(f, _) => f == fd
    case Close(f, _) => f == fd
    case Timeout(now) => t <= now - 15
  }

  ghost predicate LastTouched(es: seq<Event>, fd: int, t: int) {
    exists j :: 0 <= j < |es| && LastTouchedBy(es, j, fd, t)
  }

  ghost predicate NoneEnds(es: seq<Event>, fd: int, t: int) {
    forall k :: 0 <= k < |es| ==> !Ends(es[k], fd, t)
  }

  lemma {:induction false} ActiveSnoc(m: map<int, int>, es: seq<Event>, e: Event)
    ensures ActiveBefore(m, es + [e], |es| + 1) == Active(ActiveBefore(m, es, |es|), e)
    decreases es
  {
    if es == [] {
      assert es + [e] == [e] && [e][1..] == [];
    } else {
      ActiveSnoc(Active(m, es[0]), es[1..], e);
      assert (es + [e])[0] == es[0] && (es + [e])[1..] == es[1..] + [e];
    }
  }

  ghost predicate LastTouchedBy(es: seq<Event>, j: nat, fd: int, t: int)
    requires j < |es|
  {
    Touches(es[j], fd, t) && NoneEnds(es[j + 1..], fd, t)
  }

  lemma {:induction false} NoneEndsSnoc(es: seq<Event>, e: Event, fd: int, t: int)
    ensures NoneEnds(es + [e], fd, t) <==> NoneEnds(es, fd, t) && !Ends(e, fd, t)
  {
    var a := es + [e];
    assert a[|es|] == e && forall k :: 0 <= k < |es| ==> a[k] == es[k];
  }

  lemma LastTouchedByKept(es: seq<Event>, e: Event, j: nat, fd: int, t: int)
    requires j < |es|
    ensures LastTouchedBy(es + [e], j, fd, t) <==> LastTouchedBy(es, j, fd, t) && !Ends(e, fd, t)
  {
    assert (es + [e])[j] == es[j] && (es + [e])[j + 1..] == es[j + 1..] + [e];
    NoneEndsSnoc(es[j + 1..], e, fd, t);
  }

  lemma {:induction false} LastTouchedSnoc(es: seq<Event>, e: Event, fd: int, t: int)
    ensures LastTouched(es + [e], fd, t) <==> Touches(e, fd, t) || (LastTouched(es, fd, t) && !Ends(e, fd, t))
  {
    var a := es + [e];
    assert LastTouchedBy(a, |es|, fd, t) <==> Touches(e, fd, t) by {
      assert a[|es|] == e && a[|es| + 1..] == [];
    }
    forall j | 0 <= j < |es| ensures LastTouchedBy(a, j, fd, t) <==> LastTouchedBy(es, j, fd, t) && !Ends(e, fd, t) {
      LastTouchedByKept(es, e, j, fd, t);
    }
  }

  /** A connection is open with last activity at t if and only if it was accepted or sent data at t, and since then
      has neither sent more nor been closed, nor has a tick come at t + 15 or later. */
  lemma {:induction false} ActiveIffLastTouched(es: seq<Event>, fd: int, t: int)
    ensures var m := ActiveBefore(map[], es, |es|);
      fd in m && m[fd] == t <==> LastTouched(es, fd, t)
  {
    if es != [] {
      var a, e := es[..|es| - 1], es[|es| - 1];
      assert es == a + [e];
      ActiveIffLastTouched(a, fd, t);
      ActiveSnoc(map[], a, e);
      LastTouchedSnoc(a, e, fd, t);
    }
  }

  /** Over every run from the start, the tick at time T closes exactly the connections whose last activity, as the
      events before show it, was at T - 15 or before. */
  lemma {:induction false} TickClosesByEvents(clock: int, es: seq<Event>, now: int, fd: int)
    requires LegalRun(map[], clock, es + [Timeout(now)])
    ensures fd in Step(Run([], es).0, Timeout(now)).1 <==> exists t :: LastTouched(es, fd, t) && t <= now - 15
  {
    var m := ActiveBefore(map[], es, |es|);
    ClosesExactlyTheIdle([], map[], clock, es + [Timeout(now)], |es|);
    RunSnoc([], es, Timeout(now));
    ActiveOfPrefix(map[], es, Timeout(now), |es|);
    if fd in m {
      ActiveIffLastTouched(es, fd, m[fd]);
    }
    forall t | LastTouched(es, fd, t) ensures fd in m && m[fd] == t {
      ActiveIffLastTouched(es, fd, t);
    }
  }
}
