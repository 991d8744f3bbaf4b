/** The wheel-based server (timer/test.cpp) as the wheel sees it: what its events do to the timers, and on
    which tick a connection is timed out. */
module ServerRuns {
  import opened StableQueue
  import opened WheelModel
  import opened WheelRuns
  import opened SkippingWheel
  import opened OnTime
  import opened FlatWheel

  const CLIENT_TIMEOUT: int := 15000

  /** What happens to the connection with timer c; a failed accept and a round without events concern none. */
  datatype ServerEvent<T> =
    | Accepted(c: T)
    | Missed
    | Readable(c: T)
    | Written(c: T)
    | HungUp(c: T)
    | Quiet

  function Ops<T>(e: ServerEvent<T>): seq<Op<T>> {
    match e
    case Accepted(c) => [Add(c, CLIENT_TIMEOUT)]
    case Missed => []
    case Readable(c) => []
    case Written(c) => [Reset(c, CLIENT_TIMEOUT)]
    case HungUp(c) => [Delete(c)]
    case Quiet => [Tock]
  }

  function AllOps<T>(es: seq<ServerEvent<T>>): seq<Op<T>> {
    if es == [] then [] else Ops(es[0]) + AllOps(es[1..])
  }

  function QuietRounds<T>(es: seq<ServerEvent<T>>): nat {
    if es == [] then 0 else (if es[0].Quiet? then 1 else 0) + QuietRounds(es[1..])
  }

  predicate Ignores<T(==)>(e: ServerEvent<T>, c: T) {
    e.Quiet? || e.Missed? || e.Readable? || e.c != c
  }

  ghost predicate AllIgnore<T>(es: seq<ServerEvent<T>>, c: T) {
    forall i :: 0 <= i < |es| ==> Ignores(es[i], c)
  }

  /** The wheel after a run of events, with the tick as written. */
  function WheelAfter<T(==)>(w: Wheel<T>, es: seq<ServerEvent<T>>): (r: Wheel<T>)
    requires Shape(w)
    ensures Shape(r)
  {
    SkipRun(w, AllOps(es)).0
  }

  /** Which timers the i-th event of a run fires. */
  function FiredBy<T(==)>(w: Wheel<T>, es: seq<ServerEvent<T>>, i: nat): seq<T>
    requires Shape(w) && i < |es|
  {
    if es[i].Quiet? then SkipTick(WheelAfter(w, es[..i])).1 else []
  }

  /** The same with one advance per node. */
  function FiredByIntended<T(==)>(w: Wheel<T>, es: seq<ServerEvent<T>>, i: nat): seq<T>
    requires Shape(w) && i < |es|
  {
    if es[i].Quiet? then Tick(Run(w, AllOps(es[..i])).0).1 else []
  }

  // ---------- putting runs together ----------

  lemma {:induction false} OpsLeaveAlone<T>(es: seq<ServerEvent<T>>, c: T)
    requires AllIgnore(es, c)
    ensures AllLeaveAlone(AllOps(es), c) && Ticks(AllOps(es)) == QuietRounds(es)
  {
    if es != [] {
      OpsLeaveAlone(es[1..], c);
      var rest := AllOps(es[1..]);
      if Ops(es[0]) == [] {
        assert AllOps(es) == rest;
      } else {
        assert AllOps(es)[1..] == rest;
        forall i | 0 <= i < |AllOps(es)| ensures LeavesAlone(AllOps(es)[i], c) {
          assert i > 0 ==> AllOps(es)[i] == rest[i - 1];
        }
      }
    }
  }

  /** Every timeout of the server is shorter than a turn of the wheel. */
  lemma {:induction false} OpsAreShort<T>(es: seq<ServerEvent<T>>)
    ensures AllShort(AllOps(es))
  {
    if es != [] {
      OpsAreShort(es[1..]);
    }
  }

  lemma {:induction false} EventsCons<T>(e: ServerEvent<T>, es: seq<ServerEvent<T>>)
    ensures AllOps([e] + es) == Ops(e) + AllOps(es)
    ensures QuietRounds([e] + es) == (if e.Quiet? then 1 else 0) + QuietRounds(es)
  {
    assert ([e] + es)[1..] == es;
  }

  lemma {:induction false} AllOpsConcat<T>(a: seq<ServerEvent<T>>, b: seq<ServerEvent<T>>)
    ensures AllOps(a + b) == AllOps(a) + AllOps(b)
    ensures QuietRounds(a + b) == QuietRounds(a) + QuietRounds(b)
  {
    if a == [] {
      assert a + b == b;
    } else {
      AllOpsConcat(a[1..], b);
      assert a + b == [a[0]] + (a[1..] + b);
      EventsCons(a[0], a[1..] + b);
      Regroup(Ops(a[0]), AllOps(a[1..]), AllOps(b));
    }
  }

  lemma {:induction false} SkipRunConcat<T>(w: Wheel<T>, a: seq<Op<T>>, b: seq<Op<T>>)
    requires Shape(w)
    ensures SkipRun(w, a + b).0 == SkipRun(SkipRun(w, a).0, b).0
    decreases a
  {
    if a == [] {
      assert a + b == b;
    } else {
      SkipRunConcat(SkipApply(w, a[0]).0, a[1..], b);
      assert (a + b)[0] == a[0] && (a + b)[1..] == a[1..] + b;
    }
  }

  lemma {:induction false} AfterConcat<T>(w: Wheel<T>, a: seq<ServerEvent<T>>, b: seq<ServerEvent<T>>)
    requires Shape(w)
    ensures WheelAfter(w, a + b) == WheelAfter(WheelAfter(w, a), b)
  {
    AllOpsConcat(a, b);
    SkipRunConcat(w, AllOps(a), AllOps(b));
  }

  lemma {:induction false} AfterOne<T>(w: Wheel<T>, e: ServerEvent<T>)
    requires Shape(w)
    ensures WheelAfter(w, [e]) == SkipRun(w, Ops(e)).0
    ensures Ops(e) != [] ==> WheelAfter(w, [e]) == SkipApply(w, Ops(e)[0]).0
    ensures QuietRounds([e]) == if e.Quiet? then 1 else 0
  {
    assert [e][1..] == [] && AllOps([e]) == Ops(e) + [];
  }

  // ---------- histories of a server ----------

  /** A new connection's timer is in no list when it is accepted. */
  ghost predicate FreshAt<T>(w: Wheel<T>, es: seq<ServerEvent<T>>, j: nat)
    requires Shape(w) && j < |es|
  {
    es[j].Accepted? ==> Nowhere(WheelAfter(w, es[..j]), es[j].c)
  }

  ghost predicate FreshAccepts<T>(w: Wheel<T>, es: seq<ServerEvent<T>>)
    requires Shape(w)
  {
    forall j :: 0 <= j < |es| ==> FreshAt(w, es, j)
  }

  lemma {:induction false} FreshConcat<T>(w: Wheel<T>, a: seq<ServerEvent<T>>, b: seq<ServerEvent<T>>)
    requires Shape(w) && FreshAccepts(w, a) && FreshAccepts(WheelAfter(w, a), b)
    ensures FreshAccepts(w, a + b)
  {
    var h := a + b;
    forall j | 0 <= j < |h| ensures FreshAt(w, h, j) {
      if j < |a| {
        assert h[..j] == a[..j] && FreshAt(w, a, j);
      } else {
        assert h[..j] == a + b[..j - |a|] && FreshAt(WheelAfter(w, a), b, j - |a|);
        AfterConcat(w, a, b[..j - |a|]);
      }
    }
  }

  lemma {:induction false} FreshOne<T>(w: Wheel<T>, e: ServerEvent<T>)
    requires Shape(w) && (e.Accepted? ==> Nowhere(w, e.c))
    ensures FreshAccepts(w, [e])
  {
    assert [e][..0] == [];
  }

  // ---------- when a connection is timed out ----------

  /** An accept of a connection whose timer is new, or a write to it. */
  ghost predicate Starts<T>(w: Wheel<T>, e: ServerEvent<T>, c: T) {
    (e == Accepted(c) && Nowhere(w, c)) || e == Written(c)
  }

  /** The entries ahead of c in the slot list under the cursor. */
  function AheadNow<T(==)>(w: Wheel<T>, c: T): nat
    requires Shape(w)
  {
    Ahead(w.slots[w.cur], c)
  }

  lemma {:induction false} NotYet<T>(w: Wheel<T>, e: ServerEvent<T>, es: seq<ServerEvent<T>>, c: T)
    requires Flat(w) && Starts(w, e, c) && AllIgnore(es, c) && QuietRounds(es) < 150
    ensures c !in SkipTick(WheelAfter(WheelAfter(w, [e]), es)).1
  {
    var ops := AllOps(es) + [Tock];
    AfterOne(w, e);
    OpsLeaveAlone(es, c);
    OpsAreShort(es);
    SetTimerIsLateByLogTurns(w, Ops(e)[0], ops, c, CLIENT_TIMEOUT);
    RunThenTick(WheelAfter(w, [e]), AllOps(es));
    assert ops[..|ops| - 1] == AllOps(es);
    var fired := SkipRun(WheelAfter(w, [e]), ops).1[|ops| - 1];
    assert fired == SkipTick(WheelAfter(WheelAfter(w, [e]), es)).1 && (c in fired <==> multiset(fired)[c] > 0);
  }

  lemma {:induction false} NowOrLater<T>(w: Wheel<T>, e: ServerEvent<T>, es: seq<ServerEvent<T>>, c: T)
    requires Flat(w) && Starts(w, e, c) && AllIgnore(es, c) && QuietRounds(es) == 150
    ensures var w1 := WheelAfter(WheelAfter(w, [e]), es);
      && Meets(w1.slots[w1.cur], c) == 1 && AheadNow(w1, c) <= AheadWhenSet(w, Ops(e)[0])
      && (c in SkipTick(w1).1 <==> AheadNow(w1, c) % 2 == 0)
  {
    AfterOne(w, e);
    OpsLeaveAlone(es, c);
    OpsAreShort(es);
    FiresOnTimeIff(w, Ops(e)[0], AllOps(es), c, CLIENT_TIMEOUT);
  }

  /** A connection is timed out on the 151st tick after its accept or last write, and on none before it, if and
      only if an even number of entries are ahead of it in its slot list at that tick, whatever it reads and
      whatever happens to other connections meanwhile. */
  lemma {:induction false} TimedOutOnTick151<T>(w: Wheel<T>, e: ServerEvent<T>, es: seq<ServerEvent<T>>, c: T, i: nat)
    requires Flat(w) && Starts(w, e, c) && AllIgnore(es, c)
    requires i < |es| && QuietRounds(es[..i]) <= 150
    ensures c in FiredBy(WheelAfter(w, [e]), es, i) <==>
      es[i].Quiet? && QuietRounds(es[..i]) == 150 && AheadNow(WheelAfter(WheelAfter(w, [e]), es[..i]), c) % 2 == 0
  {
    if es[i].Quiet? {
      if QuietRounds(es[..i]) < 150 {
        NotYet(w, e, es[..i], c);
      } else {
        NowOrLater(w, e, es[..i], c);
      }
    }
  }

  /** Otherwise it is late by whole turns of 600 ticks: at most the logarithm to base 2 of the number of entries
      ahead of it at its accept or write plus one. It is timed out at most once, and certainly within that
      time. */
  lemma {:induction false} TimedOutLateByLogTurns<T>(w: Wheel<T>, e: ServerEvent<T>, es: seq<ServerEvent<T>>, c: T)
    requires Flat(w) && Starts(w, e, c) && AllIgnore(es, c)
    ensures FiresLate(SkipRun(WheelAfter(w, [e]), AllOps(es)).1, AllOps(es), c, 150, Turns(AheadWhenSet(w, Ops(e)[0])))
    ensures Ticks(AllOps(es)) == QuietRounds(es)
  {
    AfterOne(w, e);
    OpsLeaveAlone(es, c);
    OpsAreShort(es);
    SetTimerIsLateByLogTurns(w, Ops(e)[0], AllOps(es), c, CLIENT_TIMEOUT);
  }

  /** With one advance per node it is timed out exactly on the 151st tick. */
  lemma {:induction false} IntendedTimeoutOnTick151<T>(w: Wheel<T>, s: seq<Keyed<T>>, e: ServerEvent<T>,
                                                       es: seq<ServerEvent<T>>, c: T, i: nat)
    requires Represents(w, s)
    requires (e == Accepted(c) && Absent(s, c)) || e == Written(c)
    requires i < |es| && AllIgnore(es, c)
    ensures c in FiredByIntended(Apply(w, Ops(e)[0]).0, es, i) <==> es[i].Quiet? && QuietRounds(es[..i]) == 150
  {
    var w1 := Apply(w, Ops(e)[0]).0;
    var before := AllOps(es[..i]);
    if es[i].Quiet? {
      OpsLeaveAlone(es[..i], c);
      var ops := before + [Tock];
      FiresExactlyOnTime(w, s, Ops(e)[0], ops, c, CLIENT_TIMEOUT);
      RunThenTick(w1, before);
      assert ops[..|before|] == before && ops[|before|] == Tock;
      assert c in FiredByIntended(w1, es, i) <==> multiset(FiredByIntended(w1, es, i))[c] > 0;
    }
  }

  /** The same of a server, from the history of its events: a connection last accepted or written to at event j
      is timed out by the coming tick, if it is the 151st since, exactly if the number ahead of it is even; and
      by no earlier one. */
  lemma {:induction false} HistoryDecides<T>(h: seq<ServerEvent<T>>, j: nat, c: T)
    requires FreshAccepts(Empty(), h) && j < |h| && (h[j] == Accepted(c) || h[j] == Written(c))
    requires AllIgnore(h[j + 1..], c)
    ensures var w, n := WheelAfter(Empty(), h), QuietRounds(h[j + 1..]);
      && (n < 150 ==> c !in SkipTick(w).1)
      && (n == 150 ==> Meets(w.slots[w.cur], c) == 1 && (c in SkipTick(w).1 <==> AheadNow(w, c) % 2 == 0))
  {
    var w0, es := WheelAfter(Empty(), h[..j]), h[j + 1..];
    EmptyIsFlat<T>();
    OpsAreShort(h[..j]);
    FlatRun(Empty(), AllOps(h[..j]));
    assert FreshAt(Empty(), h, j);
    assert h == h[..j] + ([h[j]] + es);
    AfterConcat(Empty(), h[..j], [h[j]] + es);
    AfterConcat(w0, [h[j]], es);
    if QuietRounds(es) < 150 {
      NotYet(w0, h[j], es, c);
    } else if QuietRounds(es) == 150 {
      NowOrLater(w0, h[j], es, c);
    }
  }

  // ---------- two connections accepted between the same two ticks ----------

  function Quiets<T>(n: nat): (r: seq<ServerEvent<T>>)
    ensures |r| == n
  {
    if n == 0 then [] else [Quiet] + Quiets(n - 1)
  }

  lemma {:induction false} EmptyTick<T>(w: Wheel<T>)
    requires Shape(w) && w.cur + 1 < SLOTS && w.slots[w.cur] == []
    ensures SkipTick(w).0 == w.(cur := w.cur + 1) && Tick(w).0 == w.(cur := w.cur + 1)
  {
    assert w.slots[w.cur := []] == w.slots;
  }

  lemma {:induction false} TockFirst<T>(w: Wheel<T>, ops: seq<Op<T>>)
    requires Shape(w)
    ensures SkipRun(w, [Tock] + ops).0 == SkipRun(SkipTick(w).0, ops).0
    ensures Run(w, [Tock] + ops).0 == Run(Tick(w).0, ops).0
  {
    assert ([Tock] + ops)[1..] == ops;
  }

  /** Ticks over empty slot lists only move the cursor. */
  lemma {:induction false} EmptyTicks<T>(w: Wheel<T>, n: nat)
    requires Shape(w) && w.cur + n < SLOTS && forall k :: w.cur <= k < w.cur + n ==> w.slots[k] == []
    ensures WheelAfter(w, Quiets(n)) == w.(cur := w.cur + n) && Run(w, AllOps(Quiets(n))).0 == w.(cur := w.cur + n)
    ensures QuietRounds<T>(Quiets(n)) == n
    decreases n
  {
    if n > 0 {
      EmptyTick(w);
      EmptyTicks(w.(cur := w.cur + 1), n - 1);
      EventsCons(Quiet, Quiets<T>(n - 1));
      TockFirst(w, AllOps(Quiets(n - 1)));
    }
  }

  const TWO: Wheel<int> := Wheel(Empty<int>().slots[151 := [Entry(1, 0), Entry(2, 0)]], 1)

  lemma {:induction false} TwoAccepted()
    ensures WheelAfter(Empty<int>(), [Accepted(1), Accepted(2)]) == TWO
    ensures Run(Empty<int>(), AllOps([Accepted(1), Accepted(2)])).0 == TWO
  {
    var a1, a2: Op<int> := Add(1, CLIENT_TIMEOUT), Add(2, CLIENT_TIMEOUT);
    var w1 := Wheel(Empty<int>().slots[151 := [Entry(1, 0)]], 1);
    assert Apply(Empty<int>(), a1).0 == w1 by {
      assert [] + [Entry(1, 0)] == [Entry(1, 0)];
    }
    assert Apply(w1, a2).0 == TWO by {
      assert [Entry(1, 0)] + [Entry(2, 0)] == [Entry(1, 0), Entry(2, 0)];
      assert w1.slots[151 := [Entry(1, 0), Entry(2, 0)]] == TWO.slots;
    }
    var es: seq<ServerEvent<int>> := [Accepted(1), Accepted(2)];
    assert es[1..] == [Accepted(2)] && es[1..][1..] == [];
    assert AllOps(es) == [a1] + ([a2] + []);
    assert AllOps(es)[1..] == [a2] && [a2][1..] == [];
  }

  lemma {:induction false} QuietsAre<T>(n: nat, i: nat)
    requires i <= n
    ensures Quiets<T>(n)[..i] == Quiets(i) && (i < n ==> Quiets<T>(n)[i] == Quiet)
    decreases n
  {
    if i > 0 {
      QuietsAre<T>(n - 1, i - 1);
      assert Quiets<T>(n)[..i] == [Quiet] + Quiets<T>(n - 1)[..i - 1];
    }
  }

  lemma {:induction false} QuietOps<T>(n: nat)
    ensures |AllOps<T>(Quiets(n))| == n && Ticks(AllOps<T>(Quiets(n))) == n
    ensures forall i :: 0 <= i < n ==> AllOps<T>(Quiets(n))[i] == Tock
  {
    if n > 0 {
      QuietOps<T>(n - 1);
      EventsCons(Quiet, Quiets<T>(n - 1));
      assert ([Tock] + AllOps<T>(Quiets(n - 1)))[1..] == AllOps<T>(Quiets(n - 1));
    }
  }

  lemma {:induction false} TwoPlaces()
    ensures Flat(TWO) && At(TWO, 1, 151, 0) && At(TWO, 2, 151, 1)
  {
    var l: seq<Entry<int>> := [Entry(1, 0), Entry(2, 0)];
    assert TWO.slots[151] == l && l[1..] == [Entry(2, 0)] && l[1..][1..] == [];
  }

  /** A timer at position p of the list in slot 151 of a new wheel, and only quiet rounds. */
  lemma {:induction false} QuietlyFires(id: int, p: nat, i: nat)
    requires Flat(TWO) && At(TWO, id, 151, p) && p < 2
    ensures id in FiredBy(TWO, Quiets(i + 1), i) <==> i == 150 + 600 * p
  {
    var quiet := AllOps<int>(Quiets(i));
    QuietsAre<int>(i + 1, i);
    QuietOps<int>(i);
    assert (quiet + [Tock])[..i] == quiet && (quiet + [Tock])[i] == Tock;
    assert Lost(0) == 0 && Lost(1) == 1;
    FiresAfterLost(TWO, quiet + [Tock], id, 151, p, 150 + 600 * p);
    assert FiresAt(TWO, quiet + [Tock], id, 150 + 600 * p, i);
    RunThenTick(TWO, quiet);
    var fired := FiredBy(TWO, Quiets(i + 1), i);
    assert id in fired <==> multiset(fired)[id] > 0;
  }

  /** The first of the two is timed out on the 151st tick, the second a turn later, on the 751st. */
  lemma {:induction false} SecondIsATurnLate(i: nat)
    ensures var w := WheelAfter(Empty<int>(), [Accepted(1), Accepted(2)]);
      && (1 in FiredBy(w, Quiets(i + 1), i) <==> i == 150)
      && (2 in FiredBy(w, Quiets(i + 1), i) <==> i == 750)
  {
    TwoAccepted();
    TwoPlaces();
    QuietlyFires(1, 0, i);
    QuietlyFires(2, 1, i);
  }

  /** A server accepts two connections and then has only rounds without events. On the 151st tick both are due,
      and the tick as written times out only the first. */
  lemma {:induction false} SecondIsSkipped()
    ensures var w := WheelAfter(Empty<int>(), [Accepted(1), Accepted(2)]);
      && FiredBy(w, Quiets(150) + [Quiet], 150) == [1] && QuietRounds((Quiets<int>(150) + [Quiet])[..150]) == 150
      && AheadNow(WheelAfter(w, Quiets(150)), 2) == 1
    ensures var w := Run(Empty<int>(), AllOps([Accepted(1), Accepted(2)])).0;
      FiredByIntended(w, Quiets(150) + [Quiet], 150) == [1, 2]
  {
    TwoAccepted();
    EmptyTicks(TWO, 150);
    var es: seq<ServerEvent<int>> := Quiets(150) + [Quiet];
    assert es[..150] == Quiets(150) && es[150] == Quiet;
    var l: seq<Entry<int>> := [Entry(1, 0), Entry(2, 0)];
    assert TWO.slots[151] == l;
    SkippedExample();
    assert l[1..] == [Entry(2, 0)] && l[1..][1..] == [];
    AheadIs(l, 1, 2);
  }
}
