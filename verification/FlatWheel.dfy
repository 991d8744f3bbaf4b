/** The tick as it is written on a wheel whose timeouts are all shorter than a turn, so that every rotation is
    zero: a pass fires the nodes at even positions of the slot list and keeps those at odd ones. */
module FlatWheel {
  import opened StableQueue
  import opened WheelModel
  import opened WheelRuns
  import opened SkippingWheel
  import opened OnTime

  ghost predicate FlatList<T>(l: seq<Entry<T>>) {
    forall j :: 0 <= j < |l| ==> l[j].rotation == 0
  }

  ghost predicate Flat<T>(w: Wheel<T>) {
    Shape(w) && forall k :: 0 <= k < SLOTS ==> FlatList(w.slots[k])
  }

  /** A timeout of less than a turn. */
  predicate Short<T>(op: Op<T>) {
    op.Add? || op.Reset? ==> TicksOf(op.timeout) < SLOTS
  }

  ghost predicate AllShort<T>(ops: seq<Op<T>>) {
    forall i :: 0 <= i < |ops| ==> Short(ops[i])
  }

  // ---------- one pass ----------

  lemma {:induction false} EvensFire<T>(l: seq<Entry<T>>)
    requires FlatList(l)
    ensures var r := SkipSweep(l);
      && |r.fired| == (|l| + 1) / 2 && (forall j :: 0 <= j < |r.fired| ==> r.fired[j] == l[2 * j].id)
      && |r.kept| == |l| / 2 && (forall j :: 0 <= j < |r.kept| ==> r.kept[j] == l[2 * j + 1])
    decreases l
  {
    if |l| > 1 {
      EvensFire(l[2..]);
      var r, t := SkipSweep(l), SkipSweep(l[2..]);
      assert r.fired == [l[0].id] + t.fired && r.kept == [l[1]] + t.kept;
      forall j | 0 < j < |r.fired| ensures r.fired[j] == l[2 * j].id {
        assert t.fired[j - 1] == l[2..][2 * (j - 1)].id;
      }
      forall j | 0 < j < |r.kept| ensures r.kept[j] == l[2 * j + 1] {
        assert t.kept[j - 1] == l[2..][2 * (j - 1) + 1];
      }
    }
  }

  lemma {:induction false} DroppedFlat<T>(l: seq<Entry<T>>, id: T)
    requires FlatList(l)
    ensures FlatList(Dropped(l, id))
  {
    if l != [] {
      DroppedFlat(l[1..], id);
    }
  }

  lemma {:induction false} RemoveFlat<T>(w: Wheel<T>, id: T)
    requires Flat(w)
    ensures Flat(Remove(w, id))
  {
    forall k | 0 <= k < SLOTS ensures FlatList(Remove(w, id).slots[k]) {
      DroppedFlat(w.slots[k], id);
    }
  }

  /** Short timeouts keep every rotation zero. */
  lemma {:induction false} FlatStep<T>(w: Wheel<T>, op: Op<T>)
    requires Flat(w) && Short(op)
    ensures Flat(SkipApply(w, op).0)
  {
    match op
    case Add(id, timeout) =>
    case Delete(id) => RemoveFlat(w, id);
    case Reset(id, timeout) => RemoveFlat(w, id);
    case Tock => KeptFlat(w.slots[w.cur]);
  }

  lemma {:induction false} FlatRun<T>(w: Wheel<T>, ops: seq<Op<T>>)
    requires Flat(w) && AllShort(ops)
    ensures Flat(SkipRun(w, ops).0)
    decreases ops
  {
    if ops != [] {
      FlatStep(w, ops[0]);
      FlatRun(SkipApply(w, ops[0]).0, ops[1..]);
    }
  }

  lemma EmptyIsFlat<T>()
    ensures Flat(Empty<T>())
  {
  }

  lemma {:induction false} KeptFlat<T>(l: seq<Entry<T>>)
    requires FlatList(l)
    ensures FlatList(SkipSweep(l).kept)
    decreases l
  {
    if |l| > 1 {
      KeptFlat(l[2..]);
    }
  }

  ghost predicate PositionOutcome<T>(l: seq<Entry<T>>, id: T, p: nat)
    requires p < |l|
  {
    var r := SkipSweep(l);
    if p % 2 == 0 then multiset(r.fired)[id] == 1 && Meets(r.kept, id) == 0
    else multiset(r.fired)[id] == 0 && Meets(r.kept, id) == 1 && p / 2 < |r.kept| && r.kept[p / 2] == l[p]
  }

  lemma {:induction false} PositionFurtherOn<T>(l: seq<Entry<T>>, id: T, p: nat)
    requires FlatList(l) && 1 < p < |l| && l[p].id == id && Meets(l, id) == 1
    requires l[0].id != id && l[1].id != id && PositionOutcome(l[2..], id, p - 2)
    ensures PositionOutcome(l, id, p)
  {
    var r, t := SkipSweep(l), SkipSweep(l[2..]);
    assert r.fired == [l[0].id] + t.fired && r.kept == [l[1]] + t.kept;
    MeetsCons(l[1], t.kept, id);
    assert (p - 2) % 2 == p % 2 && (p - 2) / 2 == p / 2 - 1;
  }

  lemma {:induction false} PositionInPass<T>(l: seq<Entry<T>>, id: T, p: nat)
    requires FlatList(l) && p < |l| && l[p].id == id && Meets(l, id) == 1
    ensures PositionOutcome(l, id, p)
    decreases l
  {
    SkipConserves(l, id);
    if p == 0 {
      assert SkipSweep(l).fired[0] == id;
    } else if p == 1 {
      assert SkipSweep(l).kept[0] == l[1];
      MeetsSome(SkipSweep(l).kept, 0, id);
    } else {
      OnlyOne(l, p, id);
      OnlyOne(l[1..], p - 1, id);
      assert l[1..][1..] == l[2..];
      PositionInPass(l[2..], id, p - 2);
      PositionFurtherOn(l, id, p);
    }
  }

  /** A tick at the slot of a timer at position p fires it if and only if p is even; otherwise the timer stays,
      at position p / 2. */
  lemma {:induction false} PositionDecides<T>(w: Wheel<T>, id: T, p: nat)
    requires Flat(w) && At(w, id, w.cur, p)
    ensures var (w1, fired) := SkipTick(w);
      if p % 2 == 0 then multiset(fired)[id] == 1 && Nowhere(w1, id)
      else multiset(fired)[id] == 0 && At(w1, id, w.cur, p / 2)
  {
    PositionInPass(w.slots[w.cur], id, p);
  }

  // ---------- how late ----------

  /** Turns lost at most with p nodes ahead: the logarithm of p + 1 to base 2. */
  function Turns(p: nat): nat {
    if p == 0 then 0 else 1 + Turns((p - 1) / 2)
  }

  function Pow2(n: nat): nat {
    if n == 0 then 1 else 2 * Pow2(n - 1)
  }

  lemma {:induction false} TurnsIsLog(p: nat)
    ensures Pow2(Turns(p)) <= p + 1 < Pow2(Turns(p) + 1)
  {
    if p > 0 {
      TurnsIsLog((p - 1) / 2);
    }
  }

  lemma {:induction false} TurnsMonotone(q: nat, p: nat)
    requires q <= p
    ensures Turns(q) <= Turns(p)
  {
    if q > 0 {
      TurnsMonotone((q - 1) / 2, (p - 1) / 2);
    }
  }

  lemma {:induction false} FlatTickFollows<T>(w: Wheel<T>, id: T, k: nat, p: nat) returns (q: nat)
    requires Flat(w) && At(w, id, k, p)
    ensures SkipOutcome(w, id, k, p, q) && q <= p
    ensures k == w.cur && p % 2 != 0 ==> Turns(q) < Turns(p)
    ensures k == w.cur ==> (Meets(SkipTick(w).0.slots[k], id) == 0 <==> p % 2 == 0)
  {
    LeftAfterTick(w.cur, k, 0);
    if k == w.cur {
      PositionDecides(w, id, p);
      q := p / 2;
      KeptFlat(w.slots[k]);
      if p % 2 != 0 {
        assert (p - 1) / 2 == p / 2;
      }
    } else {
      q := p;
      SkipConserves(w.slots[w.cur], id);
    }
  }

  /** With timeouts under a turn a timer left alone fires at its time or late by a whole number of turns, at
      most the logarithm of the number of nodes ahead of it plus one, and never twice. */
  lemma {:induction false} LateByLogTurns<T>(w: Wheel<T>, ops: seq<Op<T>>, id: T, k: nat, p: nat)
    requires Flat(w) && At(w, id, k, p) && AllShort(ops) && AllLeaveAlone(ops, id)
    ensures FiresLate(SkipRun(w, ops).1, ops, id, Left(w.cur, k, 0), Turns(p))
    decreases ops
  {
    var r := Left(w.cur, k, 0);
    if ops != [] {
      var (w1, fired) := SkipApply(w, ops[0]);
      var rest := SkipRun(w1, ops[1..]).1;
      FlatStep(w, ops[0]);
      if ops[0].Tock? {
        var q := FlatTickFollows(w, id, k, p);
        LeftAfterTick(w.cur, k, 0);
        if Meets(w1.slots[k], id) == 0 {
          NowhereNeverFires(w1, ops[1..], id);
          FiresNow(fired, rest, ops, id, Turns(p));
        } else {
          TurnsMonotone(q, p);
          LateByLogTurns(w1, ops[1..], id, k, q);
          FiresLateCons(fired, rest, ops, id, r, Turns(p), Left(w1.cur, k, 0), Turns(q));
        }
      } else {
        var q := OtherOpFollows(w, ops[0], id, k, p);
        TurnsMonotone(q, p);
        LateByLogTurns(w1, ops[1..], id, k, q);
        FiresLateCons(fired, rest, ops, id, r, Turns(p), r, Turns(q));
      }
    }
  }

  // ---------- exactly how late ----------

  /** Turns lost from position p while nothing ahead is taken out: the ones at the end of p in binary. */
  function Lost(p: nat): nat {
    if p % 2 == 0 then 0 else 1 + Lost(p / 2)
  }

  /** A tick, or an add of another timer. */
  predicate KeepsPlace<T(==)>(op: Op<T>, id: T) {
    op.Tock? || (op.Add? && op.id != id)
  }

  /** The i-th operation fires id if and only if it is the tick after n others. */
  ghost predicate FiresAt<T>(w: Wheel<T>, ops: seq<Op<T>>, id: T, n: int, i: nat)
    requires Shape(w) && i < |ops|
  {
    multiset(SkipRun(w, ops).1[i])[id] == if ops[i].Tock? && Ticks(ops[..i]) == n then 1 else 0
  }

  lemma {:induction false} FiresAtLater<T>(w: Wheel<T>, ops: seq<Op<T>>, id: T, n: int, i: nat)
    requires Shape(w) && 0 < i < |ops|
    requires FiresAt(SkipApply(w, ops[0]).0, ops[1..], id, if ops[0].Tock? then n - 1 else n, i - 1)
    ensures FiresAt(w, ops, id, n, i)
  {
    TicksOfPrefix(ops, i);
    assert ops[1..][i - 1] == ops[i];
  }

  /** One operation: what is left of the wait, with the turns still to be lost, or that it is over. */
  lemma {:induction false} KeepsPlaceStep<T>(w: Wheel<T>, op: Op<T>, id: T, k: nat, p: nat) returns (q: nat)
    requires Flat(w) && At(w, id, k, p) && KeepsPlace(op, id)
    ensures var (w1, fired) := SkipApply(w, op);
      var n := Left(w.cur, k, 0) + SLOTS * Lost(p);
      if op.Tock? && n == 0 then multiset(fired)[id] == 1 && Nowhere(w1, id)
      else
        && multiset(fired)[id] == 0 && At(w1, id, k, q)
        && Left(w1.cur, k, 0) + SLOTS * Lost(q) == if op.Tock? then n - 1 else n
  {
    q := p;
    if op.Add? {
      PushOtherFollows(w, op.id, TicksOf(op.timeout), id, k, p);
    } else {
      LeftAfterTick(w.cur, k, 0);
      if k != w.cur {
        SkipConserves(w.slots[w.cur], id);
      } else {
        PositionDecides(w, id, p);
        if p % 2 != 0 {
          q := p / 2;
        }
      }
    }
  }

  /** While timers are only added and ticks go by, a timer at position p fires exactly Lost(p) turns late. */
  lemma {:induction false} FiresAfterLost<T>(w: Wheel<T>, ops: seq<Op<T>>, id: T, k: nat, p: nat, n: int)
    requires Flat(w) && At(w, id, k, p) && AllShort(ops) && n == Left(w.cur, k, 0) + 600 * Lost(p)
    requires forall i :: 0 <= i < |ops| ==> KeepsPlace(ops[i], id)
    ensures forall i :: 0 <= i < |ops| ==> FiresAt(w, ops, id, n, i)
    decreases ops
  {
    if ops != [] {
      var w1, n1 := SkipApply(w, ops[0]).0, if ops[0].Tock? then n - 1 else n;
      assert KeepsPlace(ops[0], id) && forall i :: 0 < i < |ops| ==> KeepsPlace(ops[i], id);
      FlatStep(w, ops[0]);
      var q := KeepsPlaceStep(w, ops[0], id, k, p);
      assert FiresAt(w, ops, id, n, 0) by {
        assert ops[..0] == [];
      }
      if ops[0].Tock? && n == 0 {
        NowhereNeverFires(w1, ops[1..], id);
        assert forall i :: 0 <= i < |ops| - 1 ==> FiresAt(w1, ops[1..], id, n1, i);
      } else {
        FiresAfterLost(w1, ops[1..], id, k, q, n1);
      }
      forall i: nat | 0 < i < |ops| ensures FiresAt(w, ops, id, n, i) {
        FiresAtLater(w, ops, id, n, i);
      }
    }
  }

  /** The logarithm bounds that, and is met behind 2^n - 1 nodes. */
  lemma {:induction false} LostAtMostTurns(p: nat)
    ensures Lost(p) <= Turns(p)
  {
    if p % 2 != 0 {
      assert p / 2 == (p - 1) / 2;
      LostAtMostTurns(p / 2);
    }
  }

  lemma {:induction false} LostIsTurns(n: nat)
    ensures Pow2(n) >= 1 && Lost(Pow2(n) - 1) == n == Turns(Pow2(n) - 1)
  {
    if n > 0 {
      LostIsTurns(n - 1);
      assert (Pow2(n) - 1) / 2 == Pow2(n - 1) - 1 == (Pow2(n) - 1 - 1) / 2;
    }
  }

  /** When its ticks have passed the timer is in the slot under the cursor, not further back than at first. */
  lemma {:induction false} ReachesCursor<T>(w: Wheel<T>, ops: seq<Op<T>>, id: T, k: nat, p: nat) returns (q: nat)
    requires Flat(w) && At(w, id, k, p) && AllShort(ops) && AllLeaveAlone(ops, id)
    requires Ticks(ops) == Left(w.cur, k, 0)
    ensures var w1 := SkipRun(w, ops).0; Flat(w1) && At(w1, id, w1.cur, q) && q <= p
    decreases ops
  {
    q := p;
    if ops != [] {
      var w1 := SkipApply(w, ops[0]).0;
      FlatStep(w, ops[0]);
      if ops[0].Tock? {
        q := FlatTickFollows(w, id, k, p);
        LeftAfterTick(w.cur, k, 0);
      } else {
        q := OtherOpFollows(w, ops[0], id, k, p);
      }
      q := ReachesCursor(w1, ops[1..], id, k, q);
    }
  }

  // ---------- from the operation that sets the timer ----------

  /** A timer set with a timeout of t < 600 ticks and left alone is in the slot under the cursor at the
      (t+1)-th tick, and that tick fires it if and only if an even number of entries are ahead of it: what never
      being passed over comes to when every entry ahead is due. */
  lemma {:induction false} FiresOnTimeIff<T>(w: Wheel<T>, op: Op<T>, ops: seq<Op<T>>, id: T, timeout: int)
    requires Flat(w) && SetsOn(w, op, id, timeout) && Short(op) && AllShort(ops) && AllLeaveAlone(ops, id)
    requires Ticks(ops) == TicksOf(timeout)
    ensures var w1 := SkipRun(SkipApply(w, op).0, ops).0;
      && Flat(w1) && Meets(w1.slots[w1.cur], id) == 1 && Ahead(w1.slots[w1.cur], id) <= AheadWhenSet(w, op)
      && (id in SkipTick(w1).1 <==> Ahead(w1.slots[w1.cur], id) % 2 == 0)
      && (id in SkipTick(w1).1 <==> Skips(SkipApply(w, op).0, ops + [Tock], id) == 0)
  {
    var k := JustSet(w, op, id, timeout);
    FlatStep(w, op);
    var q := ReachesCursor(SkipApply(w, op).0, ops, id, k, AheadWhenSet(w, op));
    var w1 := SkipRun(SkipApply(w, op).0, ops).0;
    AheadIs(w1.slots[w1.cur], q, id);
    PositionDecides(w1, id, q);
    assert id in SkipTick(w1).1 <==> multiset(SkipTick(w1).1)[id] > 0;
    var all := ops + [Tock];
    assert all[..|ops|] == ops && all[..|ops| + 1] == all;
    FiresOnOwnTickIff(w, op, all, id, timeout, |ops|);
    RunThenTick(SkipApply(w, op).0, ops);
  }

  /** In a list in which all entries are due the number directly ahead of a position that are is the position. */
  lemma {:induction false} AllAheadAreDue<T>(l: seq<Entry<T>>, p: nat)
    requires FlatList(l) && p <= |l|
    ensures DueAhead(l, p) == p
  {
    if p > 0 {
      AllAheadAreDue(l, p - 1);
    }
  }

  /** The pass advances past the end, which is read as the end of the loop, exactly if the list is of odd length. */
  lemma {:induction false} FlatRunsPastEndIff<T>(l: seq<Entry<T>>)
    requires FlatList(l)
    ensures RunsPastEnd(l) <==> |l| % 2 == 1
    decreases l
  {
    if |l| > 1 {
      FlatRunsPastEndIff(l[2..]);
    }
  }

  /** On which ticks it can fire at all: never before, and late by whole turns, at most as many as the
      logarithm allows. */
  lemma {:induction false} SetTimerIsLateByLogTurns<T>(w: Wheel<T>, op: Op<T>, ops: seq<Op<T>>, id: T, timeout: int)
    requires Flat(w) && SetsOn(w, op, id, timeout) && Short(op) && AllShort(ops) && AllLeaveAlone(ops, id)
    ensures FiresLate(SkipRun(SkipApply(w, op).0, ops).1, ops, id, TicksOf(timeout), Turns(AheadWhenSet(w, op)))
  {
    var k := JustSet(w, op, id, timeout);
    FlatStep(w, op);
    LateByLogTurns(SkipApply(w, op).0, ops, id, k, AheadWhenSet(w, op));
  }
}
