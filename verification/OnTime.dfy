/** When exactly the wheel as written fires a timer, for any timeouts: on its tick, and one turn later for
    every pass that has gone over it without looking at it. */
module OnTime {
  import opened WheelModel
  import opened WheelRuns
  import opened SkippingWheel

  // ---------- which nodes a pass looks at ----------

  /** The pass comes to the node at position p: one step on after a node that stays, two after one that fires. */
  predicate Visited<T>(l: seq<Entry<T>>, p: nat)
    requires p < |l|
  {
    if p == 0 then true
    else if l[0].rotation > 0 then Visited(l[1..], p - 1)
    else p >= 2 && Visited(l[2..], p - 2)
  }

  /** How many due nodes are directly ahead of position p. */
  function DueAhead<T>(l: seq<Entry<T>>, p: nat): (n: nat)
    requires p <= |l|
    ensures n <= p
  {
    if p == 0 || l[p - 1].rotation > 0 then 0 else 1 + DueAhead(l, p - 1)
  }

  lemma {:induction false} DueAheadCons<T>(x: Entry<T>, l: seq<Entry<T>>, p: nat)
    requires p <= |l|
    ensures DueAhead([x] + l, p + 1) ==
      if DueAhead(l, p) == p && x.rotation <= 0 then p + 1 else DueAhead(l, p)
  {
    var c := [x] + l;
    if p == 0 {
      assert DueAhead(c, 0) == 0;
    } else {
      assert c[p] == l[p - 1];
      DueAheadCons(x, l, p - 1);
    }
  }

  /** What can be seen before the tick: the pass comes to a node if and only if the number of due nodes directly
      ahead of it is even. */
  lemma {:induction false} VisitedIff<T>(l: seq<Entry<T>>, p: nat)
    requires p < |l|
    ensures Visited(l, p) <==> DueAhead(l, p) % 2 == 0
    decreases p
  {
    if p > 0 {
      assert l == [l[0]] + l[1..];
      DueAheadCons(l[0], l[1..], p - 1);
      if l[0].rotation > 0 {
        VisitedIff(l[1..], p - 1);
      } else if p > 1 {
        assert l[1..] == [l[1]] + l[2..];
        DueAheadCons(l[1], l[2..], p - 2);
        VisitedIff(l[2..], p - 2);
      }
    }
  }

  /** How many entries are ahead of a timer in a slot list. */
  function Ahead<T(==)>(l: seq<Entry<T>>, id: T): (n: nat)
    ensures n <= |l|
  {
    if l == [] || l[0].id == id then 0 else 1 + Ahead(l[1..], id)
  }

  lemma {:induction false} AheadIs<T>(l: seq<Entry<T>>, p: nat, id: T)
    requires p < |l| && l[p].id == id && Meets(l, id) == 1
    ensures Ahead(l, id) == p
  {
    if p > 0 {
      OnlyOne(l, p, id);
      AheadIs(l[1..], p - 1, id);
    }
  }

  /** The timer is in the list and the pass goes over it. */
  predicate PassedOver<T(==)>(l: seq<Entry<T>>, id: T) {
    Meets(l, id) > 0 && DueAhead(l, Ahead(l, id)) % 2 == 1
  }

  // ---------- one pass, exactly ----------

  /** A timer met once, at position p: if the pass comes to it, it fires with rotation 0 and otherwise stays with
      one rotation less; if not, it stays as it is, further forward. */
  ghost predicate PassOutcome<T>(l: seq<Entry<T>>, p: nat, id: T, q: nat)
    requires p < |l|
  {
    var r := SkipSweep(l);
    if Visited(l, p) && l[p].rotation == 0 then multiset(r.fired)[id] == 1 && Meets(r.kept, id) == 0
    else
      && multiset(r.fired)[id] == 0 && Meets(r.kept, id) == 1
      && q <= p && q < |r.kept| && r.kept[q].id == id
      && r.kept[q].rotation == (if Visited(l, p) then l[p].rotation - 1 else l[p].rotation)
  }

  lemma {:induction false} PassDecides<T>(l: seq<Entry<T>>, p: nat, id: T) returns (q: nat)
    requires p < |l| && l[p].id == id && l[p].rotation >= 0 && Meets(l, id) == 1
    ensures PassOutcome(l, p, id, q)
    decreases l
  {
    SkipConserves(l, id);
    q := 0;
    if p == 0 {
      if l[0].rotation == 0 {
        assert SkipSweep(l).fired[0] == id;
      } else {
        MeetsSome(SkipSweep(l).kept, 0, id);
      }
    } else if l[0].rotation > 0 {
      OnlyOne(l, p, id);
      var q1 := PassDecides(l[1..], p - 1, id);
      MeetsCons(Entry(l[0].id, l[0].rotation - 1), SkipSweep(l[1..]).kept, id);
      q := q1 + 1;
    } else if p == 1 {
      MeetsSome(SkipSweep(l).kept, 0, id);
    } else {
      q := PassBehindDue(l, p, id);
    }
  }

  lemma {:induction false} PassBehindDue<T>(l: seq<Entry<T>>, p: nat, id: T) returns (q: nat)
    requires 1 < p < |l| && l[p].id == id && l[p].rotation >= 0 && Meets(l, id) == 1 && l[0].rotation <= 0
    ensures PassOutcome(l, p, id, q)
    decreases l, 0
  {
    OnlyOne(l, p, id);
    OnlyOne(l[1..], p - 1, id);
    assert l[1..][1..] == l[2..];
    var q1 := PassDecides(l[2..], p - 2, id);
    MeetsCons(l[1], SkipSweep(l[2..]).kept, id);
    q := q1 + 1;
  }

  /** The same of a tick at the timer's slot. */
  ghost predicate TickOutcome<T>(w: Wheel<T>, id: T, p: nat, q: nat)
    requires At(w, id, w.cur, p)
  {
    var (w1, fired) := SkipTick(w);
    var rotation := w.slots[w.cur][p].rotation;
    if PassedOver(w.slots[w.cur], id) then
      multiset(fired)[id] == 0 && At(w1, id, w.cur, q) && w1.slots[w.cur][q].rotation == rotation
    else if rotation == 0 then multiset(fired)[id] == 1 && Nowhere(w1, id)
    else multiset(fired)[id] == 0 && At(w1, id, w.cur, q) && w1.slots[w.cur][q].rotation == rotation - 1
  }

  lemma {:induction false} TickDecides<T>(w: Wheel<T>, id: T, p: nat) returns (q: nat)
    requires At(w, id, w.cur, p)
    ensures TickOutcome(w, id, p, q) && q <= p
  {
    var l := w.slots[w.cur];
    AheadIs(l, p, id);
    VisitedIff(l, p);
    q := PassDecides(l, p, id);
    if Meets(SkipSweep(l).kept, id) == 0 {
      q := 0;
    }
  }

  // ---------- runs ----------

  /** How often the ticks of a run pass over a timer. */
  function Skips<T(==)>(w: Wheel<T>, ops: seq<Op<T>>, id: T): nat
    requires Shape(w)
    decreases ops
  {
    if ops == [] then 0
    else
      (if ops[0].Tock? && PassedOver(w.slots[w.cur], id) then 1 else 0)
      + Skips(SkipApply(w, ops[0]).0, ops[1..], id)
  }

  lemma {:induction false} SkipsOfPrefix<T>(w: Wheel<T>, ops: seq<Op<T>>, id: T, i: nat)
    requires Shape(w) && 0 < i <= |ops|
    ensures Skips(w, ops[..i], id) ==
      (if ops[0].Tock? && PassedOver(w.slots[w.cur], id) then 1 else 0)
      + Skips(SkipApply(w, ops[0]).0, ops[1..][..i - 1], id)
  {
    assert ops[..i][0] == ops[0] && ops[..i][1..] == ops[1..][..i - 1];
  }

  lemma {:induction false} NowhereIsNotSkipped<T>(w: Wheel<T>, ops: seq<Op<T>>, id: T)
    requires Nowhere(w, id) && AllLeaveAlone(ops, id)
    ensures Skips(w, ops, id) == 0
    decreases ops
  {
    if ops != [] {
      NowhereOp(w, ops[0], id);
      NowhereIsNotSkipped(SkipApply(w, ops[0]).0, ops[1..], id);
    }
  }

  /** The i-th operation fires id if and only if it is the tick that comes after r others and as many turns as the
      run has passed over id. */
  ghost predicate FiresAfterSkips<T>(w: Wheel<T>, ops: seq<Op<T>>, id: T, r: int, i: nat)
    requires Shape(w) && i < |ops|
  {
    multiset(SkipRun(w, ops).1[i])[id] ==
      if ops[i].Tock? && Ticks(ops[..i]) == r + SLOTS * Skips(w, ops[..i + 1], id) then 1 else 0
  }

  lemma {:induction false} FirstOf<T>(w: Wheel<T>, ops: seq<Op<T>>, id: T, r: int)
    requires Shape(w) && ops != []
    requires multiset(SkipApply(w, ops[0]).1)[id] ==
      if ops[0].Tock? && 0 == r + (if PassedOver(w.slots[w.cur], id) then SLOTS else 0) then 1 else 0
    ensures FiresAfterSkips(w, ops, id, r, 0)
  {
    assert ops[..0] == [] && ops[..1] == [ops[0]] && [ops[0]][1..] == [];
    SkipsOfPrefix(w, ops, id, 1);
  }

  /** One operation in front. */
  lemma {:induction false} LaterOf<T>(w: Wheel<T>, ops: seq<Op<T>>, id: T, r: int, r1: int, i: nat)
    requires Shape(w) && 0 < i < |ops| && FiresAfterSkips(SkipApply(w, ops[0]).0, ops[1..], id, r1, i - 1)
    requires r1 == if !ops[0].Tock? then r else if PassedOver(w.slots[w.cur], id) then r - 1 + SLOTS else r - 1
    ensures FiresAfterSkips(w, ops, id, r, i)
  {
    TicksOfPrefix(ops, i);
    SkipsOfPrefix(w, ops, id, i + 1);
    assert ops[1..][i - 1] == ops[i];
  }

  lemma {:induction false} LaterNever<T>(w: Wheel<T>, ops: seq<Op<T>>, id: T, i: nat)
    requires Shape(w) && 0 < i < |ops| && ops[0].Tock? && !PassedOver(w.slots[w.cur], id)
    requires Nowhere(SkipApply(w, ops[0]).0, id) && AllLeaveAlone(ops, id)
    ensures FiresAfterSkips(w, ops, id, 0, i)
  {
    var w1 := SkipApply(w, ops[0]).0;
    TicksOfPrefix(ops, i);
    SkipsOfPrefix(w, ops, id, i + 1);
    NowhereNeverFires(w1, ops[1..], id);
    NowhereIsNotSkipped(w1, ops[1..][..i], id);
  }

  /** With the tick as written, a timer with r ticks left that is left alone fires on the tick after r others and
      as many turns of 600 as passes have gone over it, and on no other operation. */
  lemma {:induction false} FiresExactlyAfterSkips<T>(w: Wheel<T>, ops: seq<Op<T>>, id: T, k: nat, p: nat)
    requires At(w, id, k, p) && AllLeaveAlone(ops, id)
    ensures forall i :: 0 <= i < |ops| ==>
      FiresAfterSkips(w, ops, id, Left(w.cur, k, w.slots[k][p].rotation), i)
    decreases ops
  {
    if ops != [] {
      var r, w1 := Left(w.cur, k, w.slots[k][p].rotation), SkipApply(w, ops[0]).0;
      var q := p;
      if !ops[0].Tock? {
        q := OtherOpFollows(w, ops[0], id, k, p);
      } else if w.cur != k {
        SkipConserves(w.slots[w.cur], id);
        LeftAfterTick(w.cur, k, w.slots[k][p].rotation);
      } else {
        q := TickDecides(w, id, p);
        LeftAfterTick(w.cur, k, w.slots[k][p].rotation);
      }
      FirstOf(w, ops, id, r);
      if Nowhere(w1, id) {
        forall i: nat | 0 < i < |ops| ensures FiresAfterSkips(w, ops, id, r, i) {
          LaterNever(w, ops, id, i);
        }
      } else {
        LeftAfterTick(w.cur, k, w1.slots[k][q].rotation);
        FiresExactlyAfterSkips(w1, ops[1..], id, k, q);
        forall i: nat | 0 < i < |ops| ensures FiresAfterSkips(w, ops, id, r, i) {
          LaterOf(w, ops, id, r, Left(w1.cur, k, w1.slots[k][q].rotation), i);
        }
      }
    }
  }

  lemma {:induction false} RunThenTick<T>(w: Wheel<T>, ops: seq<Op<T>>)
    requires Shape(w)
    ensures Run(w, ops + [Tock]).1[|ops|] == Tick(Run(w, ops).0).1
    ensures SkipRun(w, ops + [Tock]).1[|ops|] == SkipTick(SkipRun(w, ops).0).1
    decreases ops
  {
    if ops == [] {
      assert ops + [Tock] == [Tock];
    } else {
      RunThenTick(Apply(w, ops[0]).0, ops[1..]);
      RunThenTick(SkipApply(w, ops[0]).0, ops[1..]);
      assert (ops + [Tock])[1..] == ops[1..] + [Tock];
    }
  }

  // ---------- from the operation that sets the timer ----------

  /** An add of a timer that is in no list, or a reset of any. */
  ghost predicate SetsOn<T>(w: Wheel<T>, op: Op<T>, id: T, timeout: int) {
    (op == Add(id, timeout) && Nowhere(w, id)) || (op == Reset(id, timeout) && Shape(w))
  }

  /** The nodes ahead of the timer when it is set. */
  function AheadWhenSet<T(==)>(w: Wheel<T>, op: Op<T>): nat
    requires Shape(w) && (op.Add? || op.Reset?)
  {
    var w0 := if op.Add? then w else Remove(w, op.id);
    |w0.slots[SlotFor(w.cur, TicksOf(op.timeout))]|
  }

  lemma {:induction false} JustSet<T>(w: Wheel<T>, op: Op<T>, id: T, timeout: int) returns (k: nat)
    requires SetsOn(w, op, id, timeout)
    ensures var w1, p := SkipApply(w, op).0, AheadWhenSet(w, op);
      At(w1, id, k, p) && Left(w1.cur, k, w1.slots[k][p].rotation) == TicksOf(timeout)
  {
    var t := TicksOf(timeout);
    var w0, e := if op.Add? then w else Remove(w, id), Entry(id, t / SLOTS);
    k := SlotFor(w.cur, t);
    if op.Reset? {
      forall j | 0 <= j < SLOTS ensures Meets(w0.slots[j], id) == 0 {
        DroppedGone(w.slots[j], id);
      }
    }
    MeetsConcat(w0.slots[k], [e], id);
    MeetsCons(e, [], id);
    assert [e] + [] == [e];
    LeftOfNew(w.cur, t);
  }

  /** A timer added or reset with t ticks and left alone fires exactly on the tick after t others and as many turns
      as passes have gone over it. */
  lemma {:induction false} SetTimerFiresAfterSkips<T>(w: Wheel<T>, op: Op<T>, ops: seq<Op<T>>, id: T, timeout: int)
    requires SetsOn(w, op, id, timeout) && AllLeaveAlone(ops, id)
    ensures var w1 := SkipApply(w, op).0;
      forall i :: 0 <= i < |ops| ==>
        multiset(SkipRun(w1, ops).1[i])[id] ==
          if ops[i].Tock? && Ticks(ops[..i]) == TicksOf(timeout) + 600 * Skips(w1, ops[..i + 1], id) then 1 else 0
  {
    var w1 := SkipApply(w, op).0;
    var k := JustSet(w, op, id, timeout);
    FiresExactlyAfterSkips(w1, ops, id, k, AheadWhenSet(w, op));
    forall i | 0 <= i < |ops|
      ensures multiset(SkipRun(w1, ops).1[i])[id] ==
        if ops[i].Tock? && Ticks(ops[..i]) == TicksOf(timeout) + 600 * Skips(w1, ops[..i + 1], id) then 1 else 0
    {
      assert FiresAfterSkips(w1, ops, id, TicksOf(timeout), i);
    }
  }

  /** On its own tick, the (t+1)-th, it fires if and only if no tick of the run, that one included, has passed over
      it; on no earlier operation does it fire. */
  lemma {:induction false} FiresOnOwnTickIff<T>(w: Wheel<T>, op: Op<T>, ops: seq<Op<T>>, id: T, timeout: int, i: nat)
    requires SetsOn(w, op, id, timeout) && AllLeaveAlone(ops, id) && i < |ops|
    requires Ticks(ops[..i]) <= TicksOf(timeout)
    ensures var w1 := SkipApply(w, op).0;
      multiset(SkipRun(w1, ops).1[i])[id] ==
        if ops[i].Tock? && Ticks(ops[..i]) == TicksOf(timeout) && Skips(w1, ops[..i + 1], id) == 0 then 1 else 0
  {
    SetTimerFiresAfterSkips(w, op, ops, id, timeout);
  }
}
