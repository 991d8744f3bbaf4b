/** The pass of tick() as it is written: after a node has fired and been erased the iterator, already on
    the next node, is advanced once more by the loop header, so that node is neither examined nor
    changed. An advance past the end of the list is taken as the end of the loop. */
module SkippingWheel {
  import opened WheelModel
  import opened WheelRuns

  function SkipSweep<T>(l: seq<Entry<T>>): Swept<T> {
    if l == [] then Swept([], [])
    else if l[0].rotation > 0 then
      var r := SkipSweep(l[1..]);
      Swept(r.fired, [Entry(l[0].id, l[0].rotation - 1)] + r.kept)
    else if |l| == 1 then Swept([l[0].id], [])
    else
      var r := SkipSweep(l[2..]);
      Swept([l[0].id] + r.fired, [l[1]] + r.kept)
  }

  function SkipTick<T>(w: Wheel<T>): (Wheel<T>, seq<T>)
    requires Shape(w)
  {
    var r := SkipSweep(w.slots[w.cur]);
    (Wheel(w.slots[w.cur := r.kept], NextSlot(w.cur)), r.fired)
  }

  function SkipApply<T(==)>(w: Wheel<T>, op: Op<T>): (r: (Wheel<T>, seq<T>))
    requires Shape(w)
    ensures Shape(r.0)
  {
    if op.Tock? then SkipTick(w) else Apply(w, op)
  }

  function SkipRun<T(==)>(w: Wheel<T>, ops: seq<Op<T>>): (r: (Wheel<T>, seq<seq<T>>))
    requires Shape(w)
    ensures Shape(r.0) && |r.1| == |ops|
    decreases ops
  {
    if ops == [] then (w, [])
    else
      var (w1, fired) := SkipApply(w, ops[0]);
      var (w2, rest) := SkipRun(w1, ops[1..]);
      (w2, [fired] + rest)
  }

  // ---------- when the two traversals agree ----------

  lemma {:induction false} SkipFiresNoMore<T>(l: seq<Entry<T>>)
    ensures |SkipSweep(l).fired| <= |Sweep(l).fired|
    decreases l
  {
    if l != [] {
      if l[0].rotation > 0 {
        SkipFiresNoMore(l[1..]);
      } else if |l| > 1 {
        SkipFiresNoMore(l[2..]);
        assert l[1..][1..] == l[2..];
      }
    }
  }

  /** The pass as written does what one advance per node would do exactly when no node but the last is
      due in the slot. */
  lemma {:induction false} SkipAgreesIff<T>(l: seq<Entry<T>>)
    ensures SkipSweep(l) == Sweep(l) <==> forall i :: 0 <= i < |l| - 1 ==> l[i].rotation > 0
  {
    if l == [] {
    } else if l[0].rotation > 0 {
      var t := l[1..];
      SkipAgreesIff(t);
      var x := Entry(l[0].id, l[0].rotation - 1);
      assert ([x] + Sweep(t).kept)[1..] == Sweep(t).kept;
      assert ([x] + SkipSweep(t).kept)[1..] == SkipSweep(t).kept;
      assert forall i :: 0 < i < |l| ==> l[i] == t[i - 1];
      assert (forall i :: 0 <= i < |l| - 1 ==> l[i].rotation > 0) ==> forall i :: 0 <= i < |t| - 1 ==> t[i] == l[i + 1];
    } else if |l| > 1 {
      SkipFiresNoMore(l[2..]);
      assert l[1..][1..] == l[2..];
      if l[1].rotation > 0 {
        assert Sweep(l[1..]).kept[0] == Entry(l[1].id, l[1].rotation - 1);
        assert SkipSweep(l).kept[0] == l[1];
      } else {
        assert |Sweep(l).fired| == 2 + |Sweep(l[2..]).fired|;
      }
    }
  }

  /** The iterator is advanced past the end: the last node was met and fired. */
  predicate RunsPastEnd<T>(l: seq<Entry<T>>) {
    if l == [] then false
    else if l[0].rotation > 0 then RunsPastEnd(l[1..])
    else |l| == 1 || RunsPastEnd(l[2..])
  }

  /** Without reading meaning into an advance past the end, the pass as written is right exactly when
      nothing in the slot is due. */
  lemma {:induction false} SkipAgreesWithinListIff<T>(l: seq<Entry<T>>)
    ensures SkipSweep(l) == Sweep(l) && !RunsPastEnd(l) <==> forall i :: 0 <= i < |l| ==> l[i].rotation > 0
  {
    SkipAgreesIff(l);
    if forall i :: 0 <= i < |l| - 1 ==> l[i].rotation > 0 {
      PastEndIffLastDue(l);
    }
  }

  lemma {:induction false} PastEndIffLastDue<T>(l: seq<Entry<T>>)
    requires forall i :: 0 <= i < |l| - 1 ==> l[i].rotation > 0
    ensures RunsPastEnd(l) <==> |l| > 0 && l[|l| - 1].rotation <= 0
  {
    if |l| > 1 {
      assert l[1..][|l| - 2] == l[|l| - 1];
      PastEndIffLastDue(l[1..]);
    }
  }

  /** Two timers due together: only the first is fired. */
  lemma SkippedExample()
    ensures SkipSweep([Entry(1, 0), Entry(2, 0)]) == Swept([1], [Entry(2, 0)])
    ensures Sweep([Entry(1, 0), Entry(2, 0)]) == Swept([1, 2], [])
  {
    assert [Entry(1, 0), Entry(2, 0)][2..] == [];
    assert [Entry(1, 0), Entry(2, 0)][1..] == [Entry(2, 0)];
  }

  // ---------- following one timer ----------

  lemma {:induction false} SkipConserves<T>(l: seq<Entry<T>>, id: T)
    ensures Meets(l, id) == multiset(SkipSweep(l).fired)[id] + Meets(SkipSweep(l).kept, id)
    decreases l
  {
    if l != [] {
      if l[0].rotation > 0 {
        SkipConserves(l[1..], id);
        MeetsCons(Entry(l[0].id, l[0].rotation - 1), SkipSweep(l[1..]).kept, id);
      } else if |l| > 1 {
        SkipConserves(l[2..], id);
        MeetsCons(l[1], SkipSweep(l[2..]).kept, id);
        assert l[1..][1..] == l[2..];
      }
    }
  }

  lemma MeetsCons<T>(x: Entry<T>, l: seq<Entry<T>>, id: T)
    ensures Meets([x] + l, id) == (if x.id == id then 1 else 0) + Meets(l, id)
  {
    assert ([x] + l)[1..] == l;
  }

  /** A timer met once by the list, at position p: either the pass fires it, with rotation 0, or keeps it
      at a position q, examined and not further back, or skipped and then further forward. */
  lemma {:induction false} SkipFollows<T>(l: seq<Entry<T>>, p: nat, id: T) returns (q: nat)
    requires p < |l| && l[p].id == id && l[p].rotation >= 0 && Meets(l, id) == 1
    ensures var kept := SkipSweep(l).kept;
      if Meets(kept, id) == 0 then l[p].rotation == 0
      else
        && q < |kept| && kept[q].id == id
        && (|| (l[p].rotation > 0 && kept[q].rotation == l[p].rotation - 1 && q <= p)
            || (kept[q].rotation == l[p].rotation && q < p))
    decreases l
  {
    q := 0;
    if p == 0 {
      SkipConserves(l, id);
      assert l[0].rotation == 0 ==> SkipSweep(l).fired[0] == id;
    } else if l[0].rotation > 0 {
      OnlyOne(l, p, id);
      var q1 := SkipFollows(l[1..], p - 1, id);
      MeetsCons(Entry(l[0].id, l[0].rotation - 1), SkipSweep(l[1..]).kept, id);
      q := q1 + 1;
    } else {
      OnlyOne(l, p, id);
      MeetsCons(l[1], SkipSweep(l[2..]).kept, id);
      if p > 1 {
        OnlyOne(l[1..], p - 1, id);
        assert l[1..][1..] == l[2..];
        var q1 := SkipFollows(l[2..], p - 2, id);
        q := q1 + 1;
      }
    }
  }

  lemma {:induction false} MeetsSome<T>(l: seq<Entry<T>>, p: nat, id: T)
    requires p < |l| && l[p].id == id
    ensures Meets(l, id) >= 1
  {
    if p > 0 {
      MeetsSome(l[1..], p - 1, id);
    }
  }

  lemma OnlyOne<T>(l: seq<Entry<T>>, p: nat, id: T)
    requires 0 < p < |l| && l[p].id == id && Meets(l, id) == 1
    ensures l[0].id != id && Meets(l[1..], id) == 1 && l[1..][p - 1] == l[p]
  {
    MeetsSome(l[1..], p - 1, id);
  }

  // ---------- lateness over runs ----------

  /** id is live in slot k at position p, and nowhere else. */
  ghost predicate At<T>(w: Wheel<T>, id: T, k: nat, p: nat) {
    && Shape(w) && k < SLOTS && p < |w.slots[k]|
    && w.slots[k][p].id == id && w.slots[k][p].rotation >= 0
    && Meets(w.slots[k], id) == 1
    && forall j :: 0 <= j < SLOTS && j != k ==> Meets(w.slots[j], id) == 0
  }

  ghost predicate Nowhere<T>(w: Wheel<T>, id: T) {
    Shape(w) && forall j :: 0 <= j < SLOTS ==> Meets(w.slots[j], id) == 0
  }

  /** Ticks until the cursor finds the entry at rotation 0: whole turns and the way to the slot. */
  function Left(cur: nat, k: nat, rotation: int): int {
    rotation * SLOTS + (if k >= cur then k - cur else k - cur + SLOTS)
  }

  lemma {:induction false} MeetsConcat<T>(a: seq<Entry<T>>, b: seq<Entry<T>>, id: T)
    ensures Meets(a + b, id) == Meets(a, id) + Meets(b, id)
  {
    if a == [] {
      assert a + b == b;
    } else {
      MeetsConcat(a[1..], b, id);
      assert (a + b)[0] == a[0] && (a + b)[1..] == a[1..] + b;
    }
  }

  lemma {:induction false} DroppedFollows<T>(l: seq<Entry<T>>, other: T, id: T)
    requires other != id
    ensures Meets(Dropped(l, other), id) == Meets(l, id)
    ensures forall p :: 0 <= p < |l| && l[p].id == id ==>
      exists q :: 0 <= q <= p && q < |Dropped(l, other)| && Dropped(l, other)[q] == l[p]
  {
    if l != [] {
      var t := l[1..];
      DroppedFollows(t, other, id);
      MeetsCons(l[0], Dropped(t, other), id);
      forall p | 0 <= p < |l| && l[p].id == id
        ensures exists q :: 0 <= q <= p && q < |Dropped(l, other)| && Dropped(l, other)[q] == l[p]
      {
        if p == 0 {
          assert Dropped(l, other)[0] == l[0];
        } else {
          assert t[p - 1] == l[p];
          var q :| 0 <= q <= p - 1 && q < |Dropped(t, other)| && Dropped(t, other)[q] == t[p - 1];
          var q1 := if l[0].id == other then q else q + 1;
          assert Dropped(l, other)[q1] == l[p];
        }
      }
    }
  }

  lemma {:induction false} DroppedGone<T>(l: seq<Entry<T>>, id: T)
    ensures Meets(Dropped(l, id), id) == 0
  {
    if l != [] {
      DroppedGone(l[1..], id);
      MeetsCons(l[0], Dropped(l[1..], id), id);
    }
  }

  lemma PushOtherFollows<T>(w: Wheel<T>, other: T, ticks: nat, id: T, k: nat, p: nat)
    requires At(w, id, k, p) && other != id
    ensures At(PushBack(w, other, ticks), id, k, p)
    ensures PushBack(w, other, ticks).slots[k][p] == w.slots[k][p]
  {
    var ts := SlotFor(w.cur, ticks);
    var e := Entry(other, ticks / SLOTS);
    MeetsConcat(w.slots[ts], [e], id);
    MeetsCons(e, [], id);
    assert [e] + [] == [e];
  }

  lemma RemoveOtherFollows<T>(w: Wheel<T>, other: T, id: T, k: nat, p: nat) returns (q: nat)
    requires At(w, id, k, p) && other != id
    ensures q <= p && At(Remove(w, other), id, k, q)
    ensures Remove(w, other).slots[k][q] == w.slots[k][p]
  {
    forall j | 0 <= j < SLOTS ensures Meets(Remove(w, other).slots[j], id) == Meets(w.slots[j], id) {
      DroppedFollows(w.slots[j], other, id);
    }
    DroppedFollows(w.slots[k], other, id);
    q :| 0 <= q <= p && q < |Dropped(w.slots[k], other)| && Dropped(w.slots[k], other)[q] == w.slots[k][p];
  }

  /** An operation on another timer: the wait is the same, the place not further back. */
  lemma OtherOpFollows<T>(w: Wheel<T>, op: Op<T>, id: T, k: nat, p: nat) returns (q: nat)
    requires At(w, id, k, p) && LeavesAlone(op, id) && !op.Tock?
    ensures q <= p && At(Apply(w, op).0, id, k, q)
    ensures Apply(w, op).0.slots[k][q] == w.slots[k][p] && Apply(w, op).0.cur == w.cur
  {
    q := p;
    match op
    case Add(other, timeout) => PushOtherFollows(w, other, TicksOf(timeout), id, k, p);
    case Delete(other) => q := RemoveOtherFollows(w, other, id, k, p);
    case Reset(other, timeout) =>
      q := RemoveOtherFollows(w, other, id, k, p);
      PushOtherFollows(Remove(w, other), other, TicksOf(timeout), id, k, q);
  }

  lemma LeftAfterTick(cur: nat, k: nat, rotation: int)
    requires cur < SLOTS && k < SLOTS
    ensures cur != k ==> Left(NextSlot(cur), k, rotation) == Left(cur, k, rotation) - 1
    ensures cur == k ==> Left(cur, k, rotation) == rotation * SLOTS
    ensures cur == k ==> Left(NextSlot(cur), k, rotation) == rotation * SLOTS - 1 + SLOTS
  {
  }

  /** A tick as written: the timer fires, having no ticks left; or one tick less is left; or a whole turn
      more than that, but then it is further forward in its list. */
  ghost predicate SkipOutcome<T>(w: Wheel<T>, id: T, k: nat, p: nat, q: nat)
    requires At(w, id, k, p)
  {
    var (w1, fired) := SkipTick(w);
    var r := Left(w.cur, k, w.slots[k][p].rotation);
    if Meets(w1.slots[k], id) == 0 then r == 0 && multiset(fired)[id] == 1 && Nowhere(w1, id)
    else
      && multiset(fired)[id] == 0 && At(w1, id, k, q)
      && var r1 := Left(w1.cur, k, w1.slots[k][q].rotation);
         || (r > 0 && r1 == r - 1 && q <= p)
         || (r1 == r - 1 + SLOTS && q < p)
  }

  lemma SkipTickAtCursor<T>(w: Wheel<T>, id: T, p: nat) returns (q: nat)
    requires At(w, id, w.cur, p)
    ensures SkipOutcome(w, id, w.cur, p, q)
  {
    SkipConserves(w.slots[w.cur], id);
    q := SkipFollows(w.slots[w.cur], p, id);
    LeftAfterTick(w.cur, w.cur, w.slots[w.cur][p].rotation);
    if Meets(SkipSweep(w.slots[w.cur]).kept, id) != 0 {
      LeftAfterTick(w.cur, w.cur, SkipSweep(w.slots[w.cur]).kept[q].rotation);
    }
  }

  lemma SkipTickFollows<T>(w: Wheel<T>, id: T, k: nat, p: nat) returns (q: nat)
    requires At(w, id, k, p)
    ensures SkipOutcome(w, id, k, p, q)
  {
    if w.cur == k {
      q := SkipTickAtCursor(w, id, p);
    } else {
      q := p;
      SkipConserves(w.slots[w.cur], id);
      LeftAfterTick(w.cur, k, w.slots[k][p].rotation);
    }
  }

  // m ticks have passed when a timer with r ticks left, p nodes ahead of it, is fired.
  predicate LateByTurns(m: nat, r: nat, p: nat) {
    m >= r && (m - r) % 600 == 0 && (m - r) / 600 <= p
  }

  lemma {:induction false} NowhereNeverFires<T>(w: Wheel<T>, ops: seq<Op<T>>, id: T)
    requires Nowhere(w, id) && AllLeaveAlone(ops, id)
    ensures forall i :: 0 <= i < |ops| ==> multiset(SkipRun(w, ops).1[i])[id] == 0
    decreases ops
  {
    if ops != [] {
      NowhereOp(w, ops[0], id);
      NowhereNeverFires(SkipApply(w, ops[0]).0, ops[1..], id);
    }
  }

  lemma NowhereOp<T>(w: Wheel<T>, op: Op<T>, id: T)
    requires Nowhere(w, id) && LeavesAlone(op, id)
    ensures Nowhere(SkipApply(w, op).0, id) && multiset(SkipApply(w, op).1)[id] == 0
  {
    if op.Tock? {
      SkipConserves(w.slots[w.cur], id);
    } else {
      var w1 := if op.Add? then w else Remove(w, op.id);
      forall j | 0 <= j < SLOTS ensures Meets(w1.slots[j], id) == 0 {
        DroppedFollows(w.slots[j], op.id, id);
      }
      if !op.Delete? {
        var ts, e := SlotFor(w.cur, TicksOf(op.timeout)), Entry(op.id, TicksOf(op.timeout) / SLOTS);
        MeetsConcat(w1.slots[ts], [e], id);
        MeetsCons(e, [], id);
        assert [e] + [] == [e];
      }
    }
  }

  lemma LateStep(m: nat, r: int, r1: nat, p: nat, q: nat)
    requires (r1 == r - 1 && q <= p) || (r1 == r - 1 + SLOTS && q < p)
    requires r >= 0 && LateByTurns(m, r1, q)
    ensures LateByTurns(m + 1, r, p)
  {
    var n := (m - r1) / SLOTS;
    if r1 == r - 1 {
      DivMod(m + 1 - r, n, 0);
    } else {
      DivMod(m + 1 - r, n + 1, 0);
    }
  }

  /** What is claimed of a run in which id, with r ticks left and p nodes ahead of it, is left alone. */
  ghost predicate FiresLate<T>(trace: seq<seq<T>>, ops: seq<Op<T>>, id: T, r: nat, p: nat)
    requires |trace| == |ops|
  {
    && (forall i :: 0 <= i < |ops| && multiset(trace[i])[id] > 0 ==>
          ops[i].Tock? && LateByTurns(Ticks(ops[..i]), r, p))
    && TimesFired(trace, id) <= 1
    && (Ticks(ops) > r + SLOTS * p ==> TimesFired(trace, id) == 1)
  }

  lemma {:induction false} NoneFired<T>(trace: seq<seq<T>>, id: T)
    requires forall i :: 0 <= i < |trace| ==> multiset(trace[i])[id] == 0
    ensures TimesFired(trace, id) == 0
  {
    if trace != [] {
      NoneFired(trace[1..], id);
    }
  }

  /** One operation in front of a run. */
  lemma FiresLateCons<T>(fired: seq<T>, rest: seq<seq<T>>, ops: seq<Op<T>>, id: T, r: nat, p: nat, r1: nat, q: nat)
    requires ops != [] && |rest| == |ops| - 1 && multiset(fired)[id] == 0
    requires FiresLate(rest, ops[1..], id, r1, q)
    requires if ops[0].Tock? then (r1 == r - 1 && q <= p) || (r1 == r - 1 + SLOTS && q < p) else r1 == r && q <= p
    ensures FiresLate([fired] + rest, ops, id, r, p)
  {
    var trace := [fired] + rest;
    FiredCons(fired, rest, id);
    forall i | 0 <= i < |ops| && multiset(trace[i])[id] > 0
      ensures ops[i].Tock? && LateByTurns(Ticks(ops[..i]), r, p)
    {
      assert trace[i] == rest[i - 1] && ops[i] == ops[1..][i - 1];
      TicksOfPrefix(ops, i);
      if ops[0].Tock? {
        LateStep(Ticks(ops[1..][..i - 1]), r, r1, p, q);
      }
    }
  }

  lemma FiresNow<T>(fired: seq<T>, rest: seq<seq<T>>, ops: seq<Op<T>>, id: T, p: nat)
    requires ops != [] && |rest| == |ops| - 1 && ops[0].Tock? && multiset(fired)[id] == 1
    requires forall i :: 0 <= i < |rest| ==> multiset(rest[i])[id] == 0
    ensures FiresLate([fired] + rest, ops, id, 0, p)
  {
    FiredCons(fired, rest, id);
    NoneFired(rest, id);
    forall i | 0 <= i < |ops| && multiset(([fired] + rest)[i])[id] > 0
      ensures ops[i].Tock? && LateByTurns(Ticks(ops[..i]), 0, p)
    {
      assert ops[..0] == [];
    }
  }

  /** With the traversal as written no timer fires early, and one left alone fires late by a whole number
      of turns, at most one for each node ahead of it in its slot list. */
  lemma {:induction false} LateByWholeTurns<T>(w: Wheel<T>, ops: seq<Op<T>>, id: T, k: nat, p: nat)
    requires At(w, id, k, p) && AllLeaveAlone(ops, id)
    ensures Left(w.cur, k, w.slots[k][p].rotation) >= 0
    ensures FiresLate(SkipRun(w, ops).1, ops, id, Left(w.cur, k, w.slots[k][p].rotation), p)
    decreases ops
  {
    var r := Left(w.cur, k, w.slots[k][p].rotation);
    if ops != [] {
      var (w1, fired) := SkipApply(w, ops[0]);
      var rest := SkipRun(w1, ops[1..]).1;
      if ops[0].Tock? {
        var q := SkipTickFollows(w, id, k, p);
        if Meets(w1.slots[k], id) == 0 {
          NowhereNeverFires(w1, ops[1..], id);
          FiresNow(fired, rest, ops, id, p);
        } else {
          LateByWholeTurns(w1, ops[1..], id, k, q);
          FiresLateCons(fired, rest, ops, id, r, p, Left(w1.cur, k, w1.slots[k][q].rotation), q);
        }
      } else {
        var q := OtherOpFollows(w, ops[0], id, k, p);
        LateByWholeTurns(w1, ops[1..], id, k, q);
        FiresLateCons(fired, rest, ops, id, r, p, r, q);
      }
    }
  }

  /** From the operation that adds the timer: nominally it fires after TicksOf(timeout) ticks, and the
      nodes ahead of it are those in its slot list when it is pushed back. */
  lemma AddedTimerIsLateByTurns<T>(w: Wheel<T>, ops: seq<Op<T>>, id: T, timeout: int)
    requires Nowhere(w, id) && AllLeaveAlone(ops, id)
    ensures FiresLate(SkipRun(Apply(w, Add(id, timeout)).0, ops).1, ops, id, TicksOf(timeout),
                      |w.slots[SlotFor(w.cur, TicksOf(timeout))]|)
  {
    var t := TicksOf(timeout);
    var k, e := SlotFor(w.cur, t), Entry(id, t / SLOTS);
    var w1, p := PushBack(w, id, t), |w.slots[k]|;
    MeetsConcat(w.slots[k], [e], id);
    MeetsCons(e, [], id);
    assert [e] + [] == [e];
    assert w1.slots[k][p] == e;
    LeftOfNew(w.cur, t);
    LateByWholeTurns(w1, ops, id, k, p);
  }

  /** The same for a reset of any timer. */
  lemma ResetTimerIsLateByTurns<T>(w: Wheel<T>, ops: seq<Op<T>>, id: T, timeout: int)
    requires Shape(w) && AllLeaveAlone(ops, id)
    ensures FiresLate(SkipRun(Apply(w, Reset(id, timeout)).0, ops).1, ops, id, TicksOf(timeout),
                      |Remove(w, id).slots[SlotFor(w.cur, TicksOf(timeout))]|)
  {
    forall j | 0 <= j < SLOTS ensures Meets(Remove(w, id).slots[j], id) == 0 {
      DroppedGone(w.slots[j], id);
    }
    AddedTimerIsLateByTurns(Remove(w, id), ops, id, timeout);
  }

  lemma LeftOfNew(cur: nat, t: nat)
    requires cur < SLOTS
    ensures Left(cur, SlotFor(cur, t), t / SLOTS) == t
  {
    var m := t % SLOTS;
    var wrap := if cur + m < SLOTS then 0 else 1;
    DivMod(cur + m, wrap, cur + m - SLOTS * wrap);
  }
}
