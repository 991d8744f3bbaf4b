/** Whole runs of the wheel with the tick as it is written: exactly when they are the runs with one advance
    per node, and that no timer is lost or fired twice in any of them. */
module WrittenRuns {
  import opened StableQueue
  import opened WheelModel
  import opened WheelRuns
  import opened SkippingWheel
  import opened FlatWheel
  import opened TimerAgreement

  // ---------- when the runs agree ----------

  /** No entry but the last is due. */
  ghost predicate OnlyLastDue<T>(l: seq<Entry<T>>) {
    forall i :: 0 <= i < |l| - 1 ==> l[i].rotation > 0
  }

  /** At every tick of the run that holds of the slot list under the cursor. */
  ghost predicate AloneWhenDue<T>(w: Wheel<T>, ops: seq<Op<T>>)
    requires Shape(w)
    decreases ops
  {
    ops == [] ||
    ((ops[0].Tock? ==> OnlyLastDue(w.slots[w.cur])) && AloneWhenDue(Apply(w, ops[0]).0, ops[1..]))
  }

  /** After i operations wheel and callbacks are the same with either traversal. */
  ghost predicate AgreeAfter<T>(w: Wheel<T>, ops: seq<Op<T>>, i: nat)
    requires Shape(w) && i <= |ops|
  {
    SkipRun(w, ops[..i]) == Run(w, ops[..i])
  }

  lemma {:induction false} TickAgreesIff<T>(w: Wheel<T>)
    requires Shape(w)
    ensures SkipTick(w) == Tick(w) <==> OnlyLastDue(w.slots[w.cur])
  {
    var l := w.slots[w.cur];
    SkipAgreesIff(l);
    assert SkipTick(w).0.slots[w.cur] == SkipSweep(l).kept && Tick(w).0.slots[w.cur] == Sweep(l).kept;
  }

  lemma {:induction false} AgreeAfterFirst<T>(w: Wheel<T>, ops: seq<Op<T>>, i: nat)
    requires Shape(w) && i < |ops| && SkipApply(w, ops[0]) == Apply(w, ops[0])
    ensures AgreeAfter(w, ops, i + 1) <==> AgreeAfter(Apply(w, ops[0]).0, ops[1..], i)
  {
    var w1 := Apply(w, ops[0]).0;
    assert ops[..i + 1][0] == ops[0] && ops[..i + 1][1..] == ops[1..][..i];
    var (a, b) := (SkipRun(w1, ops[1..][..i]), Run(w1, ops[1..][..i]));
    var fired := Apply(w, ops[0]).1;
    assert ([fired] + a.1)[1..] == a.1 && ([fired] + b.1)[1..] == b.1;
  }

  lemma {:induction false} FirstAgrees<T>(w: Wheel<T>, ops: seq<Op<T>>)
    requires Shape(w) && ops != [] && AgreeAfter(w, ops, 1)
    ensures SkipApply(w, ops[0]) == Apply(w, ops[0])
  {
    assert ops[..1] == [ops[0]] && [ops[0]][1..] == [];
    var (s, r) := (SkipApply(w, ops[0]), Apply(w, ops[0]));
    assert SkipRun(w, ops[..1]) == (s.0, [s.1] + []) && Run(w, ops[..1]) == (r.0, [r.1] + []);
    assert ([s.1] + [])[0] == s.1 && ([r.1] + [])[0] == r.1;
  }

  /** The run as written goes, step by step, like the run with one advance per node if and only if no timer is
      ever due with another behind it in the slot list under the cursor. */
  lemma {:induction false} RunsAgreeIff<T>(w: Wheel<T>, ops: seq<Op<T>>)
    requires Shape(w)
    ensures (forall i :: 0 <= i <= |ops| ==> AgreeAfter(w, ops, i)) <==> AloneWhenDue(w, ops)
    decreases ops
  {
    assert AgreeAfter(w, ops, 0) by {
      assert ops[..0] == [];
    }
    if ops != [] {
      var w1, rest := Apply(w, ops[0]).0, ops[1..];
      RunsAgreeIff(w1, rest);
      if ops[0].Tock? {
        TickAgreesIff(w);
      }
      if SkipApply(w, ops[0]) == Apply(w, ops[0]) {
        forall i: nat | i < |ops| ensures AgreeAfter(w, ops, i + 1) <==> AgreeAfter(w1, rest, i) {
          AgreeAfterFirst(w, ops, i);
        }
        if forall i :: 0 <= i <= |ops| ==> AgreeAfter(w, ops, i) {
          forall i: nat | i <= |rest| ensures AgreeAfter(w1, rest, i) {
            assert AgreeAfter(w, ops, i + 1);
          }
        }
        if AloneWhenDue(w, ops) {
          forall i: nat | 0 < i <= |ops| ensures AgreeAfter(w, ops, i) {
            assert AgreeAfter(w1, rest, i - 1);
          }
        }
      } else if AgreeAfter(w, ops, 1) {
        FirstAgrees(w, ops);
      }
    }
  }

  /** So in those runs the wheel as written fires like the stable priority queue ... */
  lemma {:induction false} WrittenWheelIsStableQueue<T>(ops: seq<Op<T>>)
    requires AloneWhenDue(Empty<T>(), ops)
    ensures SkipRun(Empty<T>(), ops).1 == QueueRun([], 0, ops)
  {
    RunsAgreeIff(Empty<T>(), ops);
    assert AgreeAfter(Empty<T>(), ops, |ops|) && ops[..|ops|] == ops;
    WheelIsStableQueue(ops);
  }

  lemma {:induction false} FlatSweepFiresAll<T>(l: seq<Entry<T>>)
    requires FlatList(l)
    ensures |Sweep(l).fired| == |l|
  {
    if l != [] {
      FlatSweepFiresAll(l[1..]);
    }
  }

  /** A tick with timeouts under a turn fires what was intended only if at most one timer was due. */
  lemma {:induction false} FlatTickAgrees<T>(w: Wheel<T>)
    requires Flat(w) && SkipTick(w).1 == Tick(w).1
    ensures OnlyLastDue(w.slots[w.cur]) && SkipTick(w) == Tick(w)
  {
    EvensFire(w.slots[w.cur]);
    FlatSweepFiresAll(w.slots[w.cur]);
    TickAgreesIff(w);
  }

  lemma {:induction false} SameCallbacksAreAlone<T>(w: Wheel<T>, ops: seq<Op<T>>)
    requires Flat(w) && AllShort(ops) && SkipRun(w, ops).1 == Run(w, ops).1
    ensures AloneWhenDue(w, ops)
    decreases ops
  {
    if ops != [] {
      var s, r := SkipApply(w, ops[0]), Apply(w, ops[0]);
      var a, b := SkipRun(s.0, ops[1..]).1, Run(r.0, ops[1..]).1;
      assert ([s.1] + a)[0] == ([r.1] + b)[0] && ([s.1] + a)[1..] == ([r.1] + b)[1..];
      assert ([s.1] + a)[1..] == a && ([r.1] + b)[1..] == b;
      if ops[0].Tock? {
        FlatTickAgrees(w);
      }
      FlatStep(w, ops[0]);
      SameCallbacksAreAlone(s.0, ops[1..]);
    }
  }

  /** With timeouts under a turn it fires like the queue only in those runs. */
  lemma {:induction false} ShortIsStableQueueIff<T>(ops: seq<Op<T>>)
    requires AllShort(ops)
    ensures SkipRun(Empty<T>(), ops).1 == QueueRun([], 0, ops) <==> AloneWhenDue(Empty<T>(), ops)
  {
    WheelIsStableQueue(ops);
    EmptyIsFlat<T>();
    if AloneWhenDue(Empty<T>(), ops) {
      WrittenWheelIsStableQueue(ops);
    } else if SkipRun(Empty<T>(), ops).1 == Run(Empty<T>(), ops).1 {
      SameCallbacksAreAlone(Empty<T>(), ops);
    }
  }

  /** ... and each timer left alone on its tick and on no other. */
  lemma {:induction false} WrittenWheelFiresOnTime<T>(w: Wheel<T>, s: seq<Keyed<T>>, op: Op<T>, ops: seq<Op<T>>,
                                                      id: T, timeout: int)
    requires Represents(w, s) && Sets(s, op, id, timeout) && AllLeaveAlone(ops, id)
    requires AloneWhenDue(Apply(w, op).0, ops)
    ensures forall i :: 0 <= i < |ops| ==>
      multiset(SkipRun(Apply(w, op).0, ops).1[i])[id] ==
        if ops[i].Tock? && Ticks(ops[..i]) == TicksOf(timeout) then 1 else 0
  {
    var w1 := Apply(w, op).0;
    RunsAgreeIff(w1, ops);
    assert AgreeAfter(w1, ops, |ops|) && ops[..|ops|] == ops;
    FiresExactlyOnTime(w, s, op, ops, id, timeout);
  }

  // ---------- conservation ----------

  /** How often a handle occurs in the first n slot lists. */
  function PresentIn<T(==)>(slots: seq<seq<Entry<T>>>, id: T, n: nat): nat
    requires n <= |slots|
  {
    if n == 0 then 0 else PresentIn(slots, id, n - 1) + Meets(slots[n - 1], id)
  }

  function Present<T(==)>(w: Wheel<T>, id: T): nat
    requires Shape(w)
  {
    PresentIn(w.slots, id, SLOTS)
  }

  lemma {:induction false} PresentUpdate<T>(slots: seq<seq<Entry<T>>>, k: nat, l: seq<Entry<T>>, id: T, n: nat)
    requires k < |slots| && n <= |slots|
    ensures PresentIn(slots[k := l], id, n) ==
      PresentIn(slots, id, n) + if k < n then Meets(l, id) - Meets(slots[k], id) else 0
  {
    if n > 0 {
      PresentUpdate(slots, k, l, id, n - 1);
    }
  }

  lemma {:induction false} PresentRemove<T>(w: Wheel<T>, other: T, id: T, n: nat)
    requires n <= |w.slots|
    ensures PresentIn(Remove(w, other).slots, id, n) == if other == id then 0 else PresentIn(w.slots, id, n)
  {
    if n > 0 {
      PresentRemove(w, other, id, n - 1);
      if other == id {
        DroppedGone(w.slots[n - 1], id);
      } else {
        DroppedFollows(w.slots[n - 1], other, id);
      }
    }
  }

  lemma {:induction false} PresentPush<T>(w: Wheel<T>, other: T, ticks: nat, id: T)
    requires Shape(w)
    ensures Present(PushBack(w, other, ticks), id) == Present(w, id) + if other == id then 1 else 0
  {
    var ts, e := SlotFor(w.cur, ticks), Entry(other, ticks / SLOTS);
    PresentUpdate(w.slots, ts, w.slots[ts] + [e], id, SLOTS);
    MeetsConcat(w.slots[ts], [e], id);
    MeetsCons(e, [], id);
    assert [e] + [] == [e];
  }

  /** New handles are in no list, deleted and reset ones in one. */
  predicate LegalOn<T(==)>(w: Wheel<T>, op: Op<T>)
    requires Shape(w)
  {
    match op
    case Add(id, _) => Present(w, id) == 0
    case Delete(id) => Present(w, id) == 1
    case Reset(id, _) => Present(w, id) == 1
    case Tock => true
  }

  ghost predicate LegalSkipRun<T>(w: Wheel<T>, ops: seq<Op<T>>)
    requires Shape(w)
    decreases ops
  {
    ops == [] || (LegalOn(w, ops[0]) && LegalSkipRun(SkipApply(w, ops[0]).0, ops[1..]))
  }

  lemma {:induction false} SkipOpConserves<T>(w: Wheel<T>, op: Op<T>, id: T)
    requires Shape(w) && LegalOn(w, op)
    ensures var (w1, fired) := SkipApply(w, op);
      Present(w, id) + (if op.Add? && op.id == id then 1 else 0) ==
      Present(w1, id) + multiset(fired)[id] + (if op.Delete? && op.id == id then 1 else 0)
  {
    match op
    case Add(other, timeout) => PresentPush(w, other, TicksOf(timeout), id);
    case Delete(other) => PresentRemove(w, other, id, SLOTS);
    case Reset(other, timeout) =>
      PresentRemove(w, other, id, SLOTS);
      PresentPush(Remove(w, other), other, TicksOf(timeout), id);
    case Tock =>
      SkipConserves(w.slots[w.cur], id);
      PresentUpdate(w.slots, w.cur, SkipSweep(w.slots[w.cur]).kept, id, SLOTS);
  }

  /** Over every legal run as written and for every handle: in a list before + added = in a list after + fired
      + deleted. */
  lemma {:induction false} SkipRunConserves<T>(w: Wheel<T>, ops: seq<Op<T>>, id: T)
    requires Shape(w) && LegalSkipRun(w, ops)
    ensures var (w2, trace) := SkipRun(w, ops);
      Present(w, id) + TimesAdded(ops, id) == Present(w2, id) + TimesFired(trace, id) + TimesDeleted(ops, id)
    decreases ops
  {
    if ops != [] {
      SkipOpConserves(w, ops[0], id);
      var (w1, fired) := SkipApply(w, ops[0]);
      SkipRunConserves(w1, ops[1..], id);
      FiredCons(fired, SkipRun(w1, ops[1..]).1, id);
    }
  }

  lemma {:induction false} PresentInNone<T>(id: T, n: nat)
    requires n <= SLOTS
    ensures PresentIn(Empty<T>().slots, id, n) == 0
  {
    if n > 0 {
      PresentInNone(id, n - 1);
    }
  }

  /** A timer created once is, at the end of any legal run as written, exactly one of live, fired once and
      deleted. */
  lemma {:induction false} WrittenWheelConserves<T>(ops: seq<Op<T>>, id: T)
    requires LegalSkipRun(Empty<T>(), ops) && TimesAdded(ops, id) == 1
    ensures var (w, trace) := SkipRun(Empty<T>(), ops);
      Present(w, id) + TimesFired(trace, id) + TimesDeleted(ops, id) == 1
  {
    PresentInNone(id, SLOTS);
    SkipRunConserves(Empty<T>(), ops, id);
  }
}
