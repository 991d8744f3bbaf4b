/** Exactly which runs of the wheel as written fire like the stable priority queue, for any timeouts: those in
    which no timer comes due that a pass has gone over since it was set. */
module LateRuns {
  import opened StableQueue
  import opened WheelModel
  import opened WheelRuns
  import opened SkippingWheel
  import opened OnTime
  import opened TimerAgreement

  // ---------- the timers a pass goes over ----------

  function Over<T(==)>(l: seq<Entry<T>>): set<T> {
    if l == [] then {}
    else if l[0].rotation > 0 then Over(l[1..])
    else if |l| == 1 then {}
    else {l[1].id} + Over(l[2..])
  }

  lemma {:induction false} OverIsInList<T>(l: seq<Entry<T>>, id: T)
    requires id in Over(l)
    ensures Meets(l, id) > 0
    decreases l
  {
    if l[0].rotation > 0 {
      OverIsInList(l[1..], id);
    } else {
      assert l[1..][1..] == l[2..];
      if id != l[1].id {
        OverIsInList(l[2..], id);
      }
    }
  }

  lemma {:induction false} OverIffNotVisited<T>(l: seq<Entry<T>>, p: nat, id: T)
    requires p < |l| && l[p].id == id && Meets(l, id) == 1
    ensures id in Over(l) <==> !Visited(l, p)
    decreases l
  {
    if p == 0 {
      if id in Over(l) {
        if l[0].rotation > 0 {
          OverIsInList(l[1..], id);
        } else {
          assert l[1..][1..] == l[2..];
          if l[1].id != id {
            OverIsInList(l[2..], id);
          }
        }
      }
    } else {
      OnlyOne(l, p, id);
      if l[0].rotation > 0 {
        OverIffNotVisited(l[1..], p - 1, id);
      } else if p > 1 {
        OnlyOne(l[1..], p - 1, id);
        assert l[1..][1..] == l[2..];
        OverIffNotVisited(l[2..], p - 2, id);
      }
    }
  }

  /** They are the timers with an odd number of due ones directly ahead. */
  lemma {:induction false} OverIff<T>(l: seq<Entry<T>>, p: nat, id: T)
    requires p < |l| && l[p].id == id && Meets(l, id) == 1
    ensures id in Over(l) <==> PassedOver(l, id)
  {
    OverIffNotVisited(l, p, id);
    AheadIs(l, p, id);
    VisitedIff(l, p);
  }

  // ---------- the tick as written, on a countdown ----------

  datatype Passed<T> = Passed(fired: seq<T>, kept: seq<Keyed<T>>, over: set<T>)

  /** Every live timer, in the order in which they were set: one that the pass goes over waits a turn longer.
      `skip`: the node before it in the slot has just fired. */
  function Pass<T(==)>(s: seq<Keyed<T>>, cur: nat, skip: bool): Passed<T> {
    if s == [] then Passed([], [], {})
    else
      var x := s[0];
      if (cur + x.key) % SLOTS != cur then
        var r := Pass(s[1..], cur, skip);
        r.(kept := [Keyed(x.id, x.key - 1)] + r.kept)
      else if skip then
        var r := Pass(s[1..], cur, false);
        r.(kept := [Keyed(x.id, x.key - 1 + SLOTS)] + r.kept, over := {x.id} + r.over)
      else if x.key > 0 then
        var r := Pass(s[1..], cur, false);
        r.(kept := [Keyed(x.id, x.key - 1)] + r.kept)
      else
        var r := Pass(s[1..], cur, true);
        r.(fired := [x.id] + r.fired)
  }

  /** The pass over the rest of a slot list. */
  function SweepFrom<T>(l: seq<Entry<T>>, skip: bool): Swept<T> {
    if skip && l != [] then var r := SkipSweep(l[1..]); r.(kept := [l[0]] + r.kept)
    else SkipSweep(l)
  }

  function OverFrom<T(==)>(l: seq<Entry<T>>, skip: bool): set<T> {
    if skip && l != [] then {l[0].id} + Over(l[1..]) else Over(l)
  }

  lemma {:induction false} FromCons<T>(e: Entry<T>, l: seq<Entry<T>>, skip: bool)
    ensures SweepFrom([e] + l, skip) ==
      if skip then Swept(SkipSweep(l).fired, [e] + SkipSweep(l).kept)
      else if e.rotation > 0 then Swept(SkipSweep(l).fired, [Entry(e.id, e.rotation - 1)] + SkipSweep(l).kept)
      else Swept([e.id] + SweepFrom(l, true).fired, SweepFrom(l, true).kept)
    ensures OverFrom([e] + l, skip) ==
      if skip then {e.id} + Over(l) else if e.rotation > 0 then Over(l) else OverFrom(l, true)
  {
    var c := [e] + l;
    assert c[1..] == l;
    if l != [] {
      assert c[2..] == l[1..];
    }
  }

  lemma {:induction false} ATurnLater(cur: nat, key: int)
    requires cur < SLOTS && key >= 0
    ensures (NextSlot(cur) + (key - 1 + SLOTS)) % SLOTS == (cur + key) % SLOTS
    ensures (cur + key) % SLOTS == cur ==> (key - 1 + SLOTS) / SLOTS == key / SLOTS
  {
    OneTickLater(cur, key + SLOTS);
    var q, m := (cur + key) / SLOTS, (cur + key) % SLOTS;
    DivMod(cur + key + SLOTS, q + 1, m);
    DivMod(key + SLOTS, key / SLOTS + 1, key % SLOTS);
  }

  /** A timer not in the slot under the cursor has something left to wait. */
  lemma {:induction false} ElsewhereWaits(cur: nat, key: int)
    requires cur < SLOTS && key >= 0 && (cur + key) % SLOTS != cur
    ensures key >= 1
  {
  }

  lemma {:induction false} PassOtherSlot<T>(s: seq<Keyed<T>>, cur: nat, skip: bool, k: nat)
    requires NonNegative(s) && cur < SLOTS && k != cur
    ensures Project(Pass(s, cur, skip).kept, NextSlot(cur), k) == Project(s, cur, k)
  {
    if s != [] {
      var x, t := s[0], s[1..];
      assert s == [x] + t;
      if (cur + x.key) % SLOTS != cur {
        PassOtherSlot(t, cur, skip, k);
        ElsewhereWaits(cur, x.key);
        OtherSlotCons(x, Pass(t, cur, skip).kept, t, cur, k);
      } else if skip {
        PassOtherSlot(t, cur, false, k);
        ATurnLater(cur, x.key);
        ProjectCons(Keyed(x.id, x.key - 1 + SLOTS), Pass(t, cur, false).kept, NextSlot(cur), k);
        ProjectCons(x, t, cur, k);
      } else if x.key > 0 {
        PassOtherSlot(t, cur, false, k);
        OtherSlotCons(x, Pass(t, cur, false).kept, t, cur, k);
      } else {
        PassOtherSlot(t, cur, true, k);
        ProjectCons(x, t, cur, k);
      }
    }
  }

  ghost predicate PassIsSweep<T>(s: seq<Keyed<T>>, cur: nat, skip: bool) {
    var l, r := Project(s, cur, cur), Pass(s, cur, skip);
    && SweepFrom(l, skip) == Swept(r.fired, Project(r.kept, NextSlot(cur), cur))
    && OverFrom(l, skip) == r.over
  }

  /** What a timer in the slot under the cursor that stays is in the next tick's view of that slot. */
  lemma {:induction false} KeptInSlot<T>(x: Keyed<T>, kept: seq<Keyed<T>>, cur: nat)
    requires cur < SLOTS && x.key >= 0 && (cur + x.key) % SLOTS == cur
    ensures Project([Keyed(x.id, x.key - 1 + SLOTS)] + kept, NextSlot(cur), cur) ==
      [Entry(x.id, x.key / SLOTS)] + Project(kept, NextSlot(cur), cur)
    ensures x.key > 0 ==>
      && x.key / SLOTS > 0
      && Project([Keyed(x.id, x.key - 1)] + kept, NextSlot(cur), cur) ==
           [Entry(x.id, x.key / SLOTS - 1)] + Project(kept, NextSlot(cur), cur)
  {
    ATurnLater(cur, x.key);
    ProjectCons(Keyed(x.id, x.key - 1 + SLOTS), kept, NextSlot(cur), cur);
    if x.key > 0 {
      OneTickLater(cur, x.key);
      ProjectCons(Keyed(x.id, x.key - 1), kept, NextSlot(cur), cur);
    }
  }

  lemma {:induction false} PassIsSweepCons<T>(x: Keyed<T>, t: seq<Keyed<T>>, cur: nat, skip: bool)
    requires cur < SLOTS && x.key >= 0 && (cur + x.key) % SLOTS == cur
    requires PassIsSweep(t, cur, !skip && x.key == 0)
    ensures PassIsSweep([x] + t, cur, skip)
  {
    var l := Project(t, cur, cur);
    assert ([x] + t)[1..] == t;
    ProjectCons(x, t, cur, cur);
    FromCons(Entry(x.id, x.key / SLOTS), l, skip);
    KeptInSlot(x, Pass(t, cur, !skip && x.key == 0).kept, cur);
  }

  lemma {:induction false} PassCursorSlot<T>(s: seq<Keyed<T>>, cur: nat, skip: bool)
    requires NonNegative(s) && cur < SLOTS
    ensures PassIsSweep(s, cur, skip)
  {
    if s != [] {
      var x, t := s[0], s[1..];
      assert s == [x] + t;
      if (cur + x.key) % SLOTS != cur {
        PassCursorSlot(t, cur, skip);
        ElsewhereWaits(cur, x.key);
        OneTickLater(cur, x.key);
        ProjectCons(x, t, cur, cur);
        ProjectCons(Keyed(x.id, x.key - 1), Pass(t, cur, skip).kept, NextSlot(cur), cur);
      } else {
        PassCursorSlot(t, cur, !skip && x.key == 0);
        PassIsSweepCons(x, t, cur, skip);
      }
    }
  }

  lemma {:induction false} PassNonNegative<T>(s: seq<Keyed<T>>, cur: nat, skip: bool)
    requires NonNegative(s) && cur < SLOTS
    ensures NonNegative(Pass(s, cur, skip).kept)
  {
    if s != [] {
      PassNonNegative(s[1..], cur, true);
      PassNonNegative(s[1..], cur, false);
      if (cur + s[0].key) % SLOTS != cur {
        ElsewhereWaits(cur, s[0].key);
      }
    }
  }

  /** A tick as written is this pass over a countdown that the wheel stands for. */
  lemma {:induction false} SkipTickRefines<T>(w: Wheel<T>, s: seq<Keyed<T>>)
    requires Represents(w, s)
    ensures var r := Pass(s, w.cur, false);
      SkipTick(w).1 == r.fired && Represents(SkipTick(w).0, r.kept) && Over(w.slots[w.cur]) == r.over
  {
    var r := Pass(s, w.cur, false);
    PassCursorSlot(s, w.cur, false);
    PassNonNegative(s, w.cur, false);
    forall k | 0 <= k < SLOTS ensures SkipTick(w).0.slots[k] == Project(r.kept, NextSlot(w.cur), k) {
      if k != w.cur {
        PassOtherSlot(s, w.cur, false, k);
      }
    }
  }

  // ---------- behind the countdown that was intended ----------

  /** x1, in the countdown of the wheel as written, is behind x, in the intended one, by whole turns; by none
      exactly if it is not late. */
  ghost predicate Lags<T>(x1: Keyed<T>, x: Keyed<T>, late: set<T>) {
    && x1.id == x.id && 0 <= x.key <= x1.key && (x1.key - x.key) % SLOTS == 0
    && (x1.key == x.key <==> x.id !in late)
  }

  ghost predicate Lagging<T>(s1: seq<Keyed<T>>, s: seq<Keyed<T>>, late: set<T>) {
    |s1| == |s| && forall i :: 0 <= i < |s| ==> Lags(s1[i], s[i], late)
  }

  ghost predicate Distinct<T>(s: seq<Keyed<T>>) {
    forall i, j :: 0 <= i < j < |s| ==> s[i].id != s[j].id
  }

  /** What is due now is not late. */
  ghost predicate DueOnTime<T>(s: seq<Keyed<T>>, late: set<T>) {
    forall i :: 0 <= i < |s| && s[i].key <= 0 ==> s[i].id !in late
  }

  ghost predicate LiveIn<T>(s: seq<Keyed<T>>, id: T) {
    exists i :: 0 <= i < |s| && s[i].id == id
  }

  lemma {:induction false} LiveInRest<T>(s: seq<Keyed<T>>, id: T)
    requires s != []
    ensures LiveIn(s, s[0].id) && (LiveIn(s[1..], id) ==> LiveIn(s, id))
  {
    if LiveIn(s[1..], id) {
      var i :| 0 <= i < |s[1..]| && s[1..][i].id == id;
      assert s[i + 1].id == id;
    }
  }

  lemma {:induction false} PassedIsLive<T>(s: seq<Keyed<T>>, cur: nat, skip: bool, id: T)
    requires id in Pass(s, cur, skip).over
    ensures LiveIn(s, id)
  {
    var x, t := s[0], s[1..];
    LiveInRest(s, id);
    if (cur + x.key) % SLOTS != cur {
      PassedIsLive(t, cur, skip, id);
    } else if skip {
      if id != x.id {
        PassedIsLive(t, cur, false, id);
      }
    } else {
      PassedIsLive(t, cur, x.key <= 0, id);
    }
  }

  lemma {:induction false} LaggingWithout<T>(s1: seq<Keyed<T>>, s: seq<Keyed<T>>, late: set<T>, id: T)
    requires Lagging(s1, s, late) && forall i :: 0 <= i < |s| ==> s[i].id != id
    ensures Lagging(s1, s, late + {id}) && Lagging(s1, s, late - {id})
  {
    forall i | 0 <= i < |s| ensures Lags(s1[i], s[i], late + {id}) && Lags(s1[i], s[i], late - {id}) {
      assert Lags(s1[i], s[i], late);
    }
  }

  lemma {:induction false} LaggingCons<T>(x1: Keyed<T>, x: Keyed<T>, s1: seq<Keyed<T>>, s: seq<Keyed<T>>, late: set<T>)
    requires Lagging(s1, s, late) && Lags(x1, x, late)
    ensures Lagging([x1] + s1, [x] + s, late)
  {
    var a, b := [x1] + s1, [x] + s;
    forall i | 0 <= i < |b| ensures Lags(a[i], b[i], late) {
      assert i > 0 ==> Lags(s1[i - 1], s[i - 1], late);
    }
  }

  /** The tick as written fires no more than is due, and exactly that if nothing due is late or passed over; then
      what it passes over is what becomes late. */
  ghost predicate TickCompares<T>(s1: seq<Keyed<T>>, s: seq<Keyed<T>>, late: set<T>, cur: nat, skip: bool) {
    var r, late1 := Pass(s1, cur, skip), late + Pass(s1, cur, skip).over;
    && |r.fired| <= |Filter(s, DueBy(0))|
    && (|r.fired| == |Filter(s, DueBy(0))| ==> DueOnTime(s, late1))
    && (DueOnTime(s, late1) ==>
          r.fired == Ids(Filter(s, DueBy(0))) && Lagging(r.kept, Lower(Filter(s, After(0))), late1))
  }

  lemma {:induction false} SameSlot(cur: nat, key: int, key1: int)
    requires 0 <= key <= key1 && (key1 - key) % SLOTS == 0 && cur < SLOTS
    ensures (cur + key1) % SLOTS == (cur + key) % SLOTS
  {
    var n := (key1 - key) / SLOTS;
    DivMod(cur + key1, (cur + key) / SLOTS + n, (cur + key) % SLOTS);
  }

  lemma {:induction false} DueOnTimeCons<T>(x: Keyed<T>, t: seq<Keyed<T>>, late: set<T>, over: set<T>)
    requires forall i :: 0 <= i < |t| ==> t[i].id != x.id
    ensures DueOnTime([x] + t, late + over) <==> (x.key <= 0 ==> x.id !in late + over) && DueOnTime(t, late + over)
    ensures DueOnTime(t, late + ({x.id} + over)) <==> DueOnTime(t, late + over)
  {
    var s := [x] + t;
    assert forall i :: 0 <= i < |t| ==> s[i + 1] == t[i];
    if DueOnTime(s, late + over) {
      assert s[0] == x;
    }
  }

  /** A due timer, first in the sequence. */
  lemma {:induction false} CompareDue<T>(x1: Keyed<T>, x: Keyed<T>, t1: seq<Keyed<T>>, t: seq<Keyed<T>>,
                                         late: set<T>, cur: nat, skip: bool)
    requires cur < SLOTS && Lags(x1, x, late) && x.key == 0 && forall i :: 0 <= i < |t| ==> t[i].id != x.id
    requires |t1| == |t| && forall i :: 0 <= i < |t| ==> t1[i].id == t[i].id
    requires TickCompares(t1, t, late, cur, !skip && x1.key == 0)
    ensures TickCompares([x1] + t1, [x] + t, late, cur, skip)
  {
    SameSlot(cur, 0, x1.key);
    assert ([x1] + t1)[1..] == t1;
    FilterCons(x, t, DueBy(0));
    FilterCons(x, t, After(0));
    IdsCons(x, Filter(t, DueBy(0)));
    var r0, r := Pass(t1, cur, !skip && x1.key == 0), Pass([x1] + t1, cur, skip);
    DueOnTimeCons(x, t, late, r0.over);
    DueOnTimeCons(x, t, late, r.over);
    if x.id in r0.over {
      PassedIsLive(t1, cur, !skip && x1.key == 0, x.id);
    }
  }

  /** A timer with something left to wait. */
  lemma {:induction false} CompareWaiting<T>(x1: Keyed<T>, x: Keyed<T>, t1: seq<Keyed<T>>, t: seq<Keyed<T>>,
                                             late: set<T>, cur: nat, skip: bool)
    requires cur < SLOTS && Lags(x1, x, late) && x.key > 0 && forall i :: 0 <= i < |t| ==> t[i].id != x.id
    requires |t1| == |t| && forall i :: 0 <= i < |t| ==> t1[i].id == t[i].id
    requires TickCompares(t1, t, late, cur, skip && (cur + x1.key) % SLOTS != cur)
    ensures TickCompares([x1] + t1, [x] + t, late, cur, skip)
  {
    var over := skip && (cur + x1.key) % SLOTS == cur;
    var skip0 := skip && !over;
    var r0, y := Pass(t1, cur, skip0), if over then Keyed(x.id, x1.key - 1 + SLOTS) else Keyed(x.id, x1.key - 1);
    PassWaiting(x1, t1, cur, skip);
    FilterCons(x, t, DueBy(0));
    FilterCons(x, t, After(0));
    LowerCons(x, Filter(t, After(0)));
    DueOnTimeCons(x, t, late, r0.over);
    DueOnTimeCons(x, t, late, {x.id} + r0.over);
    if x.id in r0.over {
      PassedIsLive(t1, cur, skip0, x.id);
    }
    assert late + ({x.id} + r0.over) == late + r0.over + {x.id};
    if DueOnTime(t, late + r0.over) {
      RestIds(t, x.id);
      KeptLags(y, Keyed(x.id, x.key - 1), r0.kept, Lower(Filter(t, After(0))), late + r0.over, over);
    }
  }

  lemma {:induction false} PassWaiting<T>(x: Keyed<T>, t: seq<Keyed<T>>, cur: nat, skip: bool)
    requires x.key > 0
    ensures var over := skip && (cur + x.key) % SLOTS == cur;
      var r := Pass(t, cur, skip && !over);
      Pass([x] + t, cur, skip) ==
        if over then Passed(r.fired, [Keyed(x.id, x.key - 1 + SLOTS)] + r.kept, {x.id} + r.over)
        else Passed(r.fired, [Keyed(x.id, x.key - 1)] + r.kept, r.over)
  {
    assert ([x] + t)[1..] == t;
  }

  /** A timer that has waited, passed over or not, in front of others. */
  lemma {:induction false} KeptLags<T>(y1: Keyed<T>, y: Keyed<T>, s1: seq<Keyed<T>>, s: seq<Keyed<T>>,
                                       late: set<T>, over: bool)
    requires Lagging(s1, s, late) && forall i :: 0 <= i < |s| ==> s[i].id != y.id
    requires y1.id == y.id && 0 <= y.key <= y1.key && (y1.key - y.key) % SLOTS == 0
    requires if over then y1.key > y.key else y1.key == y.key <==> y.id !in late
    ensures Lagging([y1] + s1, [y] + s, if over then late + {y.id} else late)
  {
    if over {
      LaggingWithout(s1, s, late, y.id);
    }
    LaggingCons(y1, y, s1, s, if over then late + {y.id} else late);
  }

  lemma {:induction false} RestIds<T>(t: seq<Keyed<T>>, id: T)
    requires forall i :: 0 <= i < |t| ==> t[i].id != id
    ensures var rest := Lower(Filter(t, After(0))); forall i :: 0 <= i < |rest| ==> rest[i].id != id
  {
    var f := Filter(t, After(0));
    FilterMembers(t, After(0));
    forall i | 0 <= i < |f| ensures f[i].id != id {
      assert f[i] in t;
    }
  }

  lemma {:induction false} Compare<T>(s1: seq<Keyed<T>>, s: seq<Keyed<T>>, late: set<T>, cur: nat, skip: bool)
    requires cur < SLOTS && Lagging(s1, s, late) && Distinct(s)
    ensures TickCompares(s1, s, late, cur, skip)
  {
    if s != [] {
      var x1, x, t1, t := s1[0], s[0], s1[1..], s[1..];
      assert Lags(x1, x, late) && s1 == [x1] + t1 && s == [x] + t;
      assert Lagging(t1, t, late) by {
        forall i | 0 <= i < |t| ensures Lags(t1[i], t[i], late) {
          assert Lags(s1[i + 1], s[i + 1], late);
        }
      }
      assert forall i :: 0 <= i < |t| ==> Lags(t1[i], t[i], late);
      if x.key == 0 {
        Compare(t1, t, late, cur, !skip && x1.key == 0);
        CompareDue(x1, x, t1, t, late, cur, skip);
      } else {
        Compare(t1, t, late, cur, skip && (cur + x1.key) % SLOTS != cur);
        CompareWaiting(x1, x, t1, t, late, cur, skip);
      }
    }
  }

  // ---------- runs ----------

  /** The timers that have been passed over since they were set. */
  function LateAfter<T(==)>(w: Wheel<T>, op: Op<T>, late: set<T>): set<T>
    requires Shape(w)
  {
    if op.Tock? then late + Over(w.slots[w.cur]) else late - {op.id}
  }

  /** At no tick of the run is a timer due, by the countdown s, that has been passed over since it was set, that
      tick included. */
  ghost predicate NoneLate<T>(w: Wheel<T>, s: seq<Keyed<T>>, late: set<T>, ops: seq<Op<T>>)
    requires Shape(w)
    decreases ops
  {
    ops == [] ||
    (var late1 := LateAfter(w, ops[0], late);
     && (ops[0].Tock? ==> DueOnTime(s, late1))
     && NoneLate(SkipApply(w, ops[0]).0, CountdownApply(s, ops[0]).0, late1, ops[1..]))
  }

  lemma {:induction false} FilterLagging<T>(s1: seq<Keyed<T>>, s: seq<Keyed<T>>, late: set<T>, id: T)
    requires Lagging(s1, s, late)
    ensures Lagging(Filter(s1, NotId(id)), Filter(s, NotId(id)), late - {id})
  {
    if s != [] {
      assert Lags(s1[0], s[0], late);
      assert Lagging(s1[1..], s[1..], late) by {
        forall i | 0 <= i < |s| - 1 ensures Lags(s1[1..][i], s[1..][i], late) {
          assert Lags(s1[i + 1], s[i + 1], late);
        }
      }
      FilterLagging(s1[1..], s[1..], late, id);
      if s[0].id != id {
        LaggingCons(s1[0], s[0], Filter(s1[1..], NotId(id)), Filter(s[1..], NotId(id)), late - {id});
      }
    }
  }

  lemma {:induction false} LaggingSnoc<T>(s1: seq<Keyed<T>>, s: seq<Keyed<T>>, late: set<T>, id: T, t: nat)
    requires Lagging(s1, s, late) && id !in late
    ensures Lagging(s1 + [Keyed(id, t)], s + [Keyed(id, t)], late)
  {
    var a, b := s1 + [Keyed(id, t as int)], s + [Keyed(id, t as int)];
    forall i | 0 <= i < |b| ensures Lags(a[i], b[i], late) {
      assert i < |s| ==> Lags(s1[i], s[i], late);
    }
  }

  lemma {:induction false} DistinctFilter<T>(s: seq<Keyed<T>>, c: Cut<T>)
    requires Distinct(s)
    ensures Distinct(Filter(s, c))
  {
    if s != [] {
      var t := s[1..];
      assert forall i :: 0 <= i < |t| ==> t[i].id != s[0].id;
      assert Distinct(t);
      DistinctFilter(t, c);
      FilterMembers(t, c);
      var f: seq<Keyed<T>> := Filter(t, c);
      forall i | 0 <= i < |f| ensures f[i].id != s[0].id {
        assert f[i] in t;
      }
    }
  }

  lemma {:induction false} GoneId<T>(s: seq<Keyed<T>>, id: T)
    ensures forall i :: 0 <= i < |Filter(s, NotId(id))| ==> Filter(s, NotId(id))[i].id != id
  {
    FilterMembers(s, NotId(id));
  }

  /** An operation other than a tick. */
  lemma {:induction false} OpKeepsLag<T>(s1: seq<Keyed<T>>, s: seq<Keyed<T>>, late: set<T>, op: Op<T>)
    requires Lagging(s1, s, late) && Distinct(s) && Legal(s, op) && !op.Tock?
    ensures Lagging(CountdownApply(s1, op).0, CountdownApply(s, op).0, late - {op.id})
    ensures Distinct(CountdownApply(s, op).0)
  {
    if op.Add? {
      NoCopies(s, op.id);
      LaggingWithout(s1, s, late, op.id);
      LaggingSnoc(s1, s, late - {op.id}, op.id, TicksOf(op.timeout));
    } else {
      FilterLagging(s1, s, late, op.id);
      DistinctFilter(s, NotId(op.id));
      GoneId(s, op.id);
      if op.Reset? {
        LaggingSnoc(Filter(s1, NotId(op.id)), Filter(s, NotId(op.id)), late - {op.id}, op.id, TicksOf(op.timeout));
      }
    }
  }

  lemma {:induction false} SameTrace<T>(x: seq<T>, y: seq<T>, a: seq<seq<T>>, b: seq<seq<T>>)
    ensures [x] + a == [y] + b <==> x == y && a == b
  {
    assert ([x] + a)[0] == x && ([y] + b)[0] == y && ([x] + a)[1..] == a && ([y] + b)[1..] == b;
  }

  lemma {:induction false} DistinctLower<T>(s: seq<Keyed<T>>)
    requires Distinct(s)
    ensures Distinct(Lower(s))
  {
  }

  lemma {:induction false} RunsAlikeIffNoneLate<T>(w: Wheel<T>, s1: seq<Keyed<T>>, s: seq<Keyed<T>>, late: set<T>,
                                                   ops: seq<Op<T>>)
    requires Represents(w, s1) && Lagging(s1, s, late) && Distinct(s) && LegalRun(s, ops)
    ensures SkipRun(w, ops).1 == CountdownRun(s, ops).1 <==> NoneLate(w, s, late, ops)
    decreases ops
  {
    if ops != [] {
      var (w1, fired) := SkipApply(w, ops[0]);
      var (t, due) := CountdownApply(s, ops[0]);
      SameTrace(fired, due, SkipRun(w1, ops[1..]).1, CountdownRun(t, ops[1..]).1);
      if ops[0].Tock? {
        SkipTickRefines(w, s1);
        Compare(s1, s, late, w.cur, false);
        DistinctFilter(s, After(0));
        DistinctLower(Filter(s, After(0)));
        if DueOnTime(s, LateAfter(w, Tock, late)) {
          RunsAlikeIffNoneLate(w1, Pass(s1, w.cur, false).kept, t, LateAfter(w, Tock, late), ops[1..]);
        } else {
          assert |fired| < |due|;
        }
      } else {
        ApplyRefines(w, s1, ops[0]);
        OpKeepsLag(s1, s, late, ops[0]);
        RunsAlikeIffNoneLate(w1, CountdownApply(s1, ops[0]).0, t, late - {ops[0].id}, ops[1..]);
      }
    }
  }

  /** Over any legal run the callbacks of the wheel as written are those of the stable priority queue if and only
      if at no tick a timer is due that has been passed over since it was set. */
  lemma {:induction false} StableQueueIffNoneLate<T>(ops: seq<Op<T>>)
    requires LegalRun([], ops)
    ensures SkipRun(Empty<T>(), ops).1 == QueueRun([], 0, ops) <==> NoneLate(Empty<T>(), [], {}, ops)
  {
    EmptyRepresents<T>();
    ReachableRepresents(ops);
    WheelIsStableQueue(ops);
    RunsAlikeIffNoneLate(Empty<T>(), [], [], {}, ops);
  }
}
