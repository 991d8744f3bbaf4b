/** What every run of the timing wheel keeps: when a timer fires, how often it is looked at, that no
    timer is lost or fired twice, and how far the firing instant is from the requested timeout. */
module WheelRuns {
  import opened StableQueue
  import opened WheelModel

  function Ticks<T>(ops: seq<Op<T>>): nat {
    if ops == [] then 0 else (if ops[0].Tock? then 1 else 0) + Ticks(ops[1..])
  }

  /** The operation is about another timer, or is a tick. */
  predicate LeavesAlone<T(==)>(op: Op<T>, id: T) {
    op.Tock? || op.id != id
  }

  ghost predicate AllLeaveAlone<T>(ops: seq<Op<T>>, id: T) {
    forall i :: 0 <= i < |ops| ==> LeavesAlone(ops[i], id)
  }

  /** id is live, once, with r ticks to wait. */
  ghost predicate Waits<T>(s: seq<Keyed<T>>, id: T, r: int) {
    Filter(s, IsId(id)) == [Keyed(id, r)]
  }

  ghost predicate Absent<T>(s: seq<Keyed<T>>, id: T) {
    Filter(s, IsId(id)) == []
  }

  // ---------- one operation, seen from one timer ----------

  lemma {:induction false} FilterCommutes<T>(s: seq<Keyed<T>>, a: Cut<T>, b: Cut<T>)
    ensures Filter(Filter(s, a), b) == Filter(Filter(s, b), a)
  {
    if s != [] {
      FilterCommutes(s[1..], a, b);
      FilterCons(s[0], Filter(s[1..], a), b);
      FilterCons(s[0], Filter(s[1..], b), a);
    }
  }

  lemma FilterCons<T>(x: Keyed<T>, s: seq<Keyed<T>>, c: Cut<T>)
    ensures Filter([x] + s, c) == if Keeps(c, x) then [x] + Filter(s, c) else Filter(s, c)
  {
    assert ([x] + s)[1..] == s;
  }

  lemma {:induction false} LowerKeepsIds<T>(s: seq<Keyed<T>>, id: T)
    ensures Filter(Lower(s), IsId(id)) == Lower(Filter(s, IsId(id)))
  {
    if s != [] {
      LowerKeepsIds(s[1..], id);
      assert s == [s[0]] + s[1..];
      LowerCons(s[0], s[1..]);
      FilterCons(Keyed(s[0].id, s[0].key - 1), Lower(s[1..]), IsId(id));
      LowerCons(s[0], Filter(s[1..], IsId(id)));
    }
  }

  /** How often an id occurs is how many elements the filter for it keeps. */
  lemma {:induction false} CountIds<T>(s: seq<Keyed<T>>, id: T)
    ensures multiset(Ids(s))[id] == |Filter(s, IsId(id))|
  {
    if s != [] {
      CountIds(s[1..], id);
      assert s == [s[0]] + s[1..];
      IdsCons(s[0], s[1..]);
      assert Ids(s) == [s[0].id] + Ids(s[1..]);
    }
  }

  lemma OtherOpKeeps<T>(s: seq<Keyed<T>>, op: Op<T>, id: T)
    requires LeavesAlone(op, id) && !op.Tock?
    ensures Filter(CountdownApply(s, op).0, IsId(id)) == Filter(s, IsId(id))
  {
    if op.Delete? || op.Reset? {
      FilterCommutes(s, NotId(op.id), IsId(id));
      FilterMembers(s, IsId(id));
      FilterAll(Filter(s, IsId(id)), NotId(op.id));
    }
    if op.Add? {
      FilterSnoc(s, Keyed(id := op.id, key := TicksOf(op.timeout)), IsId(id));
    }
    if op.Reset? {
      FilterSnoc(Filter(s, NotId(op.id)), Keyed(id := op.id, key := TicksOf(op.timeout)), IsId(id));
    }
  }

  lemma TickOnWaiting<T>(s: seq<Keyed<T>>, id: T, r: int)
    requires Waits(s, id, r)
    ensures r > 0 ==> Waits(CountdownApply(s, Tock).0, id, r - 1)
    ensures r <= 0 ==> Absent(CountdownApply(s, Tock).0, id)
    ensures multiset(CountdownApply(s, Tock).1)[id] == if r > 0 then 0 else 1
  {
    LowerKeepsIds(Filter(s, After(0)), id);
    FilterCommutes(s, After(0), IsId(id));
    FilterCommutes(s, DueBy(0), IsId(id));
    CountIds(Filter(s, DueBy(0)), id);
    FilterCons(Keyed(id, r), [], After(0));
    FilterCons(Keyed(id, r), [], DueBy(0));
    assert [Keyed(id, r)] + [] == [Keyed(id, r)];
  }

  lemma OpOnAbsent<T>(s: seq<Keyed<T>>, op: Op<T>, id: T)
    requires Absent(s, id) && LeavesAlone(op, id)
    ensures Absent(CountdownApply(s, op).0, id)
    ensures multiset(CountdownApply(s, op).1)[id] == 0
  {
    if op.Tock? {
      LowerKeepsIds(Filter(s, After(0)), id);
      FilterCommutes(s, After(0), IsId(id));
      FilterCommutes(s, DueBy(0), IsId(id));
      CountIds(Filter(s, DueBy(0)), id);
    } else {
      OtherOpKeeps(s, op, id);
    }
  }

  // ---------- exact firing ----------

  lemma {:induction false} NeverFiresAbsent<T>(s: seq<Keyed<T>>, ops: seq<Op<T>>, id: T)
    requires Absent(s, id) && AllLeaveAlone(ops, id)
    ensures forall i :: 0 <= i < |ops| ==> multiset(CountdownRun(s, ops).1[i])[id] == 0
    decreases ops
  {
    if ops != [] {
      OpOnAbsent(s, ops[0], id);
      NeverFiresAbsent(CountdownApply(s, ops[0]).0, ops[1..], id);
    }
  }

  lemma {:induction false} FiresWhenDue<T>(s: seq<Keyed<T>>, ops: seq<Op<T>>, id: T, r: nat)
    requires Waits(s, id, r) && AllLeaveAlone(ops, id)
    ensures forall i :: 0 <= i < |ops| ==>
      multiset(CountdownRun(s, ops).1[i])[id] == if ops[i].Tock? && Ticks(ops[..i]) == r then 1 else 0
    decreases ops
  {
    if ops != [] {
      var s1 := CountdownApply(s, ops[0]).0;
      if ops[0].Tock? {
        TickOnWaiting(s, id, r);
        if r > 0 {
          FiresWhenDue(s1, ops[1..], id, r - 1);
        } else {
          NeverFiresAbsent(s1, ops[1..], id);
        }
      } else {
        OtherOpKeeps(s, ops[0], id);
        FiresWhenDue(s1, ops[1..], id, r);
      }
      forall i | 0 < i < |ops| ensures Ticks(ops[..i]) == (if ops[0].Tock? then 1 else 0) + Ticks(ops[1..][..i - 1]) {
        TicksOfPrefix(ops, i);
      }
    }
  }

  lemma TicksOfPrefix<T>(ops: seq<Op<T>>, i: nat)
    requires 0 < i <= |ops|
    ensures Ticks(ops[..i]) == (if ops[0].Tock? then 1 else 0) + Ticks(ops[1..][..i - 1])
  {
    assert ops[..i][1..] == ops[1..][..i - 1];
  }

  /** The operation that sets a timer: an add of a timer that is not live, or a reset of any. */
  ghost predicate Sets<T>(s: seq<Keyed<T>>, op: Op<T>, id: T, timeout: int) {
    || (op == Add(id, timeout) && Absent(s, id))
    || op == Reset(id, timeout)
  }

  lemma SetTimerWaits<T>(s: seq<Keyed<T>>, op: Op<T>, id: T, timeout: int)
    requires Sets(s, op, id, timeout)
    ensures Waits(CountdownApply(s, op).0, id, TicksOf(timeout))
  {
    var x := Keyed(id := id, key := TicksOf(timeout) as int);
    if op.Add? {
      FilterSnoc(s, x, IsId(id));
    } else {
      FilterSnoc(Filter(s, NotId(id)), x, IsId(id));
      FilterMembers(s, NotId(id));
      FilterNone(Filter(s, NotId(id)), IsId(id));
    }
  }

  /** A timer set with t = TicksOf(timeout) and then left alone is fired by the wheel exactly once,
      on the (t+1)-th tick that follows, whatever is done to the other timers meanwhile. */
  lemma FiresExactlyOnTime<T>(w: Wheel<T>, s: seq<Keyed<T>>, op: Op<T>, ops: seq<Op<T>>, id: T, timeout: int)
    requires Represents(w, s) && Sets(s, op, id, timeout) && AllLeaveAlone(ops, id)
    ensures forall i :: 0 <= i < |ops| ==>
      multiset(Run(Apply(w, op).0, ops).1[i])[id] ==
        if ops[i].Tock? && Ticks(ops[..i]) == TicksOf(timeout) then 1 else 0
  {
    ApplyRefines(w, s, op);
    RunRefines(Apply(w, op).0, CountdownApply(s, op).0, ops);
    SetTimerWaits(s, op, id, timeout);
    FiresWhenDue(CountdownApply(s, op).0, ops, id, TicksOf(timeout));
  }

  /** Every wheel that operations can lead to from the empty one represents some countdown. */
  lemma ReachableRepresents<T>(ops: seq<Op<T>>)
    ensures Represents(Run(Empty<T>(), ops).0, CountdownRun([], ops).0)
    ensures Run(Empty<T>(), ops).1 == CountdownRun([], ops).1
  {
    EmptyRepresents<T>();
    RunRefines(Empty<T>(), [], ops);
  }

  // ---------- examinations ----------

  /** How many entries of a slot list belong to id. */
  function Meets<T(==)>(l: seq<Entry<T>>, id: T): nat {
    if l == [] then 0 else (if l[0].id == id then 1 else 0) + Meets(l[1..], id)
  }

  /** How often the passes of a run come across id. */
  function Examinations<T(==)>(w: Wheel<T>, ops: seq<Op<T>>, id: T): nat
    requires Shape(w)
    decreases ops
  {
    if ops == [] then 0
    else (if ops[0].Tock? then Meets(w.slots[w.cur], id) else 0) + Examinations(Apply(w, ops[0]).0, ops[1..], id)
  }

  lemma {:induction false} MeetsProject<T>(s: seq<Keyed<T>>, cur: nat, k: nat, id: T)
    ensures Meets(Project(s, cur, k), id) == |Project(Filter(s, IsId(id)), cur, k)|
  {
    if s != [] {
      MeetsProject(s[1..], cur, k, id);
      ProjectCons(s[0], Filter(s[1..], IsId(id)), cur, k);
      var p, x := Project(s[1..], cur, k), Entry(s[0].id, s[0].key / SLOTS);
      assert ([x] + p)[1..] == p;
    }
  }

  /** A live timer is in exactly one slot list, exactly once: the slot the cursor reaches in as many
      ticks as the timer waits. */
  lemma InOneSlotOnce<T>(w: Wheel<T>, s: seq<Keyed<T>>, id: T, r: nat, k: nat)
    requires Represents(w, s) && Waits(s, id, r) && k < SLOTS
    ensures Meets(w.slots[k], id) == if k == (w.cur + r) % 600 then 1 else 0
  {
    MeetsProject(s, w.cur, k, id);
    ProjectCons(Keyed(id, r as int), [], w.cur, k);
    assert [Keyed(id, r as int)] + [] == [Keyed(id, r as int)];
  }

  lemma InNoSlot<T>(w: Wheel<T>, s: seq<Keyed<T>>, id: T, k: nat)
    requires Represents(w, s) && Absent(s, id) && k < SLOTS
    ensures Meets(w.slots[k], id) == 0
  {
    MeetsProject(s, w.cur, k, id);
  }

  lemma {:induction false} AbsentIsNotExamined<T>(w: Wheel<T>, s: seq<Keyed<T>>, ops: seq<Op<T>>, id: T)
    requires Represents(w, s) && Absent(s, id) && AllLeaveAlone(ops, id)
    ensures Examinations(w, ops, id) == 0
    decreases ops
  {
    if ops != [] {
      InNoSlot(w, s, id, w.cur);
      ApplyRefines(w, s, ops[0]);
      OpOnAbsent(s, ops[0], id);
      AbsentIsNotExamined(Apply(w, ops[0]).0, CountdownApply(s, ops[0]).0, ops[1..], id);
    }
  }

  /** The slot of a timer is under the cursor exactly when its wait is a whole number of turns. */
  lemma UnderCursor(cur: nat, r: nat)
    requires cur < SLOTS
    ensures (cur + r) % SLOTS == cur <==> r % SLOTS == 0
    ensures r > 0 ==> r / SLOTS == (r - 1) / SLOTS + (if r % SLOTS == 0 then 1 else 0)
  {
    if r > 0 {
      OneTickLater(cur, r);
    }
    var q, m := r / SLOTS, r % SLOTS;
    var wrap := if cur + m < SLOTS then 0 else 1;
    DivMod(cur + r, q + wrap, cur + m - SLOTS * wrap);
  }

  /** One tick: a wait r counts for r / SLOTS + 1 examinations, one tick less of it for one less
      exactly if this tick examines the timer. */
  lemma ExaminedInTick<T>(w: Wheel<T>, s: seq<Keyed<T>>, id: T, r: nat)
    requires Represents(w, s) && Waits(s, id, r)
    ensures r > 0 ==> r / SLOTS == (r - 1) / SLOTS + Meets(w.slots[w.cur], id)
    ensures r == 0 ==> Meets(w.slots[w.cur], id) == 1
  {
    InOneSlotOnce(w, s, id, r, w.cur);
    UnderCursor(w.cur, r);
  }

  /** By the time it has fired, an undisturbed timer has been examined once per turn it had to wait,
      plus the time it fired. */
  lemma {:induction false} ExaminedOncePerTurn<T>(w: Wheel<T>, s: seq<Keyed<T>>, ops: seq<Op<T>>, id: T, r: nat)
    requires Represents(w, s) && Waits(s, id, r) && AllLeaveAlone(ops, id) && Ticks(ops) > r
    ensures Examinations(w, ops, id) == r / 600 + 1
    decreases ops
  {
    var w1, s1 := Apply(w, ops[0]).0, CountdownApply(s, ops[0]).0;
    ApplyRefines(w, s, ops[0]);
    if ops[0].Tock? {
      ExaminedInTick(w, s, id, r);
      TickOnWaiting(s, id, r);
      if r > 0 {
        ExaminedOncePerTurn(w1, s1, ops[1..], id, r - 1);
      } else {
        AbsentIsNotExamined(w1, s1, ops[1..], id);
      }
    } else {
      OtherOpKeeps(s, ops[0], id);
      ExaminedOncePerTurn(w1, s1, ops[1..], id, r);
    }
  }

  /** The same, from the operation that sets the timer. */
  lemma ExaminedExactly<T>(w: Wheel<T>, s: seq<Keyed<T>>, op: Op<T>, ops: seq<Op<T>>, id: T, timeout: int)
    requires Represents(w, s) && Sets(s, op, id, timeout) && AllLeaveAlone(ops, id)
    requires Ticks(ops) > TicksOf(timeout)
    ensures Examinations(Apply(w, op).0, ops, id) == TicksOf(timeout) / 600 + 1
  {
    ApplyRefines(w, s, op);
    SetTimerWaits(s, op, id, timeout);
    ExaminedOncePerTurn(Apply(w, op).0, CountdownApply(s, op).0, ops, id, TicksOf(timeout));
  }

  // ---------- conservation ----------

  /** How many live timers have the handle id. */
  function Copies<T(==)>(s: seq<Keyed<T>>, id: T): nat {
    |Filter(s, IsId(id))|
  }

  /** New handles are not live, deleted and reset ones are. */
  predicate Legal<T(==)>(s: seq<Keyed<T>>, op: Op<T>) {
    match op
    case Add(id, _) => Copies(s, id) == 0
    case Delete(id) => Copies(s, id) == 1
    case Reset(id, _) => Copies(s, id) == 1
    case Tock => true
  }

  ghost predicate LegalRun<T>(s: seq<Keyed<T>>, ops: seq<Op<T>>)
    decreases ops
  {
    ops == [] || (Legal(s, ops[0]) && LegalRun(CountdownApply(s, ops[0]).0, ops[1..]))
  }

  function TimesAdded<T(==)>(ops: seq<Op<T>>, id: T): nat {
    if ops == [] then 0 else (if ops[0].Add? && ops[0].id == id then 1 else 0) + TimesAdded(ops[1..], id)
  }

  function TimesDeleted<T(==)>(ops: seq<Op<T>>, id: T): nat {
    if ops == [] then 0 else (if ops[0].Delete? && ops[0].id == id then 1 else 0) + TimesDeleted(ops[1..], id)
  }

  function TimesFired<T(==)>(trace: seq<seq<T>>, id: T): nat {
    if trace == [] then 0 else multiset(trace[0])[id] + TimesFired(trace[1..], id)
  }

  lemma {:induction false} SplitAt<T>(s: seq<Keyed<T>>, now: int)
    ensures |s| == |Filter(s, DueBy(now))| + |Filter(s, After(now))|
  {
    if s != [] {
      SplitAt(s[1..], now);
    }
  }

  lemma TickConserves<T>(s: seq<Keyed<T>>, id: T)
    ensures var (s1, fired) := CountdownApply(s, Tock);
      Copies(s, id) == Copies(s1, id) + multiset(fired)[id]
  {
    SplitAt(Filter(s, IsId(id)), 0);
    FilterCommutes(s, IsId(id), After(0));
    FilterCommutes(s, IsId(id), DueBy(0));
    LowerKeepsIds(Filter(s, After(0)), id);
    CountIds(Filter(s, DueBy(0)), id);
  }

  lemma OpConserves<T>(s: seq<Keyed<T>>, op: Op<T>, id: T)
    requires Legal(s, op)
    ensures var (s1, fired) := CountdownApply(s, op);
      Copies(s, id) + (if op.Add? && op.id == id then 1 else 0) ==
      Copies(s1, id) + multiset(fired)[id] + (if op.Delete? && op.id == id then 1 else 0)
  {
    if op.Tock? {
      TickConserves(s, id);
    } else if op.id != id {
      OtherOpKeeps(s, op, id);
    } else {
      var rest := Filter(s, NotId(id));
      FilterMembers(s, NotId(id));
      FilterNone(rest, IsId(id));
      if op.Add? {
        FilterSnoc(s, Keyed(id := id, key := TicksOf(op.timeout)), IsId(id));
      } else if op.Reset? {
        FilterSnoc(rest, Keyed(id := id, key := TicksOf(op.timeout)), IsId(id));
      }
    }
  }

  /** Over every legal run and for every handle: what was live or is created is, at the end, live or
      fired or deleted, as often as it was created. */
  lemma {:induction false} RunConserves<T>(s: seq<Keyed<T>>, ops: seq<Op<T>>, id: T)
    requires LegalRun(s, ops)
    ensures var (s2, trace) := CountdownRun(s, ops);
      Copies(s, id) + TimesAdded(ops, id) == Copies(s2, id) + TimesFired(trace, id) + TimesDeleted(ops, id)
    decreases ops
  {
    if ops != [] {
      OpConserves(s, ops[0], id);
      var (s1, fired) := CountdownApply(s, ops[0]);
      RunConserves(s1, ops[1..], id);
      FiredCons(fired, CountdownRun(s1, ops[1..]).1, id);
    }
  }

  lemma FiredCons<T>(x: seq<T>, trace: seq<seq<T>>, id: T)
    ensures TimesFired([x] + trace, id) == multiset(x)[id] + TimesFired(trace, id)
  {
    assert ([x] + trace)[1..] == trace;
  }

  /** On the wheel itself: a timer created once is exactly one of live, fired once and deleted. */
  lemma WheelConserves<T>(ops: seq<Op<T>>, id: T)
    requires LegalRun([], ops) && TimesAdded(ops, id) == 1
    ensures Copies(CountdownRun([], ops).0, id) + TimesFired(Run(Empty<T>(), ops).1, id) + TimesDeleted(ops, id) == 1
  {
    ReachableRepresents(ops);
    RunConserves([], ops, id);
    assert Copies([], id) == 0;
  }

  // ---------- real time ----------

  /** Ticks come every 100 ms, the n-th at 100n ms. A timer set at instant `at`, between the done-th and
      the next tick, fires less than 100 ms early and at most 100 ms late; a timeout below one slot
      fires after more than 100 and at most 200 ms. */
  lemma FiringInstant<T>(w: Wheel<T>, s: seq<Keyed<T>>, op: Op<T>, ops: seq<Op<T>>, id: T, timeout: int,
                         done: nat, at: real, i: nat)
    requires Represents(w, s) && Sets(s, op, id, timeout) && AllLeaveAlone(ops, id)
    requires 100.0 * done as real <= at < 100.0 * (done + 1) as real
    requires i < |ops| && id in Run(Apply(w, op).0, ops).1[i]
    ensures ops[i].Tock?
    ensures var elapsed := 100.0 * (done + Ticks(ops[..i]) + 1) as real - at;
      && (timeout >= 100 ==> -100.0 < elapsed - timeout as real <= 100.0)
      && (timeout < 100 ==> 100.0 < elapsed <= 200.0)
  {
    FiresExactlyOnTime(w, s, op, ops, id, timeout);
    assert multiset(Run(Apply(w, op).0, ops).1[i])[id] > 0;
  }
}
