/** The timing wheel, a stable priority queue on deadlines and the sorted timer list fire the same
    timers in the same order. */
module TimerAgreement {
  import opened StableQueue
  import opened WheelModel
  import opened WheelRuns

  // ---------- the stable priority queue ----------

  // done is the number of ticks so far. A timer set with t ticks gets the deadline done + t; the tick
  // numbered n = done fires the timers whose deadline is at most n.

  function QueueApply<T(==)>(q: seq<Keyed<T>>, done: nat, op: Op<T>): (seq<Keyed<T>>, nat, seq<T>) {
    match op
    case Add(id, timeout) => (Insert(q, Keyed(id, done + TicksOf(timeout))), done, [])
    case Delete(id) => (Filter(q, NotId(id)), done, [])
    case Reset(id, timeout) => (Insert(Filter(q, NotId(id)), Keyed(id, done + TicksOf(timeout))), done, [])
    case Tock =>
      var n := DueLength(q, done);
      (q[n..], done + 1, Ids(q[..n]))
  }

  function QueueRun<T(==)>(q: seq<Keyed<T>>, done: nat, ops: seq<Op<T>>): seq<seq<T>>
    decreases ops
  {
    if ops == [] then []
    else
      var (q1, done1, fired) := QueueApply(q, done, ops[0]);
      [fired] + QueueRun(q1, done1, ops[1..])
  }

  function Raise<T>(s: seq<Keyed<T>>, d: int): seq<Keyed<T>> {
    seq(|s|, i requires 0 <= i < |s| => Keyed(s[i].id, s[i].key + d))
  }

  function RaiseCut<T>(c: Cut<T>, d: int): Cut<T> {
    match c
    case NotId(id) => c
    case IsId(id) => c
    case DueBy(now) => DueBy(now + d)
    case After(now) => After(now + d)
    case AtKey(key) => AtKey(key + d)
  }

  lemma {:induction false} RaiseCons<T>(x: Keyed<T>, s: seq<Keyed<T>>, d: int)
    ensures Raise([x] + s, d) == [Keyed(x.id, x.key + d)] + Raise(s, d)
  {
  }

  lemma {:induction false} FilterRaise<T>(s: seq<Keyed<T>>, c: Cut<T>, d: int)
    ensures Filter(Raise(s, d), RaiseCut(c, d)) == Raise(Filter(s, c), d)
  {
    if s != [] {
      FilterRaise(s[1..], c, d);
      assert s == [s[0]] + s[1..];
      RaiseCons(s[0], s[1..], d);
      RaiseCons(s[0], Filter(s[1..], c), d);
      FilterCons(Keyed(s[0].id, s[0].key + d), Raise(s[1..], d), RaiseCut(c, d));
    }
  }

  lemma {:induction false} RaiseSnoc<T>(s: seq<Keyed<T>>, x: Keyed<T>, d: int)
    ensures Raise(s + [x], d) == Raise(s, d) + [Keyed(x.id, x.key + d)]
  {
  }

  lemma {:induction false} SortRaiseSnoc<T>(s: seq<Keyed<T>>, x: Keyed<T>, d: int)
    ensures StableSort(Raise(s + [x], d)) == Insert(StableSort(Raise(s, d)), Keyed(x.id, x.key + d))
  {
    RaiseSnoc(s, x, d);
    SortSnoc(Raise(s, d), Keyed(x.id, x.key + d));
  }

  lemma {:induction false} RaiseLower<T>(s: seq<Keyed<T>>, d: int)
    ensures Raise(Lower(s), d + 1) == Raise(s, d)
  {
  }

  /** The queue that belongs to a countdown: its timers by deadline, equal deadlines in the order in
      which they were last set. */
  ghost predicate Orders<T>(q: seq<Keyed<T>>, s: seq<Keyed<T>>, done: nat) {
    NonNegative(s) && q == StableSort(Raise(s, done))
  }

  lemma {:induction false} AddOrders<T>(q: seq<Keyed<T>>, s: seq<Keyed<T>>, done: nat, id: T, t: nat)
    requires Orders(q, s, done)
    ensures Orders(Insert(q, Keyed(id, done + t)), s + [Keyed(id, t)], done)
  {
    SortRaiseSnoc(s, Keyed(id, t), done);
  }

  lemma {:induction false} RemoveOrders<T>(q: seq<Keyed<T>>, s: seq<Keyed<T>>, done: nat, id: T)
    requires Orders(q, s, done)
    ensures Orders(Filter(q, NotId(id)), Filter(s, NotId(id)), done)
  {
    FilterSort(Raise(s, done), NotId(id));
    FilterRaise(s, NotId(id), done);
    FilterMembers(s, NotId(id));
  }

  lemma {:induction false} TickOrders<T>(q: seq<Keyed<T>>, s: seq<Keyed<T>>, done: nat)
    requires Orders(q, s, done)
    ensures Orders(q[DueLength(q, done)..], Lower(Filter(s, After(0))), done + 1)
  {
    SortSorted(Raise(s, done));
    DuePrefixIsAllDue(q, done);
    FilterSort(Raise(s, done), After(done));
    FilterRaise(s, After(0), done);
    FilterMembers(s, After(0));
    RaiseLower(Filter(s, After(0)), done);
  }

  /** Timers that are due now all have the same deadline, so sorting leaves them in order. */
  lemma {:induction false} DueNowInOrder<T>(s: seq<Keyed<T>>, done: nat)
    requires NonNegative(s)
    ensures StableSort(Raise(Filter(s, DueBy(0)), done)) == Raise(Filter(s, DueBy(0)), done)
  {
    var f := Filter(s, DueBy(0));
    FilterMembers(s, DueBy(0));
    forall i | 0 <= i < |f| ensures f[i].key == 0 {
      assert f[i] in s;
    }
    SortOfSorted(Raise(f, done));
  }

  lemma {:induction false} RaiseKeepsIds<T>(s: seq<Keyed<T>>, d: int)
    ensures Ids(Raise(s, d)) == Ids(s)
  {
  }

  lemma {:induction false} TickFiresAlike<T>(q: seq<Keyed<T>>, s: seq<Keyed<T>>, done: nat)
    requires Orders(q, s, done)
    ensures Ids(q[..DueLength(q, done)]) == Ids(Filter(s, DueBy(0)))
  {
    SortSorted(Raise(s, done));
    DuePrefixIsAllDue(q, done);
    FilterSort(Raise(s, done), DueBy(done));
    FilterRaise(s, DueBy(0), done);
    DueNowInOrder(s, done);
    RaiseKeepsIds(Filter(s, DueBy(0)), done);
  }

  lemma {:induction false} ResetOrders<T>(q: seq<Keyed<T>>, s: seq<Keyed<T>>, done: nat, id: T, t: nat)
    requires Orders(q, s, done)
    ensures Orders(Insert(Filter(q, NotId(id)), Keyed(id, done + t)), Filter(s, NotId(id)) + [Keyed(id, t)], done)
  {
    RemoveOrders(q, s, done, id);
    AddOrders(Filter(q, NotId(id)), Filter(s, NotId(id)), done, id, t);
  }

  lemma {:induction false} QueueStep<T>(q: seq<Keyed<T>>, s: seq<Keyed<T>>, done: nat, op: Op<T>)
    requires Orders(q, s, done)
    ensures Orders(QueueApply(q, done, op).0, CountdownApply(s, op).0, QueueApply(q, done, op).1)
    ensures QueueApply(q, done, op).2 == CountdownApply(s, op).1
  {
    if op.Add? {
      AddOrders(q, s, done, op.id, TicksOf(op.timeout));
    } else if op.Delete? {
      RemoveOrders(q, s, done, op.id);
    } else if op.Reset? {
      ResetOrders(q, s, done, op.id, TicksOf(op.timeout));
    } else {
      TickOrders(q, s, done);
      TickFiresAlike(q, s, done);
    }
  }

  lemma {:induction false} QueueRunsAlike<T>(q: seq<Keyed<T>>, s: seq<Keyed<T>>, done: nat, ops: seq<Op<T>>)
    requires Orders(q, s, done)
    ensures QueueRun(q, done, ops) == CountdownRun(s, ops).1
    decreases ops
  {
    if ops != [] {
      QueueStep(q, s, done, ops[0]);
      var (q1, done1, fired) := QueueApply(q, done, ops[0]);
      QueueRunsAlike(q1, CountdownApply(s, ops[0]).0, done1, ops[1..]);
    }
  }

  /** Over every run of adds, deletes, resets and ticks, the wheel's callbacks are those of the stable
      priority queue: by deadline, equal deadlines in the order of their last add or reset. */
  lemma {:induction false} WheelIsStableQueue<T>(ops: seq<Op<T>>)
    ensures Run(Empty<T>(), ops).1 == QueueRun([], 0, ops)
  {
    ReachableRepresents(ops);
    QueueRunsAlike([], [], 0, ops);
  }

  // ---------- the sorted timer list ----------

  /** The operations of the sorted list; a reset changes the key in place and adjusts. */
  function ListApply<T(==)>(q: seq<Keyed<T>>, done: nat, op: Op<T>): (seq<Keyed<T>>, nat, seq<T>) {
    if op.Reset? then
      var k := IndexOf(q, op.id);
      if k == |q| then (q, done, [])
      else (Adjust(q[k := Keyed(op.id, done + TicksOf(op.timeout))], k), done, [])
    else QueueApply(q, done, op)
  }

  function ListRun<T(==)>(q: seq<Keyed<T>>, done: nat, ops: seq<Op<T>>): seq<seq<T>>
    decreases ops
  {
    if ops == [] then []
    else
      var (q1, done1, fired) := ListApply(q, done, ops[0]);
      [fired] + ListRun(q1, done1, ops[1..])
  }

  /** A reset does not bring the deadline forward. */
  ghost predicate Extends<T>(s: seq<Keyed<T>>, op: Op<T>) {
    op.Reset? ==> forall r :: Waits(s, op.id, r) ==> r <= TicksOf(op.timeout)
  }

  ghost predicate ExtendingRun<T>(s: seq<Keyed<T>>, ops: seq<Op<T>>)
    decreases ops
  {
    ops == [] || (Legal(s, ops[0]) && Extends(s, ops[0]) && ExtendingRun(CountdownApply(s, ops[0]).0, ops[1..]))
  }

  /** A timer that is there once: what it is, and what is left without it. */
  lemma {:induction false} RemoveOnly<T>(q: seq<Keyed<T>>, id: T)
    requires Copies(q, id) == 1
    ensures var k := IndexOf(q, id);
      k < |q| && Filter(q, IsId(id)) == [q[k]] && Filter(q, NotId(id)) == q[..k] + q[k + 1..]
  {
    if q[0].id == id {
      NoCopies(q[1..], id);
    } else {
      RemoveOnly(q[1..], id);
      var k := IndexOf(q[1..], id);
      assert q[..k + 1] == [q[0]] + q[1..][..k];
    }
  }

  lemma {:induction false} NoCopies<T>(q: seq<Keyed<T>>, id: T)
    requires Filter(q, IsId(id)) == []
    ensures forall i :: 0 <= i < |q| ==> q[i].id != id
    ensures Filter(q, NotId(id)) == q
  {
    FilterMembers(q, IsId(id));
    forall i | 0 <= i < |q| ensures q[i].id != id {
      assert q[i] in q;
    }
    FilterAll(q, NotId(id));
  }

  lemma {:induction false} CopiesAlike<T>(q: seq<Keyed<T>>, s: seq<Keyed<T>>, done: nat, id: T)
    requires Orders(q, s, done)
    ensures Copies(q, id) == Copies(s, id)
    ensures forall r :: Waits(s, id, r) ==> Filter(q, IsId(id)) == [Keyed(id, done + r)]
  {
    FilterSort(Raise(s, done), IsId(id));
    FilterRaise(s, IsId(id), done);
    var f := Raise(Filter(s, IsId(id)), done);
    SortSorted(f);
    assert multiset(StableSort(f)) == multiset(f);
    assert |StableSort(f)| == |multiset(StableSort(f))| == |f|;
    if |f| == 1 {
      assert Sorted(f);
      SortOfSorted(f);
    }
  }

  /** Changing the key of a listed timer to a later one and adjusting is removal and stable insertion. */
  lemma {:induction false} AdjustIsReset<T>(q: seq<Keyed<T>>, y: Keyed<T>)
    requires Sorted(q) && Copies(q, y.id) == 1
    requires var k := IndexOf(q, y.id); k < |q| && q[k].key <= y.key
    ensures var k := IndexOf(q, y.id);
      Adjust(q[k := y], k) == Insert(Filter(q, NotId(y.id)), y)
  {
    RemoveOnly(q, y.id);
    FilterSorted(q, NotId(y.id));
    var k := IndexOf(q, y.id);
    var c := q[k := y];
    assert c[..k] == q[..k] && c[k + 1..] == q[k + 1..];
    AdjustIsReinsertion(c, k);
  }

  /** Where a live timer is in the queue, and that an extension does not lower its key. */
  lemma {:induction false} ExtendsInQueue<T>(q: seq<Keyed<T>>, s: seq<Keyed<T>>, done: nat, op: Op<T>)
    requires Orders(q, s, done) && op.Reset? && Legal(s, op) && Extends(s, op)
    ensures Copies(q, op.id) == 1
    ensures var k := IndexOf(q, op.id); k < |q| && q[k].key <= done + TicksOf(op.timeout)
  {
    CopiesAlike(q, s, done, op.id);
    RemoveOnly(q, op.id);
    var x: Keyed<T> := Filter(s, IsId(op.id))[0];
    FilterMembers(s, IsId(op.id));
    assert Waits(s, op.id, x.key);
  }

  lemma {:induction false} ResetInList<T>(q: seq<Keyed<T>>, done: nat, op: Op<T>)
    requires op.Reset? && Sorted(q) && Copies(q, op.id) == 1
    requires var k := IndexOf(q, op.id); k < |q| && q[k].key <= done + TicksOf(op.timeout)
    ensures ListApply(q, done, op) == QueueApply(q, done, op)
  {
    AdjustIsReset(q, Keyed(op.id, done + TicksOf(op.timeout)));
  }

  lemma {:induction false} ListStep<T>(q: seq<Keyed<T>>, s: seq<Keyed<T>>, done: nat, op: Op<T>)
    requires Orders(q, s, done) && Legal(s, op) && Extends(s, op)
    ensures ListApply(q, done, op) == QueueApply(q, done, op)
  {
    if op.Reset? {
      ExtendsInQueue(q, s, done, op);
      SortSorted(Raise(s, done));
      assert Sorted(q);
      ResetInList(q, done, op);
    }
  }

  lemma {:induction false} ListRunsAlike<T>(q: seq<Keyed<T>>, s: seq<Keyed<T>>, done: nat, ops: seq<Op<T>>)
    requires Orders(q, s, done) && ExtendingRun(s, ops)
    ensures ListRun(q, done, ops) == CountdownRun(s, ops).1
    decreases ops
  {
    if ops != [] {
      ListStep(q, s, done, ops[0]);
      QueueStep(q, s, done, ops[0]);
      var (q1, done1, fired) := QueueApply(q, done, ops[0]);
      ListRunsAlike(q1, CountdownApply(s, ops[0]).0, done1, ops[1..]);
    }
  }

  /** Driven by the same adds, deletes and deadline-extending resets, the wheel and the sorted list fire
      the same timers in the same order on every tick. */
  lemma {:induction false} WheelAgreesWithList<T>(ops: seq<Op<T>>)
    requires ExtendingRun([], ops)
    ensures Run(Empty<T>(), ops).1 == ListRun([], 0, ops)
  {
    ReachableRepresents(ops);
    ListRunsAlike([], [], 0, ops);
  }
}
