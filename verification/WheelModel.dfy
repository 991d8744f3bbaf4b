/** The hashed timing wheel (timer/time_wheel_timer.hpp) on values, the naive countdown it stands for,
    and the proof that the first refines the second over every run. */
module WheelModel {
  import opened StableQueue

  const SLOTS: nat := 600
  const SLOT_INTERVAL: nat := 100

  datatype Entry<T> = Entry(id: T, rotation: int)
  datatype Wheel<T> = Wheel(slots: seq<seq<Entry<T>>>, cur: nat)

  ghost predicate Shape<T>(w: Wheel<T>) {
    |w.slots| == SLOTS && w.cur < SLOTS
  }

  /** Ticks a timeout in milliseconds is rounded to. */
  function TicksOf(timeout: int): (t: nat)
    ensures timeout < 100 ==> t == 1
    ensures timeout >= 100 ==> t >= 1 && t * 100 <= timeout < (t + 1) * 100
  {
    if timeout < SLOT_INTERVAL then 1 else timeout / SLOT_INTERVAL
  }

  function Empty<T>(): Wheel<T> {
    Wheel(seq(SLOTS, _ => []), 1)
  }

  function SlotFor(cur: nat, ticks: nat): nat {
    (cur + ticks % SLOTS) % SLOTS
  }

  function PushBack<T>(w: Wheel<T>, id: T, ticks: nat): Wheel<T>
    requires Shape(w)
  {
    var ts := SlotFor(w.cur, ticks);
    w.(slots := w.slots[ts := w.slots[ts] + [Entry(id, ticks / SLOTS)]])
  }

  /** A slot list without the entries of a timer. */
  function Dropped<T(==)>(l: seq<Entry<T>>, id: T): seq<Entry<T>> {
    if l == [] then []
    else if l[0].id == id then Dropped(l[1..], id)
    else [l[0]] + Dropped(l[1..], id)
  }

  function Remove<T(==)>(w: Wheel<T>, id: T): Wheel<T> {
    w.(slots := seq(|w.slots|, i requires 0 <= i < |w.slots| => Dropped(w.slots[i], id)))
  }

  datatype Swept<T> = Swept(fired: seq<T>, kept: seq<Entry<T>>)

  /** One pass over a slot list that advances by one node at a time. */
  function Sweep<T>(l: seq<Entry<T>>): Swept<T> {
    if l == [] then Swept([], [])
    else
      var r := Sweep(l[1..]);
      if l[0].rotation > 0 then r.(kept := [Entry(l[0].id, l[0].rotation - 1)] + r.kept)
      else r.(fired := [l[0].id] + r.fired)
  }

  function NextSlot(cur: nat): nat {
    (cur + 1) % SLOTS
  }

  function Tick<T>(w: Wheel<T>): (Wheel<T>, seq<T>)
    requires Shape(w)
  {
    var r := Sweep(w.slots[w.cur]);
    (Wheel(w.slots[w.cur := r.kept], NextSlot(w.cur)), r.fired)
  }

  // ---------- runs ----------

  datatype Op<T> = Add(id: T, timeout: int) | Delete(id: T) | Reset(id: T, timeout: int) | Tock

  function Apply<T(==)>(w: Wheel<T>, op: Op<T>): (r: (Wheel<T>, seq<T>))
    requires Shape(w)
    ensures Shape(r.0)
  {
    match op
    case Add(id, timeout) => (PushBack(w, id, TicksOf(timeout)), [])
    case Delete(id) => (Remove(w, id), [])
    case Reset(id, timeout) => (PushBack(Remove(w, id), id, TicksOf(timeout)), [])
    case Tock => Tick(w)
  }

  /** What each operation of a run fires. */
  function Run<T(==)>(w: Wheel<T>, ops: seq<Op<T>>): (r: (Wheel<T>, seq<seq<T>>))
    requires Shape(w)
    ensures Shape(r.0) && |r.1| == |ops|
    decreases ops
  {
    if ops == [] then (w, [])
    else
      var (w1, fired) := Apply(w, ops[0]);
      var (w2, rest) := Run(w1, ops[1..]);
      (w2, [fired] + rest)
  }

  // ---------- the naive countdown ----------

  // All live timers in the order in which they were last set, each with the ticks it still waits;
  // a tick fires those at zero and lowers every other one.

  function Lower<T>(s: seq<Keyed<T>>): seq<Keyed<T>> {
    seq(|s|, i requires 0 <= i < |s| => Keyed(s[i].id, s[i].key - 1))
  }

  function CountdownApply<T(==)>(s: seq<Keyed<T>>, op: Op<T>): (seq<Keyed<T>>, seq<T>) {
    match op
    case Add(id, timeout) => (s + [Keyed(id, TicksOf(timeout))], [])
    case Delete(id) => (Filter(s, NotId(id)), [])
    case Reset(id, timeout) => (Filter(s, NotId(id)) + [Keyed(id, TicksOf(timeout))], [])
    case Tock => (Lower(Filter(s, After(0))), Ids(Filter(s, DueBy(0))))
  }

  function CountdownRun<T(==)>(s: seq<Keyed<T>>, ops: seq<Op<T>>): (r: (seq<Keyed<T>>, seq<seq<T>>))
    ensures |r.1| == |ops|
    decreases ops
  {
    if ops == [] then (s, [])
    else
      var (s1, fired) := CountdownApply(s, ops[0]);
      var (s2, rest) := CountdownRun(s1, ops[1..]);
      (s2, [fired] + rest)
  }

  // ---------- refinement ----------

  /** What slot k must hold when the live timers are s and the cursor is at cur. */
  function Project<T>(s: seq<Keyed<T>>, cur: nat, k: nat): seq<Entry<T>> {
    if s == [] then []
    else if (cur + s[0].key) % SLOTS == k then [Entry(s[0].id, s[0].key / SLOTS)] + Project(s[1..], cur, k)
    else Project(s[1..], cur, k)
  }

  ghost predicate NonNegative<T>(s: seq<Keyed<T>>) {
    forall i :: 0 <= i < |s| ==> s[i].key >= 0
  }

  ghost predicate Represents<T>(w: Wheel<T>, s: seq<Keyed<T>>) {
    && Shape(w)
    && NonNegative(s)
    && forall k :: 0 <= k < SLOTS ==> w.slots[k] == Project(s, w.cur, k)
  }

  lemma {:induction false} ProjectConcat<T>(a: seq<Keyed<T>>, b: seq<Keyed<T>>, cur: nat, k: nat)
    ensures Project(a + b, cur, k) == Project(a, cur, k) + Project(b, cur, k)
  {
    if a == [] {
      assert a + b == b;
    } else {
      ProjectConcat(a[1..], b, cur, k);
      assert (a + b)[0] == a[0] && (a + b)[1..] == a[1..] + b;
      if (cur + a[0].key) % SLOTS == k {
        var e := Entry(a[0].id, a[0].key / SLOTS);
        assert Project(a + b, cur, k) == [e] + (Project(a[1..], cur, k) + Project(b, cur, k));
      }
    }
  }

  lemma {:induction false} ProjectDropped<T>(s: seq<Keyed<T>>, cur: nat, k: nat, id: T)
    ensures Project(Filter(s, NotId(id)), cur, k) == Dropped(Project(s, cur, k), id)
  {
    if s != [] {
      ProjectDropped(s[1..], cur, k, id);
      ProjectCons(s[0], s[1..], cur, k);
      ProjectCons(s[0], Filter(s[1..], NotId(id)), cur, k);
      DroppedCons(Entry(s[0].id, s[0].key / SLOTS), Project(s[1..], cur, k), id);
    }
  }

  lemma ProjectCons<T>(x: Keyed<T>, s: seq<Keyed<T>>, cur: nat, k: nat)
    ensures Project([x] + s, cur, k) ==
      if (cur + x.key) % SLOTS == k then [Entry(x.id, x.key / SLOTS)] + Project(s, cur, k) else Project(s, cur, k)
  {
    assert ([x] + s)[1..] == s;
  }

  lemma DroppedCons<T>(x: Entry<T>, l: seq<Entry<T>>, id: T)
    ensures Dropped([x] + l, id) == if x.id == id then Dropped(l, id) else [x] + Dropped(l, id)
  {
    assert ([x] + l)[1..] == l;
  }

  lemma DivMod(x: int, q: int, r: int)
    requires x == SLOTS * q + r && 0 <= r < SLOTS
    ensures x / SLOTS == q && x % SLOTS == r
  {
  }

  /** One tick later: the slot of a timer is the same, its rotation drops only in the slot just swept. */
  lemma OneTickLater(cur: nat, key: int)
    requires cur < SLOTS && key >= 1
    ensures (NextSlot(cur) + (key - 1)) % SLOTS == (cur + key) % SLOTS
    ensures (cur + key) % SLOTS == cur ==> key >= SLOTS && (key - 1) / SLOTS == key / SLOTS - 1
    ensures (cur + key) % SLOTS != cur ==> (key - 1) / SLOTS == key / SLOTS
  {
    var q, m := key / SLOTS, key % SLOTS;
    var wrap := if cur + m < SLOTS then 0 else 1;
    DivMod(cur + key, q + wrap, cur + m - SLOTS * wrap);
    if cur == SLOTS - 1 {
      DivMod(NextSlot(cur) + (key - 1), q + wrap - 1, cur + m - SLOTS * wrap);
    } else {
      DivMod(NextSlot(cur) + (key - 1), q + wrap, cur + m - SLOTS * wrap);
    }
    if m == 0 {
      DivMod(key - 1, q - 1, SLOTS - 1);
    } else {
      DivMod(key - 1, q, m - 1);
    }
  }

  /** OneTickLater for the first timer of a sequence, outside the slot under the cursor ... */
  lemma OtherSlotCons<T>(x: Keyed<T>, a: seq<Keyed<T>>, b: seq<Keyed<T>>, cur: nat, k: nat)
    requires cur < SLOTS && k != cur && x.key > 0
    requires Project(a, NextSlot(cur), k) == Project(b, cur, k)
    ensures Project([Keyed(x.id, x.key - 1)] + a, NextSlot(cur), k) == Project([x] + b, cur, k)
  {
    OneTickLater(cur, x.key);
    ProjectCons(Keyed(x.id, x.key - 1), a, NextSlot(cur), k);
    ProjectCons(x, b, cur, k);
  }

  /** ... and in it. */
  lemma CursorSlotCons<T>(x: Keyed<T>, a: seq<Keyed<T>>, b: seq<Keyed<T>>, cur: nat)
    requires cur < SLOTS && x.key > 0
    requires Project(a, NextSlot(cur), cur) == Sweep(Project(b, cur, cur)).kept
    ensures var r := Sweep(Project([x] + b, cur, cur));
      && r.fired == Sweep(Project(b, cur, cur)).fired
      && r.kept == Project([Keyed(x.id, x.key - 1)] + a, NextSlot(cur), cur)
  {
    OneTickLater(cur, x.key);
    ProjectCons(Keyed(x.id, x.key - 1), a, NextSlot(cur), cur);
    ProjectCons(x, b, cur, cur);
    SweepCons(Entry(x.id, x.key / SLOTS), Project(b, cur, cur));
  }

  /** A timer at zero is in the slot under the cursor, with rotation 0. */
  lemma DueCons<T>(x: Keyed<T>, b: seq<Keyed<T>>, cur: nat)
    requires cur < SLOTS && x.key == 0
    ensures forall k :: k != cur ==> Project([x] + b, cur, k) == Project(b, cur, k)
    ensures var r := Sweep(Project([x] + b, cur, cur));
      && r.fired == [x.id] + Sweep(Project(b, cur, cur)).fired
      && r.kept == Sweep(Project(b, cur, cur)).kept
  {
    forall k ensures k != cur ==> Project([x] + b, cur, k) == Project(b, cur, k) {
      ProjectCons(x, b, cur, k);
    }
    ProjectCons(x, b, cur, cur);
    SweepCons(Entry(x.id, 0), Project(b, cur, cur));
  }

  /** The countdown's tick leaves every slot but the cursor's as it is ... */
  lemma {:induction false} TickOtherSlot<T>(s: seq<Keyed<T>>, cur: nat, k: nat)
    requires NonNegative(s) && cur < SLOTS && k != cur
    ensures Project(Lower(Filter(s, After(0))), NextSlot(cur), k) == Project(s, cur, k)
  {
    if s != [] {
      var t := s[1..];
      TickOtherSlot(t, cur, k);
      assert s == [s[0]] + t;
      if s[0].key > 0 {
        LowerCons(s[0], Filter(t, After(0)));
        OtherSlotCons(s[0], Lower(Filter(t, After(0))), t, cur, k);
      } else {
        DueCons(s[0], t, cur);
      }
    }
  }

  /** ... and there does what the sweep does. */
  lemma {:induction false} TickCursorSlot<T>(s: seq<Keyed<T>>, cur: nat)
    requires NonNegative(s) && cur < SLOTS
    ensures var r := Sweep(Project(s, cur, cur));
      && r.fired == Ids(Filter(s, DueBy(0)))
      && r.kept == Project(Lower(Filter(s, After(0))), NextSlot(cur), cur)
  {
    if s != [] {
      var t := s[1..];
      TickCursorSlot(t, cur);
      assert s == [s[0]] + t;
      if s[0].key > 0 {
        LowerCons(s[0], Filter(t, After(0)));
        CursorSlotCons(s[0], Lower(Filter(t, After(0))), t, cur);
      } else {
        IdsCons(s[0], Filter(t, DueBy(0)));
        DueCons(s[0], t, cur);
      }
    }
  }

  lemma LowerCons<T>(x: Keyed<T>, s: seq<Keyed<T>>)
    ensures Lower([x] + s) == [Keyed(x.id, x.key - 1)] + Lower(s)
  {
    assert ([x] + s)[1..] == s;
  }

  lemma SweepCons<T>(x: Entry<T>, l: seq<Entry<T>>)
    ensures Sweep([x] + l) ==
      if x.rotation > 0 then Swept(Sweep(l).fired, [Entry(x.id, x.rotation - 1)] + Sweep(l).kept)
      else Swept([x.id] + Sweep(l).fired, Sweep(l).kept)
  {
    assert ([x] + l)[1..] == l;
  }

  lemma SlotForIs(cur: nat, ticks: nat)
    requires cur < SLOTS
    ensures SlotFor(cur, ticks) == (cur + ticks) % SLOTS
  {
    var q, m := ticks / SLOTS, ticks % SLOTS;
    var wrap := if cur + m < SLOTS then 0 else 1;
    DivMod(cur + m, wrap, cur + m - SLOTS * wrap);
    DivMod(cur + ticks, q + wrap, cur + m - SLOTS * wrap);
  }

  lemma PushBackRefines<T>(w: Wheel<T>, s: seq<Keyed<T>>, id: T, ticks: nat)
    requires Represents(w, s)
    ensures Represents(PushBack(w, id, ticks), s + [Keyed(id, ticks)])
  {
    var x := Keyed(id, ticks as int);
    SlotForIs(w.cur, ticks);
    forall k | 0 <= k < SLOTS ensures PushBack(w, id, ticks).slots[k] == Project(s + [x], w.cur, k) {
      ProjectConcat(s, [x], w.cur, k);
      ProjectCons(x, [], w.cur, k);
      assert [x] + [] == [x];
    }
  }

  lemma RemoveRefines<T>(w: Wheel<T>, s: seq<Keyed<T>>, id: T)
    requires Represents(w, s)
    ensures Represents(Remove(w, id), Filter(s, NotId(id)))
  {
    forall k | 0 <= k < SLOTS ensures Remove(w, id).slots[k] == Project(Filter(s, NotId(id)), w.cur, k) {
      ProjectDropped(s, w.cur, k, id);
    }
    FilterMembers(s, NotId(id));
  }

  /** A tick of the wheel, which touches one slot, is a tick of the countdown, which touches every timer. */
  lemma TickRefines<T>(w: Wheel<T>, s: seq<Keyed<T>>)
    requires Represents(w, s)
    ensures Represents(Tick(w).0, Lower(Filter(s, After(0))))
    ensures Tick(w).1 == Ids(Filter(s, DueBy(0)))
  {
    TickCursorSlot(s, w.cur);
    forall k | 0 <= k < SLOTS
      ensures Tick(w).0.slots[k] == Project(Lower(Filter(s, After(0))), NextSlot(w.cur), k)
    {
      if k != w.cur {
        TickOtherSlot(s, w.cur, k);
      }
    }
    FilterMembers(s, After(0));
  }

  lemma ApplyRefines<T>(w: Wheel<T>, s: seq<Keyed<T>>, op: Op<T>)
    requires Represents(w, s)
    ensures Represents(Apply(w, op).0, CountdownApply(s, op).0)
    ensures Apply(w, op).1 == CountdownApply(s, op).1
  {
    match op
    case Add(id, timeout) => PushBackRefines(w, s, id, TicksOf(timeout));
    case Delete(id) => RemoveRefines(w, s, id);
    case Reset(id, timeout) =>
      RemoveRefines(w, s, id);
      PushBackRefines(Remove(w, id), Filter(s, NotId(id)), id, TicksOf(timeout));
    case Tock => TickRefines(w, s);
  }

  /** Over every run the wheel fires what the countdown fires, in the same order. */
  lemma {:induction false} RunRefines<T>(w: Wheel<T>, s: seq<Keyed<T>>, ops: seq<Op<T>>)
    requires Represents(w, s)
    ensures Represents(Run(w, ops).0, CountdownRun(s, ops).0)
    ensures Run(w, ops).1 == CountdownRun(s, ops).1
    decreases ops
  {
    if ops != [] {
      ApplyRefines(w, s, ops[0]);
      RunRefines(Apply(w, ops[0]).0, CountdownApply(s, ops[0]).0, ops[1..]);
    }
  }

  lemma EmptyRepresents<T>()
    ensures Represents(Empty<T>(), [])
  {
  }
}
