/** The order the sorted timer list keeps over every sequence of its operations: strictly increasing in
    expiry and, among equal expiries, in the time of the last add or adjust. */
module ListOrder {
  import opened StableQueue

  /** A timer with the number of the operation that last set it. */
  datatype Stamped<T> = Stamped(timer: T, stamp: nat)

  datatype ListOp<T> =
    | Add(timer: T, expire: int)
    | Adjusted(timer: T, expire: int)
    | Delete(timer: T)
    | Tick(now: int)

  /** The list without the stamps. */
  function Strip<T>(s: seq<Keyed<Stamped<T>>>): seq<Keyed<T>> {
    seq(|s|, i requires 0 <= i < |s| => Keyed(s[i].id.timer, s[i].key))
  }

  /** Where a timer is in the list; the length if nowhere. */
  function Find<T(==)>(s: seq<Keyed<Stamped<T>>>, timer: T): (k: nat)
    ensures k <= |s|
    ensures k < |s| ==> s[k].id.timer == timer
  {
    IndexOf(Strip(s), timer)
  }

  /** Operation number n on the list; adjusting and deleting concern a listed timer. */
  function Apply<T(==)>(s: seq<Keyed<Stamped<T>>>, op: ListOp<T>, n: nat): seq<Keyed<Stamped<T>>> {
    match op
    case Add(timer, expire) => Insert(s, Keyed(Stamped(timer, n), expire))
    case Adjusted(timer, expire) =>
      var k := Find(s, timer);
      if k == |s| then s else Adjust(s[k := Keyed(Stamped(timer, n), expire)], k)
    case Delete(timer) =>
      var k := Find(s, timer);
      if k == |s| then s else s[..k] + s[k + 1..]
    case Tick(now) => s[DueLength(s, now)..]
  }

  /** An adjusted timer does not expire before its predecessor in the list. */
  predicate Supported<T(==)>(s: seq<Keyed<Stamped<T>>>, op: ListOp<T>) {
    op.Adjusted? ==>
      var k := Find(s, op.timer);
      0 < k < |s| ==> s[k - 1].key <= op.expire
  }

  ghost predicate Before<T>(x: Keyed<Stamped<T>>, y: Keyed<Stamped<T>>) {
    x.key < y.key || (x.key == y.key && x.id.stamp < y.id.stamp)
  }

  ghost predicate Ordered<T>(s: seq<Keyed<Stamped<T>>>) {
    forall i, j :: 0 <= i < j < |s| ==> Before(s[i], s[j])
  }

  ghost predicate StampsBelow<T>(s: seq<Keyed<Stamped<T>>>, n: nat) {
    forall i :: 0 <= i < |s| ==> s[i].id.stamp < n
  }

  lemma {:induction false} OrderedIsSorted<T>(s: seq<Keyed<Stamped<T>>>)
    requires Ordered(s)
    ensures Sorted(s)
  {
    forall i, j | 0 <= i < j < |s| ensures s[i].key <= s[j].key {
      assert Before(s[i], s[j]);
    }
  }

  lemma {:induction false} OrderedCut<T>(s: seq<Keyed<Stamped<T>>>, k: nat, n: nat)
    requires Ordered(s) && StampsBelow(s, n) && k < |s|
    ensures Ordered(s[..k] + s[k + 1..]) && StampsBelow(s[..k] + s[k + 1..], n)
  {
    var r := s[..k] + s[k + 1..];
    forall i, j | 0 <= i < j < |r| ensures Before(r[i], r[j]) {
      var a, b := if i < k then i else i + 1, if j < k then j else j + 1;
      assert r[i] == s[a] && r[j] == s[b];
    }
  }

  lemma {:induction false} OrderedSuffix<T>(s: seq<Keyed<Stamped<T>>>, k: nat, n: nat)
    requires Ordered(s) && StampsBelow(s, n) && k <= |s|
    ensures Ordered(s[k..]) && StampsBelow(s[k..], n)
  {
    var r := s[k..];
    forall i, j | 0 <= i < j < |r| ensures Before(r[i], r[j]) {
      assert r[i] == s[k + i] && r[j] == s[k + j];
    }
  }

  lemma {:induction false} OrderedSplice<T>(s: seq<Keyed<Stamped<T>>>, x: Keyed<Stamped<T>>, k: nat, n: nat)
    requires Ordered(s) && StampsBelow(s, n) && x.id.stamp == n && k <= |s|
    requires forall i :: 0 <= i < k ==> s[i].key <= x.key
    requires forall i :: k <= i < |s| ==> x.key < s[i].key
    ensures Ordered(s[..k] + [x] + s[k..]) && StampsBelow(s[..k] + [x] + s[k..], n + 1)
  {
    var r := s[..k] + [x] + s[k..];
    assert forall i :: 0 <= i < |r| ==> r[i] == if i < k then s[i] else if i == k then x else s[i - 1];
    forall i, j | 0 <= i < j < |r| ensures Before(r[i], r[j]) {
      if i != k && j != k {
        assert Before(s[if i < k then i else i - 1], s[if j < k then j else j - 1]);
      }
    }
  }

  lemma {:induction false} OrderedInsert<T>(s: seq<Keyed<Stamped<T>>>, x: Keyed<Stamped<T>>, n: nat)
    requires Ordered(s) && StampsBelow(s, n) && x.id.stamp == n
    ensures Ordered(Insert(s, x)) && StampsBelow(Insert(s, x), n + 1)
  {
    OrderedIsSorted(s);
    InsertPlace(s, x);
    OrderedSplice(s, x, DueLength(s, x.key), n);
  }

  /** One operation keeps the order. */
  lemma {:induction false} ApplyKeepsOrder<T>(s: seq<Keyed<Stamped<T>>>, op: ListOp<T>, n: nat)
    requires Ordered(s) && StampsBelow(s, n) && Supported(s, op)
    ensures Ordered(Apply(s, op, n)) && StampsBelow(Apply(s, op, n), n + 1)
  {
    if op.Add? {
      OrderedInsert(s, Keyed(Stamped(op.timer, n), op.expire), n);
    } else if op.Tick? {
      OrderedSuffix(s, DueLength(s, op.now), n);
    } else {
      var k := Find(s, op.timer);
      if k < |s| {
        OrderedCut(s, k, n);
        if op.Adjusted? {
          AdjustKeepsOrder(s, k, Keyed(Stamped(op.timer, n), op.expire), n);
        }
      }
    }
  }

  lemma {:induction false} AdjustKeepsOrder<T>(s: seq<Keyed<Stamped<T>>>, k: nat, x: Keyed<Stamped<T>>, n: nat)
    requires Ordered(s) && StampsBelow(s, n) && x.id.stamp == n && k < |s| && (k > 0 ==> s[k - 1].key <= x.key)
    ensures Ordered(Adjust(s[k := x], k)) && StampsBelow(Adjust(s[k := x], k), n + 1)
    ensures Adjust(s[k := x], k) == Insert(s[..k] + s[k + 1..], x)
  {
    var c := s[k := x];
    OrderedCut(s, k, n);
    OrderedIsSorted(s[..k] + s[k + 1..]);
    assert c[..k] == s[..k] && c[k + 1..] == s[k + 1..];
    AdjustMoves(c, k);
    OrderedInsert(s[..k] + s[k + 1..], x, n);
  }

  // ---------- runs ----------

  function Run<T(==)>(s: seq<Keyed<Stamped<T>>>, ops: seq<ListOp<T>>, n: nat): seq<Keyed<Stamped<T>>>
    decreases ops
  {
    if ops == [] then s else Run(Apply(s, ops[0], n), ops[1..], n + 1)
  }

  predicate AllSupported<T(==)>(s: seq<Keyed<Stamped<T>>>, ops: seq<ListOp<T>>, n: nat)
    decreases ops
  {
    ops == [] || (Supported(s, ops[0]) && AllSupported(Apply(s, ops[0], n), ops[1..], n + 1))
  }

  /** After every run of adds, supported adjusts, deletes and ticks the list is strictly ordered. */
  lemma {:induction false} RunKeepsOrder<T>(s: seq<Keyed<Stamped<T>>>, ops: seq<ListOp<T>>, n: nat)
    requires Ordered(s) && StampsBelow(s, n) && AllSupported(s, ops, n)
    ensures Ordered(Run(s, ops, n)) && StampsBelow(Run(s, ops, n), n + |ops|)
    decreases ops
  {
    if ops != [] {
      ApplyKeepsOrder(s, ops[0], n);
      RunKeepsOrder(Apply(s, ops[0], n), ops[1..], n + 1);
    }
  }

  /** An adjust leaves the list in order exactly when the new key is not below the predecessor's. */
  lemma {:induction false} OrderedIffSupported<T>(s: seq<Keyed<Stamped<T>>>, op: ListOp<T>, n: nat)
    requires Ordered(s) && StampsBelow(s, n) && op.Adjusted? && Find(s, op.timer) < |s|
    ensures Ordered(Apply(s, op, n)) <==> Supported(s, op)
  {
    var k, x := Find(s, op.timer), Keyed(Stamped(op.timer, n), op.expire);
    if Supported(s, op) {
      AdjustKeepsOrder(s, k, x, n);
    } else {
      var c := s[k := x];
      OrderedIsSorted(s);
      assert Adjust(c, k) == c;
      assert !Before(c[k - 1], c[k]);
    }
  }

  /** Two timers are added and the later one is brought forward past the first: the list is left out of order,
      by expiry alone. */
  lemma {:induction false} BroughtForward()
    ensures var s := Run([], [Add(1, 5), Add(2, 10), Adjusted(2, 3)], 0);
      s == [Keyed(Stamped(1, 0), 5), Keyed(Stamped(2, 2), 3)] && !Ordered(s) && !Sorted(s)
  {
    var s1, s2 := [Keyed(Stamped(1, 0), 5)], [Keyed(Stamped(1, 0), 5), Keyed(Stamped(2, 1), 10)];
    var ops: seq<ListOp<int>> := [Add(1, 5), Add(2, 10), Adjusted(2, 3)];
    assert Apply([], ops[0], 0) == s1;
    InsertLast(s1, Keyed(Stamped(2, 1), 10));
    assert Apply(s1, ops[1], 1) == s2;
    assert Find(s2, 2) == 1 by {
      FoundOnlyAt(s2, 2, 1);
    }
    var s3 := [Keyed(Stamped(1, 0), 5), Keyed(Stamped(2, 2), 3)];
    assert Apply(s2, ops[2], 2) == s3;
    assert ops[1..] == [ops[1], ops[2]] && ops[1..][1..] == [ops[2]] && [ops[2]][1..] == [];
    assert Run(s2, [ops[2]], 2) == s3;
    assert !(s3[0].key <= s3[1].key) && !Before(s3[0], s3[1]);
  }

  // ---------- the stamps are only bookkeeping ----------

  lemma {:induction false} StripInsert<T>(s: seq<Keyed<Stamped<T>>>, x: Keyed<Stamped<T>>)
    ensures Strip(Insert(s, x)) == Insert(Strip(s), Keyed(x.id.timer, x.key))
  {
    InsertPlace(s, x);
    InsertPlace(Strip(s), Keyed(x.id.timer, x.key));
    DueLengthIs(Strip(s), x.key, DueLength(s, x.key));
  }

  lemma {:induction false} StripAdjust<T>(s: seq<Keyed<Stamped<T>>>, k: nat)
    requires k < |s|
    ensures Strip(Adjust(s, k)) == Adjust(Strip(s), k)
  {
    StripInsert(s[k + 1..], s[k]);
    assert Strip(s[k + 1..]) == Strip(s)[k + 1..];
  }

  lemma {:induction false} FoundOnlyAt<T>(s: seq<Keyed<Stamped<T>>>, timer: T, k: nat)
    requires forall i, j :: 0 <= i < j < |s| ==> s[i].id.timer != s[j].id.timer
    requires k < |s| && s[k].id.timer == timer
    ensures Find(s, timer) == k
  {
    var q := Strip(s);
    assert q[k].id == timer && forall i :: 0 <= i < |s| ==> q[i].id == s[i].id.timer;
  }

  lemma {:induction false} StripAdjusted<T>(s: seq<Keyed<Stamped<T>>>, timer: T, expire: int, n: nat, k: nat)
    requires forall i, j :: 0 <= i < j < |s| ==> s[i].id.timer != s[j].id.timer
    requires k < |s| && s[k].id.timer == timer
    ensures Strip(Apply(s, Adjusted(timer, expire), n)) == Adjust(Strip(s)[k := Keyed(timer, expire)], k)
  {
    FoundOnlyAt(s, timer, k);
    var c := s[k := Keyed(Stamped(timer, n), expire)];
    assert Strip(c) == Strip(s)[k := Keyed(timer, expire)];
    StripAdjust(c, k);
  }

  lemma {:induction false} StripDelete<T>(s: seq<Keyed<Stamped<T>>>, timer: T, n: nat, k: nat)
    requires forall i, j :: 0 <= i < j < |s| ==> s[i].id.timer != s[j].id.timer
    requires k < |s| && s[k].id.timer == timer
    ensures Strip(Apply(s, Delete(timer), n)) == Filter(Strip(s), NotId(timer))
  {
    FoundOnlyAt(s, timer, k);
    FilterDistinct(Strip(s), k);
    assert Strip(s[..k] + s[k + 1..]) == Strip(s)[..k] + Strip(s)[k + 1..];
  }

  /** Without the stamps the operations are those the list is proved to perform: on a list without
      repetitions, stable insertion, adjustment of the one changed timer, removal by handle, and dropping
      the due prefix. */
  lemma {:induction false} StampsChangeNothing<T>(s: seq<Keyed<Stamped<T>>>, op: ListOp<T>, n: nat, k: nat)
    requires forall i, j :: 0 <= i < j < |s| ==> s[i].id.timer != s[j].id.timer
    requires op.Adjusted? || op.Delete? ==> k < |s| && s[k].id.timer == op.timer
    ensures Strip(Apply(s, op, n)) ==
      match op
      case Add(timer, expire) => Insert(Strip(s), Keyed(timer, expire))
      case Adjusted(timer, expire) => Adjust(Strip(s)[k := Keyed(timer, expire)], k)
      case Delete(timer) => Filter(Strip(s), NotId(timer))
      case Tick(now) => Strip(s)[DueLength(Strip(s), now)..]
  {
    match op
    case Add(timer, expire) => StripInsert(s, Keyed(Stamped(timer, n), expire));
    case Adjusted(timer, expire) => StripAdjusted(s, timer, expire, n, k);
    case Delete(timer) => StripDelete(s, timer, n, k);
    case Tick(now) => DueLengthIs(Strip(s), now, DueLength(s, now));
  }
}
