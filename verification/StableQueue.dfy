/** Sequences of keyed timers: stable insertion, removal and the prefix that is due.
    These are the specification functions of the sorted timer list and of the timing wheel. */
module StableQueue {

  /** A timer together with the number it is ordered by (a deadline, or the ticks still to wait). */
  datatype Keyed<T> = Keyed(id: T, key: int)

  /** The selections the proofs filter by, as data so that one lemma serves them all. */
  datatype Cut<T> = NotId(id: T) | IsId(id: T) | DueBy(now: int) | After(now: int) | AtKey(key: int)

  predicate Keeps<T(==)>(c: Cut<T>, x: Keyed<T>) {
    match c
    case NotId(id) => x.id != id
    case IsId(id) => x.id == id
    case DueBy(now) => x.key <= now
    case After(now) => x.key > now
    case AtKey(key) => x.key == key
  }

  function Filter<T(==)>(s: seq<Keyed<T>>, c: Cut<T>): seq<Keyed<T>> {
    if s == [] then []
    else if Keeps(c, s[0]) then [s[0]] + Filter(s[1..], c)
    else Filter(s[1..], c)
  }

  function Ids<T>(s: seq<Keyed<T>>): seq<T> {
    seq(|s|, i requires 0 <= i < |s| => s[i].id)
  }

  ghost predicate Sorted<T>(s: seq<Keyed<T>>) {
    forall i, j :: 0 <= i < j < |s| ==> s[i].key <= s[j].key
  }

  /** Put x before the first element whose key is greater. */
  function Insert<T>(s: seq<Keyed<T>>, x: Keyed<T>): seq<Keyed<T>> {
    if s == [] then [x]
    else if x.key < s[0].key then [x] + s
    else [s[0]] + Insert(s[1..], x)
  }

  /** Length of the longest prefix whose keys are all at most now. */
  function DueLength<T>(s: seq<Keyed<T>>, now: int): (n: nat)
    ensures n <= |s|
    ensures forall i :: 0 <= i < n ==> s[i].key <= now
    ensures n < |s| ==> s[n].key > now
  {
    if s == [] || s[0].key > now then 0 else 1 + DueLength(s[1..], now)
  }

  /** Elements in order of key, equal keys in their order in s. */
  function StableSort<T>(s: seq<Keyed<T>>): seq<Keyed<T>> {
    SortPrefix(s, |s|)
  }

  function SortPrefix<T>(s: seq<Keyed<T>>, n: nat): seq<Keyed<T>>
    requires n <= |s|
  {
    if n == 0 then [] else Insert(SortPrefix(s, n - 1), s[n - 1])
  }

  lemma {:induction false} Regroup<T>(a: seq<T>, b: seq<T>, c: seq<T>)
    ensures a + (b + c) == a + b + c
  {
  }

  /** Where an id is first found; the length if nowhere. */
  function IndexOf<T(==)>(q: seq<Keyed<T>>, id: T): (k: nat)
    ensures k <= |q| && (k < |q| ==> q[k].id == id)
    ensures forall i :: 0 <= i < k ==> q[i].id != id
  {
    if q == [] || q[0].id == id then 0 else 1 + IndexOf(q[1..], id)
  }

  // ---------- filtering ----------

  lemma {:induction false} FilterConcat<T>(a: seq<Keyed<T>>, b: seq<Keyed<T>>, c: Cut<T>)
    ensures Filter(a + b, c) == Filter(a, c) + Filter(b, c)
  {
    if a == [] {
      assert a + b == b;
    } else {
      FilterConcat(a[1..], b, c);
      assert (a + b)[0] == a[0] && (a + b)[1..] == a[1..] + b;
      if Keeps(c, a[0]) {
        assert Filter(a + b, c) == [a[0]] + (Filter(a[1..], c) + Filter(b, c));
      }
    }
  }

  /** A filter keeps exactly the selected elements. */
  lemma {:induction false} FilterMembers<T>(s: seq<Keyed<T>>, c: Cut<T>)
    ensures forall x :: x in Filter(s, c) <==> x in s && Keeps(c, x)
    ensures forall i :: 0 <= i < |Filter(s, c)| ==> Filter(s, c)[i] in s && Keeps(c, Filter(s, c)[i])
  {
    if s != [] {
      FilterMembers(s[1..], c);
      assert s == [s[0]] + s[1..];
    }
  }

  lemma {:induction false} FilterAll<T>(s: seq<Keyed<T>>, c: Cut<T>)
    requires forall x :: x in s ==> Keeps(c, x)
    ensures Filter(s, c) == s
  {
    if s != [] {
      FilterAll(s[1..], c);
    }
  }

  lemma {:induction false} FilterNone<T>(s: seq<Keyed<T>>, c: Cut<T>)
    requires forall x :: x in s ==> !Keeps(c, x)
    ensures Filter(s, c) == []
  {
    if s != [] {
      FilterNone(s[1..], c);
    }
  }

  lemma {:induction false} FilterSorted<T>(s: seq<Keyed<T>>, c: Cut<T>)
    requires Sorted(s)
    ensures Sorted(Filter(s, c))
  {
    if s != [] {
      FilterSorted(s[1..], c);
      FilterMembers(s[1..], c);
      var f: seq<Keyed<T>> := Filter(s[1..], c);
      forall i | 0 <= i < |f| ensures s[0].key <= f[i].key {
        assert f[i] in s[1..];
      }
    }
  }

  // ---------- stable insertion ----------

  /** Insertion after everything not greater, before everything greater. */
  lemma {:induction false} InsertAt<T>(s: seq<Keyed<T>>, x: Keyed<T>, k: nat)
    requires k <= |s|
    requires forall i :: 0 <= i < k ==> s[i].key <= x.key
    requires k < |s| ==> x.key < s[k].key
    ensures Insert(s, x) == s[..k] + [x] + s[k..]
  {
    if k > 0 {
      InsertAt(s[1..], x, k - 1);
      assert s[1..][..k - 1] == s[1..k] && s[1..][k - 1..] == s[k..];
      assert s[..k] == [s[0]] + s[1..k];
    }
  }

  lemma {:induction false} InsertLast<T>(s: seq<Keyed<T>>, x: Keyed<T>)
    requires forall i :: 0 <= i < |s| ==> s[i].key <= x.key
    ensures Insert(s, x) == s + [x]
  {
    InsertAt(s, x, |s|);
    assert s[..|s|] == s && s[|s|..] == [];
  }

  /** Where Insert puts its element, in any sequence. */
  lemma {:induction false} InsertPlace<T>(s: seq<Keyed<T>>, x: Keyed<T>)
    ensures var k := DueLength(s, x.key);
      Insert(s, x) == s[..k] + [x] + s[k..]
  {
    InsertAt(s, x, DueLength(s, x.key));
  }

  // ---------- which ids there are ----------

  lemma {:induction false} IdsCons<T>(x: Keyed<T>, s: seq<Keyed<T>>)
    ensures Ids([x] + s) == [x.id] + Ids(s)
  {
  }

  lemma {:induction false} IdsConcat<T>(a: seq<Keyed<T>>, b: seq<Keyed<T>>)
    ensures Ids(a + b) == Ids(a) + Ids(b)
  {
  }

  lemma {:induction false} InsertIds<T>(s: seq<Keyed<T>>, x: Keyed<T>)
    ensures forall t :: t in Ids(Insert(s, x)) <==> t == x.id || t in Ids(s)
  {
    if s == [] || x.key < s[0].key {
      IdsCons(x, s);
      assert [x] + [] == [x];
    } else {
      InsertIds(s[1..], x);
      IdsCons(s[0], Insert(s[1..], x));
      IdsCons(s[0], s[1..]);
      assert s == [s[0]] + s[1..];
    }
  }

  lemma {:induction false} AdjustIds<T>(s: seq<Keyed<T>>, k: nat)
    requires k < |s|
    ensures forall t :: t in Ids(Adjust(s, k)) <==> t in Ids(s)
  {
    var a, b := s[..k], s[k + 1..];
    if Adjust(s, k) != s {
      InsertIds(b, s[k]);
      IdsConcat(a, Insert(b, s[k]));
      IdsConcat(a, [s[k]] + b);
      IdsCons(s[k], b);
      assert s == a + ([s[k]] + b);
    }
  }

  lemma {:induction false} FilterIds<T>(s: seq<Keyed<T>>, id: T)
    ensures forall t :: t in Ids(Filter(s, NotId(id))) <==> t in Ids(s) && t != id
  {
    if s != [] {
      FilterIds(s[1..], id);
      IdsCons(s[0], s[1..]);
      assert s == [s[0]] + s[1..];
      if s[0].id != id {
        IdsCons(s[0], Filter(s[1..], NotId(id)));
      }
    }
  }

  /** Inserting into the part of a sequence from j on. */
  lemma {:induction false} InsertSplice<T>(s: seq<Keyed<T>>, x: Keyed<T>, j: nat, k: nat)
    requires j <= k <= |s|
    requires forall i :: j <= i < k ==> s[i].key <= x.key
    requires k < |s| ==> x.key < s[k].key
    ensures s[..k] + [x] + s[k..] == s[..j] + Insert(s[j..], x)
  {
    InsertAt(s[j..], x, k - j);
    assert s[j..][..k - j] == s[j..k] && s[j..][k - j..] == s[k..];
    assert s[..k] == s[..j] + s[j..k];
  }

  lemma {:induction false} InsertContents<T>(s: seq<Keyed<T>>, x: Keyed<T>)
    ensures |Insert(s, x)| == |s| + 1
    ensures multiset(Insert(s, x)) == multiset(s) + multiset{x}
    ensures forall i :: 0 <= i < |Insert(s, x)| ==> Insert(s, x)[i] == x || Insert(s, x)[i] in s
  {
    if s != [] {
      assert s == [s[0]] + s[1..];
      if x.key >= s[0].key {
        InsertContents(s[1..], x);
      }
    }
  }

  lemma {:induction false} InsertSorted<T>(s: seq<Keyed<T>>, x: Keyed<T>)
    requires Sorted(s)
    ensures Sorted(Insert(s, x))
  {
    if s != [] && x.key >= s[0].key {
      InsertSorted(s[1..], x);
      var r := Insert(s[1..], x);
      InsertContents(s[1..], x);
      forall i | 0 <= i < |r| ensures s[0].key <= r[i].key {
        assert r[i] == x || r[i] in s[1..];
      }
    }
  }

  lemma {:induction false} FilterInsert<T>(s: seq<Keyed<T>>, x: Keyed<T>, c: Cut<T>)
    requires Sorted(s)
    ensures Filter(Insert(s, x), c) == if Keeps(c, x) then Insert(Filter(s, c), x) else Filter(s, c)
  {
    if s == [] {
    } else if x.key < s[0].key {
      assert ([x] + s)[1..] == s;
      FilterMembers(s, c);
      if Filter(s, c) != [] {
        var e: Keyed<T> := Filter(s, c)[0];
        assert e in s;
      }
    } else {
      FilterInsert(s[1..], x, c);
      var rest: seq<Keyed<T>> := Filter(s[1..], c);
      assert ([s[0]] + Insert(s[1..], x))[1..] == Insert(s[1..], x);
      assert ([s[0]] + rest)[1..] == rest;
      if Keeps(c, s[0]) {
        assert Insert([s[0]] + rest, x) == [s[0]] + Insert(rest, x);
      }
    }
  }

  // ---------- stable sorting ----------

  lemma {:induction false} SortSnoc<T>(a: seq<Keyed<T>>, x: Keyed<T>)
    ensures StableSort(a + [x]) == Insert(StableSort(a), x)
  {
    SortPrefixOf(a, [x], |a|);
  }

  lemma {:induction false} SortPrefixOf<T>(a: seq<Keyed<T>>, b: seq<Keyed<T>>, n: nat)
    requires n <= |a|
    ensures SortPrefix(a + b, n) == SortPrefix(a, n)
  {
    if n > 0 {
      SortPrefixOf(a, b, n - 1);
    }
  }

  lemma FilterSnoc<T>(a: seq<Keyed<T>>, x: Keyed<T>, c: Cut<T>)
    ensures Filter(a + [x], c) == if Keeps(c, x) then Filter(a, c) + [x] else Filter(a, c)
  {
    FilterConcat(a, [x], c);
  }

  lemma {:induction false} SortSorted<T>(s: seq<Keyed<T>>)
    ensures Sorted(StableSort(s))
    ensures multiset(StableSort(s)) == multiset(s)
  {
    if s != [] {
      var a, x := s[..|s| - 1], s[|s| - 1];
      assert s == a + [x];
      SortSnoc(a, x);
      SortSorted(a);
      InsertSorted(StableSort(a), x);
      InsertContents(StableSort(a), x);
    }
  }

  lemma {:induction false} FilterSort<T>(s: seq<Keyed<T>>, c: Cut<T>)
    ensures Filter(StableSort(s), c) == StableSort(Filter(s, c))
  {
    if s != [] {
      var a, x := s[..|s| - 1], s[|s| - 1];
      assert s == a + [x];
      SortSnoc(a, x);
      FilterSort(a, c);
      SortSorted(a);
      FilterInsert(StableSort(a), x, c);
      FilterSnoc(a, x, c);
      SortSnoc(Filter(a, c), x);
    }
  }

  lemma {:induction false} SortOfSorted<T>(s: seq<Keyed<T>>)
    requires Sorted(s)
    ensures StableSort(s) == s
  {
    if s != [] {
      var a, x := s[..|s| - 1], s[|s| - 1];
      assert s == a + [x];
      SortSnoc(a, x);
      SortOfSorted(a);
      InsertLast(a, x);
    }
  }

  /** StableSort is what its name says: sorted, a permutation, and equal keys keep their order. */
  lemma StableSortIsStable<T>(s: seq<Keyed<T>>, key: int)
    ensures Sorted(StableSort(s)) && multiset(StableSort(s)) == multiset(s)
    ensures Filter(StableSort(s), AtKey(key)) == Filter(s, AtKey(key))
  {
    SortSorted(s);
    FilterSort(s, AtKey(key));
    assert Sorted(Filter(s, AtKey(key))) by {
      FilterMembers(s, AtKey(key));
    }
    SortOfSorted(Filter(s, AtKey(key)));
  }

  // ---------- the due prefix ----------

  lemma DueLengthIs<T>(s: seq<Keyed<T>>, now: int, n: nat)
    requires n <= |s| && (forall i :: 0 <= i < n ==> s[i].key <= now)
    requires n < |s| ==> s[n].key > now
    ensures n == DueLength(s, now)
  {
  }

  /** In a sorted sequence the due prefix is the set of all due elements, not just some of them. */
  lemma {:induction false} DuePrefixIsAllDue<T>(s: seq<Keyed<T>>, now: int)
    requires Sorted(s)
    ensures s[..DueLength(s, now)] == Filter(s, DueBy(now))
    ensures s[DueLength(s, now)..] == Filter(s, After(now))
  {
    if s == [] {
    } else if s[0].key > now {
      FilterNone(s, DueBy(now));
      FilterAll(s, After(now));
    } else {
      DuePrefixIsAllDue(s[1..], now);
      var n := DueLength(s[1..], now);
      assert s[..n + 1] == [s[0]] + s[1..][..n];
      assert s[n + 1..] == s[1..][n..];
    }
  }

  /** Taking one of several distinct ids out of a sequence. */
  lemma {:induction false} FilterDistinct<T>(s: seq<Keyed<T>>, k: nat)
    requires k < |s|
    requires forall i, j :: 0 <= i < j < |s| ==> s[i].id != s[j].id
    ensures Filter(s, NotId(s[k].id)) == s[..k] + s[k + 1..]
  {
    if k == 0 {
      FilterAll(s[1..], NotId(s[0].id));
    } else {
      FilterDistinct(s[1..], k - 1);
      assert s[..k] == [s[0]] + s[1..][..k - 1] && s[k + 1..] == s[1..][k..];
    }
  }

  // ---------- a changed key ----------

  /** What the list does when the key of its k-th element has just been changed: nothing if the
      element is last or still below its successor, otherwise it is taken out and inserted again
      among the elements behind it. */
  function Adjust<T>(s: seq<Keyed<T>>, k: nat): seq<Keyed<T>>
    requires k < |s|
  {
    if k + 1 == |s| || s[k].key < s[k + 1].key then s
    else s[..k] + Insert(s[k + 1..], s[k])
  }

  /** A changed key not below its predecessor's makes Adjust the same as removal followed by stable
      insertion; with a lower key everything stays in its place, out of order. Both directions, for every
      input. */
  lemma {:induction false} AdjustIsReinsertion<T>(s: seq<Keyed<T>>, k: nat)
    requires k < |s| && Sorted(s[..k] + s[k + 1..])
    ensures (k > 0 ==> s[k - 1].key <= s[k].key) <==> Adjust(s, k) == Insert(s[..k] + s[k + 1..], s[k])
    ensures (k > 0 ==> s[k - 1].key <= s[k].key) <==> Sorted(Adjust(s, k))
    ensures k > 0 && s[k].key < s[k - 1].key ==> Adjust(s, k) == s
  {
    var rest := s[..k] + s[k + 1..];
    forall i, j | 0 <= i < k < j < |s| ensures s[i].key <= s[j].key {
      assert rest[i] == s[i] && rest[j - 1] == s[j];
    }
    InsertSorted(rest, s[k]);
    if k > 0 && s[k - 1].key > s[k].key {
      assert Adjust(s, k) == s;
    } else {
      AdjustMoves(s, k);
    }
  }

  lemma {:induction false} AdjustMoves<T>(s: seq<Keyed<T>>, k: nat)
    requires k < |s| && Sorted(s[..k] + s[k + 1..])
    requires k > 0 ==> s[k - 1].key <= s[k].key
    ensures Adjust(s, k) == Insert(s[..k] + s[k + 1..], s[k])
  {
    var a, b, x := s[..k], s[k + 1..], s[k];
    KeysBefore(a, b);
    InsertBehind(a, b, x);
    if b == [] || x.key < b[0].key {
      assert Insert(b, x) == [x] + b;
      assert s == a + ([x] + b);
    }
  }

  lemma {:induction false} KeysBefore<T>(a: seq<Keyed<T>>, b: seq<Keyed<T>>)
    requires Sorted(a + b)
    ensures forall i :: 0 <= i < |a| ==> a[i].key <= a[|a| - 1].key
  {
    var r := a + b;
    assert forall i :: 0 <= i < |a| ==> r[i] == a[i];
  }

  lemma {:induction false} InsertBehind<T>(a: seq<Keyed<T>>, b: seq<Keyed<T>>, x: Keyed<T>)
    requires forall i :: 0 <= i < |a| ==> a[i].key <= x.key
    ensures Insert(a + b, x) == a + Insert(b, x)
  {
    if a == [] {
      assert a + b == b;
    } else {
      InsertBehind(a[1..], b, x);
      assert (a + b)[1..] == a[1..] + b;
    }
  }
}
