/** The intrusive doubly linked timer list ordered by expiry (time_wheel/lst_timer.hpp). */
module SortedTimerList {
  import opened StableQueue

  class UtilTimer {
    var expire: int
    const userData: int // which entry of the connection table the callback gets
    var prev: UtilTimer?
    var next: UtilTimer?

    constructor (expire: int, userData: int)
      ensures this.expire == expire && this.userData == userData
      ensures prev == null && next == null
    {
      this.expire, this.userData := expire, userData;
      prev, next := null, null;
    }
  }

  /** The nodes with their keys. */
  ghost function View(ns: seq<UtilTimer>): (r: seq<Keyed<UtilTimer>>)
    reads ns`expire
    ensures |r| == |ns|
    ensures forall i :: 0 <= i < |ns| ==> r[i] == Keyed(ns[i], ns[i].expire)
  {
    ViewUpTo(ns, |ns|)
  }

  ghost function ViewUpTo(ns: seq<UtilTimer>, n: nat): (r: seq<Keyed<UtilTimer>>)
    requires n <= |ns|
    reads ns`expire
    ensures |r| == n
    ensures forall i :: 0 <= i < n ==> r[i] == Keyed(ns[i], ns[i].expire)
  {
    if n == 0 then [] else ViewUpTo(ns, n - 1) + [Keyed(ns[n - 1], ns[n - 1].expire)]
  }

  class SortTimerList {
    var head: UtilTimer?
    var tail: UtilTimer?
    ghost var nodes: seq<UtilTimer>

    /** The pointers are those of the doubly linked list of `nodes`. `tail` means something only while
        the list is not empty: a tick that drains the list leaves the old pointer behind. */
    ghost predicate Linked()
      reads this, nodes
    {
      && (head == null <==> nodes == [])
      && (nodes != [] ==>
            && head == nodes[0] && nodes[0].prev == null
            && tail == nodes[|nodes| - 1] && nodes[|nodes| - 1].next == null)
      && (forall i {:trigger nodes[i].prev} :: 1 <= i < |nodes| ==> nodes[i].prev == nodes[i - 1])
      && (forall i {:trigger nodes[i].next} :: 0 <= i < |nodes| - 1 ==> nodes[i].next == nodes[i + 1])
      && (forall i, j :: 0 <= i < j < |nodes| ==> nodes[i] != nodes[j])
    }

    ghost function Contents(): (r: seq<Keyed<UtilTimer>>)
      reads this`nodes, nodes`expire
    {
      View(nodes)
    }

    constructor ()
      ensures Linked() && nodes == []
    {
      head, tail, nodes := null, null, [];
    }

    /** Frees every node once, front to back. */
    method Destroy() returns (freed: seq<UtilTimer>)
      requires Linked()
      modifies this
      ensures freed == old(nodes) && head == null && nodes == []
    {
      freed := [];
      var tmp := head;
      while tmp != null
        invariant |freed| <= |nodes| && freed == nodes[..|freed|]
        invariant tmp == head == if |freed| == |nodes| then null else nodes[|freed|]
        invariant nodes == old(nodes)
        decreases |nodes| - |freed|
      {
        head := tmp.next;
        freed := freed + [tmp];
        tmp := head;
      }
      nodes := [];
    }

    /** The walk of the insertion: the first node behind `lstHead` that expires later than `timer`
        (null if there is none) and the node before it. */
    method FindPlace(timer: UtilTimer, lstHead: UtilTimer, ghost k0: nat)
      returns (prev: UtilTimer, tmp: UtilTimer?, ghost k: nat)
      requires Linked() && k0 < |nodes| && nodes[k0] == lstHead
      ensures tmp == prev.next && (tmp != null ==> timer.expire < tmp.expire)
      ensures k0 < k <= |nodes| && prev == nodes[k - 1] && tmp == if k < |nodes| then nodes[k] else null
      ensures var c, x := Contents(), Keyed(timer, timer.expire);
        c[..k] + [x] + c[k..] == c[..k0 + 1] + Insert(c[k0 + 1..], x)
    {
      prev := lstHead;
      tmp := prev.next;
      k := k0 + 1;
      while tmp != null
        invariant k0 < k <= |nodes|
        invariant prev == nodes[k - 1]
        invariant tmp == if k < |nodes| then nodes[k] else null
        invariant forall i :: k0 < i < k ==> nodes[i].expire <= timer.expire
        decreases |nodes| - k
      {
        if timer.expire < tmp.expire {
          break;
        }
        prev := tmp;
        tmp := tmp.next;
        k := k + 1;
      }
      InsertSplice(Contents(), Keyed(timer, timer.expire), k0 + 1, k);
    }

    /** The pointer writes that put `timer` behind the node before the k-th. */
    method LinkAt(timer: UtilTimer, prev: UtilTimer, tmp: UtilTimer?, ghost k: nat)
      requires Linked() && 0 < k <= |nodes| && nodes[k - 1] == prev && timer !in nodes
      requires tmp == if k < |nodes| then nodes[k] else null
      modifies this`nodes, this`tail, nodes`prev, nodes`next, timer`prev, timer`next
      ensures Linked() && nodes == old(nodes)[..k] + [timer] + old(nodes)[k..]
    {
      if tmp != null {
        prev.next := timer;
        timer.next := tmp;
        tmp.prev := timer;
        timer.prev := prev;
      } else {
        prev.next := timer;
        timer.prev := prev;
        timer.next := null;
        tail := timer;
      }
      nodes := nodes[..k] + [timer] + nodes[k..];
    }

    /** Stable insertion among the nodes behind `lstHead`, the k0-th. */
    method InsertAfter(timer: UtilTimer, lstHead: UtilTimer, ghost k0: nat)
      requires Linked() && k0 < |nodes| && nodes[k0] == lstHead && timer !in nodes
      modifies this`nodes, this`tail, nodes`prev, nodes`next, timer`prev, timer`next
      ensures Linked()
      ensures Contents() == old(Contents())[..k0 + 1] + Insert(old(Contents())[k0 + 1..], Keyed(timer, timer.expire))
    {
      var prev, tmp, k := FindPlace(timer, lstHead, k0);
      LinkAt(timer, prev, tmp, k);
      ViewSplice(old(nodes), k, timer);
    }

    method PushFront(timer: UtilTimer)
      requires Linked() && nodes != [] && timer !in nodes && timer.prev == null
      modifies this`head, this`nodes, timer`next, nodes`prev
      ensures Linked() && nodes == [timer] + old(nodes)
    {
      timer.next := head;
      head.prev := timer;
      head := timer;
      nodes := [timer] + nodes;
    }

    method AddTimer(timer: UtilTimer?)
      requires Linked()
      requires timer != null ==> timer !in nodes && timer.prev == null && timer.next == null
      modifies this, nodes`prev, nodes`next
      modifies (if timer != null then {timer} else {})`prev, (if timer != null then {timer} else {})`next
      ensures Linked()
      ensures timer == null ==> nodes == old(nodes)
      ensures timer != null ==> Contents() == Insert(old(Contents()), Keyed(timer, timer.expire))
      ensures forall n :: n in nodes <==> n in old(nodes) || n == timer
    {
      if timer == null {
        return;
      }
      ghost var was := Contents();
      ViewIds(nodes);
      Link(timer);
      InsertIds(was, Keyed(timer, timer.expire));
      ViewIds(nodes);
    }

    method Link(timer: UtilTimer)
      requires Linked() && timer !in nodes && timer.prev == null && timer.next == null
      modifies this, nodes`prev, nodes`next, timer`prev, timer`next
      ensures Linked()
      ensures Contents() == Insert(old(Contents()), Keyed(timer, timer.expire))
    {
      if head == null {
        head := timer;
        tail := timer;
        nodes := [timer];
        return;
      }
      if timer.expire < head.expire {
        PushFront(timer);
        return;
      }
      InsertAfter(timer, head, 0);
    }

    /** The pointer writes that take a node other than the last out of the chain. */
    method Unlink(timer: UtilTimer, ghost k: nat)
      requires Linked() && k < |nodes| - 1 && nodes[k] == timer
      modifies this`head, this`nodes, nodes`prev, nodes`next
      ensures Linked() && nodes == old(nodes)[..k] + old(nodes)[k + 1..]
      ensures k > 0 ==> timer.next == old(timer.next)
    {
      if timer == head {
        head := head.next;
        head.prev := null;
      } else {
        timer.prev.next := timer.next;
        timer.next.prev := timer.prev;
      }
      nodes := nodes[..k] + nodes[k + 1..];
    }

    /** Take a node out that is not the last; the walk that inserts it again starts at its successor. */
    method Unhook(timer: UtilTimer, ghost k: nat) returns (lstHead: UtilTimer)
      requires Linked() && k < |nodes| - 1 && nodes[k] == timer
      modifies this, nodes`prev, nodes`next
      ensures Linked() && nodes == old(nodes)[..k] + old(nodes)[k + 1..]
      ensures lstHead == nodes[k] && timer !in nodes
    {
      if timer == head {
        Unlink(timer, k);
        timer.next := null;
        lstHead := head;
      } else {
        Unlink(timer, k);
        lstHead := timer.next;
      }
    }

    method Detach(timer: UtilTimer, ghost k: nat) returns (lstHead: UtilTimer)
      requires Linked() && k < |nodes| - 1 && nodes[k] == timer
      modifies this, nodes`prev, nodes`next
      ensures Linked() && k < |nodes| && lstHead == nodes[k] && timer !in nodes
      ensures Contents() == old(Contents())[..k] + old(Contents())[k + 1..]
    {
      ViewCut(nodes, k);
      lstHead := Unhook(timer, k);
    }

    method MoveBack(timer: UtilTimer, ghost k: nat)
      requires Linked() && k < |nodes| - 1 && nodes[k] == timer
      modifies this, nodes`prev, nodes`next
      ensures Linked()
      ensures var c := old(Contents());
        var rest := c[..k] + c[k + 1..];
        Contents() == rest[..k + 1] + Insert(rest[k + 1..], c[k])
    {
      var lstHead := Detach(timer, k);
      InsertAfter(timer, lstHead, k);
    }

    /** To be called after the `expire` of a listed timer has been changed. */
    method AdjustTimer(timer: UtilTimer?, ghost k: nat)
      requires Linked()
      requires timer != null ==> k < |nodes| && nodes[k] == timer
      modifies this, nodes`prev, nodes`next
      ensures Linked()
      ensures timer == null ==> nodes == old(nodes)
      ensures timer != null ==> Contents() == Adjust(old(Contents()), k)
      ensures forall n :: n in nodes <==> n in old(nodes)
    {
      if timer == null {
        return;
      }
      ghost var was := Contents();
      ViewIds(nodes);
      Reposition(timer, k);
      AdjustIds(was, k);
      ViewIds(nodes);
    }

    method Reposition(timer: UtilTimer, ghost k: nat)
      requires Linked() && k < |nodes| && nodes[k] == timer
      modifies this, nodes`prev, nodes`next
      ensures Linked()
      ensures Contents() == Adjust(old(Contents()), k)
    {
      var tmp := timer.next;
      if tmp == null || timer.expire < tmp.expire {
        return;
      }
      AdjustSplit(Contents(), k);
      MoveBack(timer, k);
    }

    method Remove(timer: UtilTimer, ghost k: nat)
      requires Linked() && k < |nodes| && nodes[k] == timer
      modifies this, nodes`prev, nodes`next
      ensures Linked() && nodes == old(nodes)[..k] + old(nodes)[k + 1..]
    {
      if timer == head && timer == tail {
        head := null;
        tail := null;
        nodes := [];
      } else if timer == head {
        Unlink(timer, k);
      } else if timer == tail {
        tail := tail.prev;
        tail.next := null;
        nodes := nodes[..k];
      } else {
        Unlink(timer, k);
      }
    }

    method Delist(timer: UtilTimer, ghost k: nat)
      requires Linked() && k < |nodes| && nodes[k] == timer
      modifies this, nodes`prev, nodes`next
      ensures Linked()
      ensures Contents() == old(Contents())[..k] + old(Contents())[k + 1..]
    {
      ViewCut(nodes, k);
      Remove(timer, k);
    }

    method DelTimer(timer: UtilTimer?)
      requires Linked() && (timer != null ==> timer in nodes)
      modifies this, nodes`prev, nodes`next
      ensures Linked()
      ensures timer == null ==> nodes == old(nodes)
      ensures timer != null ==> Contents() == Filter(old(Contents()), NotId(timer))
      ensures forall n :: n in nodes <==> n in old(nodes) && n != timer
    {
      if timer == null {
        return;
      }
      ghost var k :| 0 <= k < |nodes| && nodes[k] == timer;
      FilterNode(nodes, k);
      Delist(timer, k);
      ViewIds(nodes);
    }

    /** What a tick does to the list after the callback of its first node has run. */
    method PopFront(tmp: UtilTimer)
      requires Linked() && nodes != [] && tmp == head
      modifies this`head, this`nodes, nodes`prev
      ensures Linked() && nodes == old(nodes)[1..]
    {
      head := tmp.next;
      if head != null {
        head.prev := null;
      }
      nodes := nodes[1..];
    }

    /** The loop of the tick: pop from the front while the head is due. */
    method PopDue(cur: int) returns (fired: seq<UtilTimer>)
      requires Linked()
      modifies this`head, this`nodes, nodes`prev
      ensures Linked() && |fired| <= |old(nodes)|
      ensures fired == old(nodes)[..|fired|] && nodes == old(nodes)[|fired|..]
      ensures forall i :: 0 <= i < |fired| ==> fired[i].expire <= cur
      ensures nodes != [] ==> nodes[0].expire > cur
    {
      fired := [];
      var tmp := head;
      while tmp != null
        invariant |fired| <= |old(nodes)|
        invariant fired == old(nodes)[..|fired|] && nodes == old(nodes)[|fired|..]
        invariant Linked() && tmp == head
        invariant forall i :: 0 <= i < |fired| ==> fired[i].expire <= cur
        decreases |nodes|
      {
        if cur < tmp.expire {
          break;
        }
        fired := fired + [tmp];
        PopFront(tmp);
        tmp := head;
      }
    }

    /** Fires and frees from the front while the head is due at `cur`; `fired` is the order of the
        callbacks. A drained list keeps its old `tail`. */
    method Tick(cur: int) returns (fired: seq<UtilTimer>)
      requires Linked()
      modifies this`head, this`nodes, nodes`prev
      ensures Linked()
      ensures var n := DueLength(old(Contents()), cur);
        fired == old(nodes)[..n] && nodes == old(nodes)[n..]
    {
      if head == null {
        return [];
      }
      ghost var was := Contents();
      fired := PopDue(cur);
      DueLengthIs(was, cur, |fired|);
    }
  }

  lemma {:induction false} ViewIds(ns: seq<UtilTimer>)
    ensures Ids(View(ns)) == ns
  {
  }

  lemma {:induction false} ViewSplice(ns: seq<UtilTimer>, k: nat, timer: UtilTimer)
    requires k <= |ns|
    ensures View(ns[..k] + [timer] + ns[k..]) == View(ns)[..k] + [Keyed(timer, timer.expire)] + View(ns)[k..]
  {
    var l := ns[..k] + [timer] + ns[k..];
    var v, r := View(l), View(ns)[..k] + [Keyed(timer, timer.expire)] + View(ns)[k..];
    forall i | 0 <= i < |l| ensures v[i] == r[i] {
      assert l[i] == if i < k then ns[i] else if i == k then timer else ns[i - 1];
    }
  }

  lemma {:induction false} ViewCut(ns: seq<UtilTimer>, k: nat)
    requires k < |ns|
    ensures View(ns[..k] + ns[k + 1..]) == View(ns)[..k] + View(ns)[k + 1..]
  {
    var l := ns[..k] + ns[k + 1..];
    forall i | 0 <= i < |l| ensures View(l)[i] == (View(ns)[..k] + View(ns)[k + 1..])[i] {
      assert l[i] == if i < k then ns[i] else ns[i + 1];
    }
  }

  /** What is left of a list without its k-th node. */
  lemma {:induction false} FilterNode(ns: seq<UtilTimer>, k: nat)
    requires k < |ns| && forall i, j :: 0 <= i < j < |ns| ==> ns[i] != ns[j]
    ensures var f := Filter(View(ns), NotId(ns[k]));
      && f == View(ns)[..k] + View(ns)[k + 1..]
      && forall n :: n in Ids(f) <==> n in ns && n != ns[k]
  {
    FilterDistinct(View(ns), k);
    FilterIds(View(ns), ns[k]);
    ViewIds(ns);
  }

  lemma {:induction false} InsertCons<T>(y: Keyed<T>, b: seq<Keyed<T>>, x: Keyed<T>)
    requires x.key >= y.key
    ensures Insert([y] + b, x) == [y] + Insert(b, x)
  {
    assert ([y] + b)[1..] == b;
  }

  lemma {:induction false} CutParts<T>(s: seq<T>, k: nat)
    requires k + 1 < |s|
    ensures var rest := s[..k] + s[k + 1..];
      rest[..k + 1] == s[..k] + [s[k + 1]] && rest[k + 1..] == s[k + 2..]
    ensures s[k + 1..] == [s[k + 1]] + s[k + 2..]
  {
  }

  /** Reinsertion among the elements behind the first one behind the k-th. */
  lemma {:induction false} AdjustSplit<T>(s: seq<Keyed<T>>, k: nat)
    requires k + 1 < |s| && s[k].key >= s[k + 1].key
    ensures var rest := s[..k] + s[k + 1..];
      Adjust(s, k) == rest[..k + 1] + Insert(rest[k + 1..], s[k])
  {
    CutParts(s, k);
    InsertCons(s[k + 1], s[k + 2..], s[k]);
    Regroup(s[..k], [s[k + 1]], Insert(s[k + 2..], s[k]));
  }
}
