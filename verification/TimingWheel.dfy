/** The timing wheel as the container class that updates its slot lists in place
    (timer/time_wheel_timer.hpp), proved against the functions of WheelModel and SkippingWheel. */
module TimingWheel {
  import opened Wrappers
  import opened WheelModel
  import opened WheelRuns
  import opened SkippingWheel

  class TimerNode {
    var timeSlot: int
    var rotation: int
    var userData: object? // what the timeout callback is called with

    constructor ()
      ensures timeSlot == 0 && rotation == 0
    {
      timeSlot, rotation, userData := 0, 0, null;
    }
  }

  function ListOf(slot: Option<seq<TimerNode>>): seq<TimerNode> {
    if slot.None? then [] else slot.value
  }

  /** l is the list of slot i and e its value: each node once, naming its slot, with its rotation. */
  ghost predicate SlotIs(i: int, l: seq<TimerNode>, e: seq<Entry<TimerNode>>)
    reads l`timeSlot, l`rotation
  {
    && |l| == |e|
    && (forall j :: 0 <= j < |l| ==> e[j] == Entry(l[j], l[j].rotation) && l[j].timeSlot == i && l[j].rotation >= 0)
    && (forall j, k :: 0 <= j < k < |l| ==> l[j] != l[k])
  }

  lemma {:induction false} SlotIsWithout(i: int, l: seq<TimerNode>, e: seq<Entry<TimerNode>>, k: nat)
    requires SlotIs(i, l, e) && k < |l|
    ensures SlotIs(i, l[..k] + l[k + 1..], e[..k] + e[k + 1..])
    ensures forall n :: n in l[..k] + l[k + 1..] <==> n in l && n != l[k]
  {
    var c := l[..k] + l[k + 1..];
    forall n | n in l && n != l[k] ensures n in c {
      var j :| 0 <= j < |l| && l[j] == n;
      assert c[if j < k then j else j - 1] == n;
    }
  }

  /** Nodes that were live, each once. */
  ghost predicate FiredOnce(fired: seq<TimerNode>, live: set<TimerNode>) {
    && (forall j :: 0 <= j < |fired| ==> fired[j] in live)
    && (forall j, k :: 0 <= j < k < |fired| ==> fired[j] != fired[k])
  }

  class TWTimerContainer {
    const slots: array<Option<seq<TimerNode>>> // None: no list allocated yet
    var curSlot: nat
    ghost var contents: Wheel<TimerNode>
    ghost var live: set<TimerNode>

    /** The lists are those of the wheel `contents`; every live node is in the slot list it names, once,
        and in no other. */
    ghost predicate Valid()
      reads this, slots, live`timeSlot, live`rotation
    {
      && slots.Length == SLOTS && Shape(contents) && contents.cur == curSlot
      && (forall i :: 0 <= i < SLOTS ==> SlotOk(i))
      && (forall n {:trigger Located(n)} :: n in live ==> Located(n))
    }

    ghost predicate SlotOk(i: nat)
      requires slots.Length == SLOTS && Shape(contents) && i < SLOTS
      reads this, slots, live`timeSlot, live`rotation
    {
      && (forall j :: 0 <= j < |ListOf(slots[i])| ==> ListOf(slots[i])[j] in live)
      && SlotIs(i, ListOf(slots[i]), contents.slots[i])
    }

    ghost predicate Located(n: TimerNode)
      requires slots.Length == SLOTS && n in live
      reads this, slots, live`timeSlot, live`rotation
    {
      0 <= n.timeSlot < SLOTS && n in ListOf(slots[n.timeSlot])
    }

    constructor ()
      ensures Valid() && live == {} && fresh(slots)
      ensures contents == Empty() && slots.Length == 600 && curSlot == 1
    {
      slots := new Option<seq<TimerNode>>[SLOTS](_ => None);
      curSlot, contents, live := 1, Empty(), {};
    }

    /** Append a node that is in no list to a slot list. */
    method Push(node: TimerNode, ts: nat, rotation: nat)
      requires Valid() && node !in live && ts < SLOTS
      modifies this`live, this`contents, slots, node`rotation, node`timeSlot
      ensures Valid() && live == old(live) + {node} && node.timeSlot == ts && node.rotation == rotation
      ensures contents == old(contents).(slots := old(contents).slots[ts :=
                            old(contents).slots[ts] + [Entry(node, rotation)]])
    {
      node.rotation := rotation;
      node.timeSlot := ts;
      var slotList := if slots[ts] == None then [] else slots[ts].value;
      slots[ts] := Some(slotList + [node]);
      live := live + {node};
      contents := contents.(slots := contents.slots[ts := contents.slots[ts] + [Entry(node, rotation)]]);
      forall i | 0 <= i < SLOTS ensures SlotOk(i) {
        assert old(SlotOk(i));
      }
      forall n | n in live ensures Located(n) {
        assert n != node ==> old(n in live && Located(n));
      }
    }

    /** Take the k-th node out of a slot list. */
    method Erase(ts: nat, k: nat)
      requires Valid() && ts < SLOTS && SlotOk(ts) && k < |ListOf(slots[ts])|
      modifies this`live, this`contents, slots
      ensures Valid() && live == old(live) - {old(ListOf(slots[ts])[k])}
      ensures contents == old(contents).(slots := old(contents).slots[ts :=
                            old(contents).slots[ts][..k] + old(contents).slots[ts][k + 1..]])
    {
      var l := ListOf(slots[ts]);
      ghost var e := contents.slots[ts];
      assert SlotOk(ts);
      SlotIsWithout(ts, l, e, k);
      slots[ts] := Some(l[..k] + l[k + 1..]);
      live := live - {l[k]};
      contents := contents.(slots := contents.slots[ts := e[..k] + e[k + 1..]]);
      forall i | 0 <= i < SLOTS ensures SlotOk(i) {
        assert old(SlotOk(i));
      }
      forall n | n in live ensures Located(n) {
        assert old(Located(n));
      }
    }

    /** Lower the rotation of the k-th node of a slot list. */
    method LowerRotation(ts: nat, k: nat)
      requires Valid() && ts < SLOTS && SlotOk(ts) && k < |ListOf(slots[ts])| && ListOf(slots[ts])[k].rotation > 0
      modifies this`contents, live`rotation
      ensures Valid()
      ensures contents == old(contents).(slots := old(contents).slots[ts :=
                            old(contents).slots[ts][k :=
                              Entry(ListOf(slots[ts])[k], old(contents).slots[ts][k].rotation - 1)]])
    {
      var node := ListOf(slots[ts])[k];
      ghost var e := contents.slots[ts];
      assert SlotOk(ts);
      node.rotation := node.rotation - 1;
      contents := contents.(slots := contents.slots[ts := e[k := Entry(node, e[k].rotation - 1)]]);
      forall i | 0 <= i < SLOTS ensures SlotOk(i) {
        assert old(SlotOk(i)) && old(SlotOk(ts));
      }
      forall n | n in live ensures Located(n) {
        assert old(Located(n));
      }
    }

    /** The node goes to the slot the cursor reaches after the timeout's ticks. */
    method PlaceTimer(node: TimerNode, timeout: int)
      requires Valid() && node !in live
      modifies this`live, this`contents, slots, node`rotation, node`timeSlot
      ensures Valid() && live == old(live) + {node}
      ensures node.timeSlot == (curSlot + TicksOf(timeout)) % 600 && node.rotation == TicksOf(timeout) / 600
      ensures contents == PushBack(old(contents), node, TicksOf(timeout))
    {
      SlotForIs(curSlot, TicksOf(timeout));
      var ticks := TicksOf(timeout);
      var rotation := ticks / SLOTS;
      var ts := SlotFor(curSlot, ticks);
      Push(node, ts, rotation);
    }

    /** What is in the slot lists is live. */
    lemma EntriesAreLive()
      requires Valid()
      ensures AllIn(contents, live)
    {
      forall i, j | 0 <= i < SLOTS && 0 <= j < |contents.slots[i]| ensures contents.slots[i][j].id in live {
        assert SlotOk(i);
      }
    }

    method AddTimer(timeout: int) returns (node: TimerNode)
      requires Valid()
      modifies this`live, this`contents, slots
      ensures fresh(node) && Valid() && live == old(live) + {node}
      ensures node.timeSlot == (curSlot + TicksOf(timeout)) % 600 && node.rotation == TicksOf(timeout) / 600
      ensures Nowhere(old(contents), node) && contents == PushBack(old(contents), node, TicksOf(timeout))
    {
      EntriesAreLive();
      node := new TimerNode();
      NotLiveIsNowhere(contents, live, node);
      PlaceTimer(node, timeout);
    }

    /** Take a live timer out of its slot; null is ignored. */
    method Detach(timer: TimerNode?) returns (node: TimerNode?)
      requires Valid() && (timer != null ==> timer in live)
      modifies this`live, this`contents, slots
      ensures node == timer && Valid()
      ensures timer == null ==> live == old(live) && contents == old(contents)
      ensures timer != null ==> live == old(live) - {timer} && contents == Remove(old(contents), timer)
    {
      if timer == null {
        return null;
      }
      assert Located(timer) && SlotOk(timer.timeSlot);
      var ts := timer.timeSlot;
      if slots[ts] == None {
        assert false;
      }
      var l := ListOf(slots[ts]);
      var k :| 0 <= k < |l| && l[k] == timer;
      RemoveIsErase(timer, k);
      Erase(ts, k);
      node := timer;
    }

    /** In a valid wheel, removing a handle from everywhere is erasing one node from the list it names. */
    lemma {:induction false} RemoveIsErase(timer: TimerNode, k: nat)
      requires Valid() && timer in live && Located(timer) && SlotOk(timer.timeSlot)
      requires k < |ListOf(slots[timer.timeSlot])|
      requires ListOf(slots[timer.timeSlot])[k] == timer
      ensures var ts := timer.timeSlot;
        Remove(contents, timer) ==
          contents.(slots := contents.slots[ts := contents.slots[ts][..k] + contents.slots[ts][k + 1..]])
    {
      var ts := timer.timeSlot;
      forall i | 0 <= i < SLOTS
        ensures Dropped(contents.slots[i], timer) ==
          if i == ts then contents.slots[i][..k] + contents.slots[i][k + 1..] else contents.slots[i]
      {
        assert SlotOk(i);
        if i == ts {
          DroppedOnly(contents.slots[i], timer, k);
        } else {
          DroppedNone(contents.slots[i], timer);
        }
      }
    }

    method DelTimer(timer: TimerNode?)
      requires Valid() && (timer != null ==> timer in live)
      modifies this`live, this`contents, slots
      ensures Valid()
      ensures timer == null ==> live == old(live) && contents == old(contents)
      ensures timer != null ==> live == old(live) - {timer} && contents == Remove(old(contents), timer)
    {
      var node := Detach(timer);
    }

    method ResetTimer(timer: TimerNode?, timeout: int)
      requires Valid() && (timer != null ==> timer in live)
      modifies this`live, this`contents, slots, live`rotation, live`timeSlot
      ensures Valid() && live == old(live)
      ensures timer == null ==> contents == old(contents)
      ensures timer != null ==>
        timer.timeSlot == (curSlot + TicksOf(timeout)) % 600 && timer.rotation == TicksOf(timeout) / 600
      ensures timer != null ==> contents == PushBack(Remove(old(contents), timer), timer, TicksOf(timeout))
    {
      var node := Detach(timer);
      if node == null {
        return;
      }
      PlaceTimer(node, timeout);
    }

    /** What a pass does at one node of the slot under the cursor: lower its rotation and keep it, or
        fire and erase it. */
    method Examine(itr: nat) returns (due: bool, node: TimerNode)
      requires Valid() && itr < |contents.slots[curSlot]|
      modifies this`live, this`contents, slots, live`rotation
      ensures Valid()
      ensures var e := old(contents.slots[curSlot]);
        && node == e[itr].id && node in old(live) && due == (e[itr].rotation <= 0)
        && live == (if due then old(live) - {node} else old(live))
        && contents == old(contents).(slots := old(contents).slots[curSlot :=
             if due then e[..itr] + e[itr + 1..] else e[itr := Entry(e[itr].id, e[itr].rotation - 1)]])
    {
      assert SlotOk(curSlot);
      node := ListOf(slots[curSlot])[itr];
      due := node.rotation <= 0;
      if due {
        Erase(curSlot, itr);
      } else {
        LowerRotation(curSlot, itr);
      }
    }

    /** One turn of the loop that was intended. */
    method ExamineNext(itr: nat, fired: seq<TimerNode>) returns (next: nat, fired1: seq<TimerNode>, size: nat)
      requires Valid() && itr < |contents.slots[curSlot]|
      modifies this`live, this`contents, slots, live`rotation
      ensures Valid()
      ensures var l := contents.slots[curSlot];
        && contents == old(contents).(slots := old(contents).slots[curSlot := l])
        && next <= |l| == size && size - next < |old(contents).slots[curSlot]| - itr
        && SweepLeft(l, next, fired1) == SweepLeft(old(contents).slots[curSlot], itr, fired)
      ensures (fired1 == fired && live == old(live))
           || (exists n :: fired1 == fired + [n] && n in old(live) && live == old(live) - {n})
    {
      SweepStep(contents.slots[curSlot], itr, fired);
      var due, node := Examine(itr);
      fired1 := if due then fired + [node] else fired;
      next := if due then itr else itr + 1;
      size := Size(curSlot);
    }

    /** The tick as intended: one advance per node of the slot under the cursor. `fired` is the order of
        the callbacks. */
    method OneAdvanceTick() returns (fired: seq<TimerNode>)
      requires Valid()
      modifies this`live, this`contents, this`curSlot, slots, live`rotation
      ensures Valid()
      ensures (contents, fired) == WheelModel.Tick(old(contents))
      ensures live == old(live) - (set n | n in fired) && FiredOnce(fired, old(live))
      ensures curSlot == (old(curSlot) + 1) % 600
    {
      fired := [];
      var itr := 0;
      var size := Size(curSlot);
      while itr < size
        invariant Valid() && curSlot == old(curSlot)
        invariant live == old(live) - (set n | n in fired) && FiredOnce(fired, old(live))
        invariant itr <= size == |contents.slots[curSlot]|
        invariant contents == old(contents).(slots := old(contents).slots[curSlot := contents.slots[curSlot]])
        invariant SweepLeft(contents.slots[curSlot], itr, fired) == Sweep(old(contents.slots[curSlot]))
        decreases size - itr
      {
        itr, fired, size := ExamineNext(itr, fired);
      }
      SweepDone(contents.slots[curSlot], fired);
      AdvanceCursor();
    }

    /** One turn of the loop of the tick as it is written. */
    method ExamineSkipping(itr: nat, fired: seq<TimerNode>) returns (next: nat, fired1: seq<TimerNode>, size: nat)
      requires Valid() && itr < |contents.slots[curSlot]|
      modifies this`live, this`contents, slots, live`rotation
      ensures Valid()
      ensures var l := contents.slots[curSlot];
        && contents == old(contents).(slots := old(contents).slots[curSlot := l])
        && next <= |l| == size && size - next < |old(contents).slots[curSlot]| - itr
        && SkipLeft(l, next, fired1) == SkipLeft(old(contents).slots[curSlot], itr, fired)
      ensures (fired1 == fired && live == old(live))
           || (exists n :: fired1 == fired + [n] && n in old(live) && live == old(live) - {n})
    {
      SkipStep(contents.slots[curSlot], itr, fired);
      var due, node := Examine(itr);
      fired1 := if due then fired + [node] else fired;
      size := Size(curSlot);
      next := if itr < size then itr + 1 else itr;
    }

    /** The tick as it is written: after a node has fired, the one behind it is passed over; an advance past
        the end leaves the loop. */
    method Tick() returns (fired: seq<TimerNode>)
      requires Valid()
      modifies this`live, this`contents, this`curSlot, slots, live`rotation
      ensures Valid()
      ensures (contents, fired) == SkipTick(old(contents))
      ensures live == old(live) - (set n | n in fired) && FiredOnce(fired, old(live))
      ensures curSlot == (old(curSlot) + 1) % 600
    {
      fired := [];
      var itr := 0;
      var size := Size(curSlot);
      while itr < size
        invariant Valid() && curSlot == old(curSlot)
        invariant live == old(live) - (set n | n in fired) && FiredOnce(fired, old(live))
        invariant itr <= size == |contents.slots[curSlot]|
        invariant contents == old(contents).(slots := old(contents).slots[curSlot := contents.slots[curSlot]])
        invariant SkipLeft(contents.slots[curSlot], itr, fired) == SkipSweep(old(contents.slots[curSlot]))
        decreases size - itr
      {
        itr, fired, size := ExamineSkipping(itr, fired);
      }
      SkipDone(contents.slots[curSlot], fired);
      AdvanceCursor();
    }

    /** The destructor frees every live node, and none twice. */
    method Destroy() returns (freed: seq<TimerNode>)
      requires Valid()
      ensures forall n :: n in freed <==> n in live
      ensures forall j, k :: 0 <= j < k < |freed| ==> freed[j] != freed[k]
    {
      freed := [];
      for i := 0 to SLOTS
        invariant forall j :: 0 <= j < |freed| ==> freed[j] in live && freed[j].timeSlot < i
        invariant forall n :: n in live && Located(n) && n.timeSlot < i ==> n in freed
        invariant forall j, k :: 0 <= j < k < |freed| ==> freed[j] != freed[k]
      {
        assert SlotOk(i);
        var slotList := ListOf(slots[i]);
        freed := freed + slotList;
      }
      forall n | n in live ensures n in freed {
        assert Located(n);
      }
    }

    /** The number of nodes in a slot list. */
    method Size(i: nat) returns (n: nat)
      requires Valid() && i < SLOTS
      ensures n == |contents.slots[i]|
    {
      assert SlotOk(i);
      n := |ListOf(slots[i])|;
    }

    method AdvanceCursor()
      requires Valid()
      modifies this`curSlot, this`contents
      ensures Valid() && contents == old(contents).(cur := NextSlot(old(contents).cur))
    {
      curSlot := NextSlot(curSlot);
      contents := contents.(cur := curSlot);
      forall i | 0 <= i < SLOTS ensures SlotOk(i) {
        assert old(SlotOk(i));
      }
      forall n | n in live ensures Located(n) {
        assert old(Located(n));
      }
    }
  }

  ghost predicate AllIn<T>(w: Wheel<T>, live: set<T>)
    requires Shape(w)
  {
    forall i, j :: 0 <= i < SLOTS && 0 <= j < |w.slots[i]| ==> w.slots[i][j].id in live
  }

  lemma NotLiveIsNowhere<T>(w: Wheel<T>, live: set<T>, n: T)
    requires Shape(w) && AllIn(w, live) && n !in live
    ensures Nowhere(w, n)
  {
    forall i | 0 <= i < SLOTS ensures Meets(w.slots[i], n) == 0 {
      NeverMet(w.slots[i], n);
    }
  }

  lemma {:induction false} NeverMet<T>(l: seq<Entry<T>>, id: T)
    requires forall j :: 0 <= j < |l| ==> l[j].id != id
    ensures Meets(l, id) == 0
  {
    if l != [] {
      NeverMet(l[1..], id);
    }
  }

  /** What a pass that has come to position itr, having fired some nodes, will have done in the end. */
  ghost function SweepLeft<T>(l: seq<Entry<T>>, itr: nat, fired: seq<T>): Swept<T>
    requires itr <= |l|
  {
    Swept(fired + Sweep(l[itr..]).fired, l[..itr] + Sweep(l[itr..]).kept)
  }

  lemma {:induction false} SweepDone<T>(l: seq<Entry<T>>, fired: seq<T>)
    ensures SweepLeft(l, |l|, fired) == Swept(fired, l)
  {
  }

  lemma {:induction false} SweepStep<T>(l: seq<Entry<T>>, itr: nat, fired: seq<T>)
    requires itr < |l|
    ensures l[itr].rotation > 0 ==>
      SweepLeft(l[itr := Entry(l[itr].id, l[itr].rotation - 1)], itr + 1, fired) == SweepLeft(l, itr, fired)
    ensures l[itr].rotation <= 0 ==>
      SweepLeft(l[..itr] + l[itr + 1..], itr, fired + [l[itr].id]) == SweepLeft(l, itr, fired)
  {
    assert l[itr..][1..] == l[itr + 1..];
    if l[itr].rotation > 0 {
      var l1 := l[itr := Entry(l[itr].id, l[itr].rotation - 1)];
      assert l1[itr + 1..] == l[itr + 1..] && l1[..itr + 1] == l[..itr] + [l1[itr]];
    } else {
      var l1 := l[..itr] + l[itr + 1..];
      assert l1[itr..] == l[itr + 1..] && l1[..itr] == l[..itr];
    }
  }

  ghost function SkipLeft<T>(l: seq<Entry<T>>, itr: nat, fired: seq<T>): Swept<T>
    requires itr <= |l|
  {
    Swept(fired + SkipSweep(l[itr..]).fired, l[..itr] + SkipSweep(l[itr..]).kept)
  }

  lemma {:induction false} SkipDone<T>(l: seq<Entry<T>>, fired: seq<T>)
    ensures SkipLeft(l, |l|, fired) == Swept(fired, l)
  {
  }

  lemma {:induction false} SkipStep<T>(l: seq<Entry<T>>, itr: nat, fired: seq<T>)
    requires itr < |l|
    ensures l[itr].rotation > 0 ==>
      SkipLeft(l[itr := Entry(l[itr].id, l[itr].rotation - 1)], itr + 1, fired) == SkipLeft(l, itr, fired)
    ensures l[itr].rotation <= 0 ==>
      var l1 := l[..itr] + l[itr + 1..];
      SkipLeft(l1, if itr < |l1| then itr + 1 else itr, fired + [l[itr].id]) == SkipLeft(l, itr, fired)
  {
    assert l[itr..][1..] == l[itr + 1..];
    if l[itr].rotation > 0 {
      var l1 := l[itr := Entry(l[itr].id, l[itr].rotation - 1)];
      assert l1[itr + 1..] == l[itr + 1..] && l1[..itr + 1] == l[..itr] + [l1[itr]];
    } else {
      var l1 := l[..itr] + l[itr + 1..];
      if itr < |l1| {
        assert l[itr..][2..] == l[itr + 2..] == l1[itr + 1..] && l1[..itr + 1] == l[..itr] + [l[itr + 1]];
      } else {
        assert l1 == l[..itr] && l1[itr..] == [] && l1[..itr] == l1;
      }
    }
  }

  lemma {:induction false} DroppedNone<T>(e: seq<Entry<T>>, id: T)
    requires forall j :: 0 <= j < |e| ==> e[j].id != id
    ensures Dropped(e, id) == e
  {
    if e != [] {
      DroppedNone(e[1..], id);
    }
  }

  lemma {:induction false} DroppedOnly<T>(e: seq<Entry<T>>, id: T, k: nat)
    requires k < |e| && e[k].id == id
    requires forall j :: 0 <= j < |e| && j != k ==> e[j].id != id
    ensures Dropped(e, id) == e[..k] + e[k + 1..]
  {
    if k == 0 {
      DroppedNone(e[1..], id);
    } else {
      DroppedOnly(e[1..], id, k - 1);
      assert e[..k] == [e[0]] + e[1..][..k - 1] && e[k + 1..] == e[1..][k..];
    }
  }
}
