/** One round of the wheel-based server (timer/test.cpp) on values: what ready descriptors do to the connections,
    their modes and the wheel. */
module ServerRounds {
  import opened Wrappers
  import opened StableQueue
  import opened WheelModel
  import opened WheelRuns
  import opened SkippingWheel
  import opened FlatWheel
  import opened ServerRuns
  import opened TimingWheel

  datatype Mode = In | Out

  class Event {
    const fd: nat
    var mode: Mode // the events asked for: reading or writing
    var timer: TimerNode?

    constructor (fd: nat)
      ensures this.fd == fd && mode == In && timer == null
    {
      this.fd := fd;
      mode, timer := In, null;
    }
  }

  /** Connections that were live, each once. */
  ghost predicate ClosedOnce(closed: seq<Event>, live: set<Event>) {
    && (forall i :: 0 <= i < |closed| ==> closed[i] in live)
    && (forall i, j :: 0 <= i < j < |closed| ==> closed[i] != closed[j])
  }

  // ---------- connections and their sockets ----------

  ghost predicate Apart(a: Event, b: Event) {
    a.fd != b.fd
  }

  ghost predicate HasConn(fd: nat, conns: set<Event>) {
    exists ev :: ev in conns && ev.fd == fd
  }

  ghost predicate IsOpen(ev: Event, open: set<nat>) {
    ev.fd in open
  }

  /** The open sockets are those of the live connections, and no two connections have the same. */
  ghost predicate Sockets(conns: set<Event>, open: set<nat>) {
    && (forall a, b {:trigger Apart(a, b)} :: a in conns && b in conns && a != b ==> Apart(a, b))
    && (forall ev {:trigger IsOpen(ev, open)} :: ev in conns ==> IsOpen(ev, open))
    && (forall fd {:trigger HasConn(fd, conns)} :: fd in open ==> HasConn(fd, conns))
  }

  ghost function FdsOf(evs: seq<Event>): set<nat> {
    set i | 0 <= i < |evs| :: evs[i].fd
  }

  lemma SocketsJoin(conns: set<Event>, open: set<nat>, ev: Event)
    requires Sockets(conns, open) && ev.fd !in open
    ensures Sockets(conns + {ev}, open + {ev.fd})
  {
    var conns1, open1 := conns + {ev}, open + {ev.fd};
    forall a, b | a in conns1 && b in conns1 && a != b ensures Apart(a, b) {
      assert a in conns ==> IsOpen(a, open);
      assert b in conns ==> IsOpen(b, open);
      assert a in conns && b in conns ==> Apart(a, b);
    }
    forall c | c in conns1 ensures IsOpen(c, open1) {
      assert c in conns ==> IsOpen(c, open);
    }
    forall fd | fd in open1 ensures HasConn(fd, conns1) {
      if fd == ev.fd {
        assert ev in conns1;
      } else {
        assert HasConn(fd, conns);
        var c :| c in conns && c.fd == fd;
        assert c in conns1;
      }
    }
  }

  lemma SocketsLeave(conns: set<Event>, open: set<nat>, ev: Event)
    requires Sockets(conns, open) && ev in conns
    ensures Sockets(conns - {ev}, open - {ev.fd})
  {
    var conns1, open1 := conns - {ev}, open - {ev.fd};
    forall a, b | a in conns1 && b in conns1 && a != b ensures Apart(a, b) {
    }
    forall c | c in conns1 ensures IsOpen(c, open1) {
      assert IsOpen(c, open) && Apart(c, ev);
    }
    forall fd | fd in open1 ensures HasConn(fd, conns1) {
      assert HasConn(fd, conns);
      var c :| c in conns && c.fd == fd;
      assert c in conns1;
    }
  }

  lemma FdsSnoc(evs: seq<Event>, ev: Event)
    ensures FdsOf(evs + [ev]) == FdsOf(evs) + {ev.fd}
  {
    var a := evs + [ev];
    assert a[|evs|] == ev && forall i :: 0 <= i < |evs| ==> a[i] == evs[i];
  }

  /** A successful accept returns a socket that is not open. */
  predicate Possible(r: Ready, open: set<nat>) {
    r.Listener? && r.client.Some? ==> r.client.value !in open
  }

  /** The open sockets when a ready descriptor has been handled, its connection being in the mode given: an accepted
      one is added, one at the end of its stream is closed. */
  ghost function OpenAfter(r: Ready, modes: map<Event, Mode>, open: set<nat>): set<nat> {
    match r
    case Listener(client) => if client.Some? then open + {client.value} else open
    case Conn(ev, size) => if ev in modes && modes[ev] == In && size == 0 then open - {ev.fd} else open
  }

  ghost function OpenAfterAll(batch: seq<Ready>, modes: map<Event, Mode>, open: set<nat>): set<nat>
    decreases batch
  {
    if batch == [] then open else OpenAfterAll(batch[1..], modes, OpenAfter(batch[0], modes, open))
  }

  /** So it is when its turn comes. */
  ghost predicate PossibleBatch(batch: seq<Ready>, modes: map<Event, Mode>, open: set<nat>)
    decreases batch
  {
    batch == [] ||
    (Possible(batch[0], open) && PossibleBatch(batch[1..], modes, OpenAfter(batch[0], modes, open)))
  }

  // ---------- one ready descriptor ----------

  function Flipped(mode: Mode): Mode {
    if mode == In then Out else In
  }

  /** What the wheel sees of a ready connection: a write, the end of its stream, or a read. */
  function ConnEvent<T>(timer: T, mode: Mode, size: int): ServerEvent<T> {
    if mode == Out then Written(timer)
    else if size == 0 then HungUp(timer)
    else Readable(timer)
  }

  /** The connections that were there when a round began still have the timers they had. */
  ghost predicate KeepTimers(timers: map<Event, TimerNode>)
    reads timers.Keys`timer
  {
    forall ev :: ev in timers ==> ev.timer == timers[ev]
  }

  ghost predicate Injective(timers: map<Event, TimerNode>) {
    forall a, b :: a in timers && b in timers && a != b ==> timers[a] != timers[b]
  }

  ghost predicate Joins(ev: Event, modes: map<Event, Mode>, modes1: map<Event, Mode>) {
    ev !in modes && modes1 == modes[ev := In]
  }

  /** One object has been added to a set. */
  ghost predicate OneMore(s: set<Event>, s1: set<Event>) {
    exists ev :: ev in s1 && ev !in s && s1 == s + {ev}
  }

  /** What one ready descriptor does to the connections and their modes: a hung up one goes, any other changes
      its mode, an accepted one comes in mode In. */
  ghost predicate Stepped(modes: map<Event, Mode>, timers: map<Event, TimerNode>, r: Ready,
                          e: ServerEvent<TimerNode>, modes1: map<Event, Mode>) {
    match r
    case Conn(ev, size) =>
      && ev in modes && ev in timers && e == ConnEvent(timers[ev], modes[ev], size)
      && modes1 == if e.HungUp? then modes - {ev} else modes[ev := Flipped(modes[ev])]
    case Listener(client) =>
      if client.None? then e == Missed && modes1 == modes
      else e.Accepted? && exists ev :: ev in modes1 && Joins(ev, modes, modes1)
  }

  /** What handling some ready descriptors has done to the connections there were, with modes `was`: a
      connection is gone if it was hung up, its mode is flipped if it was ready and is otherwise unchanged, and
      its timer has been left alone if it was not ready. No other connection there was has come or gone. */
  ghost predicate Handled(was: map<Event, Mode>, timers: map<Event, TimerNode>, modes: map<Event, Mode>,
                          ready: seq<Ready>, es: seq<ServerEvent<TimerNode>>) {
    forall ev {:trigger HandledAt(ev, was, timers, modes, ready, es)} :: ev in was ==>
      HandledAt(ev, was, timers, modes, ready, es)
  }

  ghost predicate HandledAt(ev: Event, was: map<Event, Mode>, timers: map<Event, TimerNode>, modes: map<Event, Mode>,
                            ready: seq<Ready>, es: seq<ServerEvent<TimerNode>>)
    requires ev in was
  {
    && (ev in modes <==> !(was[ev] == In && Conn(ev, 0) in ready))
    && (ev in modes ==> modes[ev] == if IsReady(ev, ready) then Flipped(was[ev]) else was[ev])
    && (!IsReady(ev, ready) ==> ev in timers && AllIgnore(es, timers[ev]))
  }

  /** The event of a ready connection is the one its mode calls for; a failed accept is missed. */
  ghost predicate Answers(r: Ready, e: ServerEvent<TimerNode>, was: map<Event, Mode>, timers: map<Event, TimerNode>) {
    match r
    case Listener(client) => if client.None? then e == Missed else e.Accepted?
    case Conn(ev, size) => ev in was && ev in timers && e == ConnEvent(timers[ev], was[ev], size)
  }

  /** One event for each ready descriptor, in order. */
  ghost predicate AllAnswered(ready: seq<Ready>, es: seq<ServerEvent<TimerNode>>,
                              was: map<Event, Mode>, timers: map<Event, TimerNode>) {
    |es| == |ready|
    && forall i {:trigger Answers(ready[i], es[i], was, timers)} :: 0 <= i < |ready| ==>
         Answers(ready[i], es[i], was, timers)
  }

  lemma AnsweredSnoc(ready: seq<Ready>, r: Ready, es: seq<ServerEvent<TimerNode>>, e: ServerEvent<TimerNode>,
                     was: map<Event, Mode>, timers: map<Event, TimerNode>)
    requires AllAnswered(ready, es, was, timers) && Answers(r, e, was, timers)
    ensures AllAnswered(ready + [r], es + [e], was, timers)
  {
    var a, b := ready + [r], es + [e];
    forall i | 0 <= i < |a| ensures Answers(a[i], b[i], was, timers) {
      assert i < |ready| ==> Answers(ready[i], es[i], was, timers);
    }
  }

  lemma NotReadyIsLive(was: map<Event, Mode>, timers: map<Event, TimerNode>, modes: map<Event, Mode>,
                       ready: seq<Ready>, es: seq<ServerEvent<TimerNode>>, ev: Event)
    requires Handled(was, timers, modes, ready, es) && ev in was && !IsReady(ev, ready)
    ensures ev in modes && modes[ev] == was[ev]
  {
    assert HandledAt(ev, was, timers, modes, ready, es);
    assert forall i :: 0 <= i < |ready| ==> !(ready[i].Conn? && ready[i].ev == ev);
  }

  lemma HandledStep(was: map<Event, Mode>, timers: map<Event, TimerNode>, modes: map<Event, Mode>,
                    now: map<Event, TimerNode>, modes1: map<Event, Mode>, ready: seq<Ready>, r: Ready,
                    es: seq<ServerEvent<TimerNode>>, e: ServerEvent<TimerNode>)
    requires Handled(was, timers, modes, ready, es) && was.Keys == timers.Keys && Injective(timers)
    requires Stepped(modes, now, r, e, modes1)
    requires r.Conn? ==> r.ev in was && now[r.ev] == timers[r.ev] && !IsReady(r.ev, ready)
    requires r.Listener? ==> forall ev :: ev in was && ev !in modes ==> ev !in modes1
    requires e.Accepted? ==> forall ev :: ev in timers ==> timers[ev] != e.c
    ensures Handled(was, timers, modes1, ready + [r], es + [e]) && Answers(r, e, was, timers)
  {
    forall ev | ev in was ensures HandledAt(ev, was, timers, modes1, ready + [r], es + [e]) {
      assert HandledAt(ev, was, timers, modes, ready, es);
      ReadySnoc(ev, ready, r);
      if !IsReady(ev, ready + [r]) {
        assert Ignores(e, timers[ev]);
      }
    }
    if r.Conn? {
      NotReadyIsLive(was, timers, modes, ready, es, r.ev);
    }
  }

  ghost predicate IsReady(ev: Event, batch: seq<Ready>) {
    exists i :: 0 <= i < |batch| && batch[i].Conn? && batch[i].ev == ev
  }

  ghost predicate EachOnce(batch: seq<Ready>) {
    forall i, j :: 0 <= i < j < |batch| && batch[i].Conn? && batch[j].Conn? ==> batch[i].ev != batch[j].ev
  }

  lemma NotYetReady(batch: seq<Ready>, i: nat)
    requires EachOnce(batch) && i < |batch|
    ensures batch[i].Conn? ==> !IsReady(batch[i].ev, batch[..i])
    ensures forall j :: i < j < |batch| && batch[j].Conn? ==> !(batch[i].Conn? && batch[i].ev == batch[j].ev)
  {
  }

  lemma ReadySnoc(ev: Event, ready: seq<Ready>, r: Ready)
    ensures IsReady(ev, ready + [r]) <==> IsReady(ev, ready) || (r.Conn? && r.ev == ev)
    ensures Conn(ev, 0) in ready + [r] <==> Conn(ev, 0) in ready || r == Conn(ev, 0)
    ensures Conn(ev, 0) in ready ==> IsReady(ev, ready)
  {
    var a := ready + [r];
    assert a[|ready|] == r;
    if IsReady(ev, ready) {
      var i :| 0 <= i < |ready| && ready[i].Conn? && ready[i].ev == ev;
      assert a[i] == ready[i];
    }
  }

  // ---------- a round, descriptor by descriptor ----------

  /** What there was when the round began. */
  datatype RoundStart = RoundStart(modes: map<Event, Mode>, timers: map<Event, TimerNode>, open: set<nat>,
                                   wheel: Wheel<TimerNode>)

  ghost predicate StartOk(b: RoundStart, batch: seq<Ready>) {
    && b.modes.Keys == b.timers.Keys && Injective(b.timers) && Shape(b.wheel) && EachOnce(batch)
    && forall i :: 0 <= i < |batch| && batch[i].Conn? ==> batch[i].ev in b.modes
  }

  /** The first i descriptors have been handled, as the events es. */
  ghost predicate SoFar(b: RoundStart, batch: seq<Ready>, i: nat, es: seq<ServerEvent<TimerNode>>,
                        modes: map<Event, Mode>, open: set<nat>, w: Wheel<TimerNode>) {
    && i <= |batch| && Shape(b.wheel)
    && Handled(b.modes, b.timers, modes, batch[..i], es)
    && AllAnswered(batch[..i], es, b.modes, b.timers)
    && PossibleBatch(batch[i..], b.modes, open)
    && OpenAfterAll(batch[i..], b.modes, open) == OpenAfterAll(batch, b.modes, b.open)
    && FreshAccepts(b.wheel, es) && w == WheelAfter(b.wheel, es)
  }

  lemma SoFarNothing(b: RoundStart, batch: seq<Ready>)
    requires StartOk(b, batch) && PossibleBatch(batch, b.modes, b.open)
    ensures SoFar(b, batch, 0, [], b.modes, b.open, b.wheel)
  {
    assert batch[0..] == batch && batch[..0] == [];
    forall ev | ev in b.modes ensures HandledAt(ev, b.modes, b.timers, b.modes, [], []) {
    }
  }

  lemma SoFarAll(b: RoundStart, batch: seq<Ready>, es: seq<ServerEvent<TimerNode>>,
                 modes: map<Event, Mode>, open: set<nat>, w: Wheel<TimerNode>)
    requires SoFar(b, batch, |batch|, es, modes, open, w)
    ensures Handled(b.modes, b.timers, modes, batch, es) && AllAnswered(batch, es, b.modes, b.timers)
    ensures open == OpenAfterAll(batch, b.modes, b.open)
    ensures FreshAccepts(b.wheel, es) && w == WheelAfter(b.wheel, es)
  {
    assert batch[..|batch|] == batch && batch[|batch|..] == [];
  }

  lemma NextIsReady(b: RoundStart, batch: seq<Ready>, i: nat, es: seq<ServerEvent<TimerNode>>,
                    modes: map<Event, Mode>, open: set<nat>, w: Wheel<TimerNode>)
    requires StartOk(b, batch) && i < |batch| && SoFar(b, batch, i, es, modes, open, w)
    ensures |es| == i && Possible(batch[i], open)
    ensures batch[i].Conn? ==>
      && batch[i].ev in b.modes && batch[i].ev in modes && modes[batch[i].ev] == b.modes[batch[i].ev]
      && !IsReady(batch[i].ev, batch[..i])
  {
    NotYetReady(batch, i);
    assert batch[i..][0] == batch[i];
    if batch[i].Conn? {
      NotReadyIsLive(b.modes, b.timers, modes, batch[..i], es, batch[i].ev);
    }
  }

  lemma SoFarStep(b: RoundStart, batch: seq<Ready>, i: nat, es: seq<ServerEvent<TimerNode>>, e: ServerEvent<TimerNode>,
                  modes: map<Event, Mode>, timers: map<Event, TimerNode>, open: set<nat>, w: Wheel<TimerNode>,
                  modes1: map<Event, Mode>)
    requires StartOk(b, batch) && i < |batch| && SoFar(b, batch, i, es, modes, open, w) && Shape(w)
    requires Stepped(modes, timers, batch[i], e, modes1) && FreshAccepts(w, [e])
    requires batch[i].Conn? ==> timers[batch[i].ev] == b.timers[batch[i].ev]
    requires batch[i].Listener? ==> forall ev :: ev in b.timers && ev !in modes ==> ev !in modes1
    requires e.Accepted? ==> forall ev :: ev in b.timers ==> b.timers[ev] != e.c
    ensures SoFar(b, batch, i + 1, es + [e], modes1, OpenAfter(batch[i], modes, open), WheelAfter(w, [e]))
  {
    var r := batch[i];
    NextIsReady(b, batch, i, es, modes, open, w);
    assert batch[..i + 1] == batch[..i] + [r] && batch[i..][0] == r && batch[i..][1..] == batch[i + 1..];
    HandledStep(b.modes, b.timers, modes, timers, modes1, batch[..i], r, es, e);
    AnsweredSnoc(batch[..i], r, es, e, b.modes, b.timers);
    Recorded(b.wheel, es, [e]);
    assert OpenAfter(r, modes, open) == OpenAfter(r, b.modes, open);
  }

  /** More events at the end of a history. */
  lemma Recorded(w: Wheel<TimerNode>, h: seq<ServerEvent<TimerNode>>, es: seq<ServerEvent<TimerNode>>)
    requires Shape(w) && FreshAccepts(w, h) && FreshAccepts(WheelAfter(w, h), es)
    ensures FreshAccepts(w, h + es) && WheelAfter(w, h + es) == WheelAfter(WheelAfter(w, h), es)
  {
    FreshConcat(w, h, es);
    AfterConcat(w, h, es);
  }

  /** What a new timer, a failed accept and a ready connection do to the wheel, as events of its history. */
  lemma AcceptedOnWheel<T>(w: Wheel<T>, timer: T)
    requires Shape(w) && Nowhere(w, timer)
    ensures WheelAfter(w, [Accepted(timer)]) == PushBack(w, timer, TicksOf(CLIENT_TIMEOUT))
    ensures FreshAccepts(w, [Accepted(timer)])
  {
    AfterOne(w, Accepted(timer));
    FreshOne(w, Accepted(timer));
  }

  lemma MissedOnWheel<T>(w: Wheel<T>)
    requires Shape(w)
    ensures WheelAfter(w, [Missed]) == w && FreshAccepts(w, [Missed])
  {
    AfterOne(w, Missed);
    FreshOne(w, Missed);
  }

  lemma ConnOnWheel<T>(w: Wheel<T>, timer: T, mode: Mode, size: int)
    requires Shape(w)
    ensures var e := ConnEvent(timer, mode, size);
      && FreshAccepts(w, [e])
      && WheelAfter(w, [e]) ==
           if mode == Out then PushBack(Remove(w, timer), timer, TicksOf(CLIENT_TIMEOUT))
           else if size == 0 then Remove(w, timer)
           else w
  {
    var e := ConnEvent(timer, mode, size);
    AfterOne(w, e);
    FreshOne(w, e);
  }

  /** One ready descriptor: the listener with the outcome of accept, or a connection with what a read would
      return. */
  datatype Ready = Listener(client: Option<nat>) | Conn(ev: Event, size: int)
}
