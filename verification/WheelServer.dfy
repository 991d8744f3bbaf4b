/** The wheel-based server (timer/test.cpp): connection objects and their timers live and die together. */
module WheelServer {
  import opened Wrappers
  import opened StableQueue
  import opened WheelModel
  import opened WheelRuns
  import opened SkippingWheel
  import opened FlatWheel
  import opened ServerRuns
  import opened TimingWheel
  import opened ServerRounds

  class WheelServer {
    const htc: TWTimerContainer
    ghost var conns: set<Event>  // connection objects that are live and registered
    ghost var open: set<nat>     // client sockets that are open
    ghost var leaked: set<Event> // objects left behind by failed accepts
    ghost var history: seq<ServerEvent<TimerNode>> // all rounds so far, as the wheel sees them

    /** Live connections and live timers belong to each other one to one, and so do live connections and open
        client sockets. */
    ghost predicate Matched()
      reads this`conns, this`open, this`leaked, conns`timer, htc, htc.slots, htc.live
    {
      && htc.Valid() && conns !! leaked && Sockets(conns, open)
      && (forall ev {:trigger HasTimer(ev)} :: ev in conns ==> HasTimer(ev))
      && (forall n {:trigger HasOwner(n)} :: n in htc.live ==> HasOwner(n))
    }

    /** And the wheel is what the server's history makes of an empty one. */
    ghost predicate Valid()
      reads this, conns`timer, htc, htc.slots, htc.live
    {
      Matched() && FreshAccepts(Empty(), history) && htc.contents == WheelAfter(Empty(), history)
    }

    ghost predicate HasTimer(ev: Event)
      reads ev`timer, htc`live, htc.live`userData
    {
      ev.timer != null && ev.timer in htc.live && ev.timer.userData == ev
    }

    ghost predicate HasOwner(n: TimerNode)
      reads this`conns, n`userData, conns`timer
    {
      n.userData is Event && n.userData as Event in conns && (n.userData as Event).timer == n
    }

    constructor ()
      ensures Valid() && conns == {} && open == {} && leaked == {} && history == [] && fresh(htc) && fresh(htc.slots)
      ensures htc.contents == Empty() && htc.live == {}
    {
      htc := new TWTimerContainer();
      conns, open, leaked, history := {}, {}, {}, [];
    }

    /** Accept: the object is allocated first, and stays behind if the accept fails. */
    method AcceptConn(client: Option<nat>) returns (ev: Event)
      requires Matched() && (client.Some? ==> client.value !in open)
      modifies this`conns, this`open, this`leaked, htc`live, htc`contents, htc.slots
      ensures Matched() && fresh(ev)
      ensures client.None? ==>
        && conns == old(conns) && open == old(open) && leaked == old(leaked) + {ev}
        && htc.live == old(htc.live) && htc.contents == old(htc.contents)
      ensures client.Some? ==>
        && conns == old(conns) + {ev} && leaked == old(leaked) && ev.mode == In
        && ev.fd == client.value && open == old(open) + {client.value}
        && ev.timer != null && htc.live == old(htc.live) + {ev.timer} && fresh(ev.timer)
        && Nowhere(old(htc.contents), ev.timer)
        && htc.contents == PushBack(old(htc.contents), ev.timer, TicksOf(CLIENT_TIMEOUT))
    {
      ev := new Event(if client.Some? then client.value else 0);
      if client.None? {
        leaked := leaked + {ev};
      } else {
        Join(ev);
      }
    }

    /** A new connection gets its timer; the two are tied to each other. */
    method Join(ev: Event)
      requires Matched() && ev !in conns && ev !in leaked && ev.fd !in open
      requires forall n :: n in htc.live ==> n.userData != ev
      modifies this`conns, this`open, ev`timer, htc`live, htc`contents, htc.slots
      ensures Matched() && conns == old(conns) + {ev} && open == old(open) + {ev.fd}
      ensures ev.timer != null && htc.live == old(htc.live) + {ev.timer} && fresh(ev.timer)
      ensures Nowhere(old(htc.contents), ev.timer)
      ensures htc.contents == PushBack(old(htc.contents), ev.timer, TicksOf(CLIENT_TIMEOUT))
    {
      assert forall c :: c in conns ==> HasTimer(c);
      assert forall n :: n in htc.live ==> HasOwner(n);
      var timer := htc.AddTimer(CLIENT_TIMEOUT);
      timer.userData := ev;
      ev.timer := timer;
      SocketsJoin(conns, open, ev);
      conns := conns + {ev};
      open := open + {ev.fd};
      JoinedIsMatched(ev, timer, old(conns), old(htc.live));
    }

    lemma {:induction false} JoinedIsMatched(ev: Event, timer: TimerNode, before: set<Event>, live: set<TimerNode>)
      requires htc.Valid() && htc.live == live + {timer} && conns == before + {ev} && timer !in live
      requires conns !! leaked && Sockets(conns, open) && ev.timer == timer && timer.userData == ev
      requires forall c :: c in before ==> c.timer != null && c.timer in live && c.timer.userData == c
      requires forall n :: n in live ==>
        n.userData is Event && n.userData as Event in before && (n.userData as Event).timer == n
      ensures Matched()
    {
      forall c | c in conns ensures HasTimer(c) {
      }
      forall n | n in htc.live ensures HasOwner(n) {
      }
    }

    /** A readable connection: on end of stream its timer and itself are deleted, otherwise (also on an
        error) it is switched to writing. */
    method ReadData(ev: Event, size: int)
      requires Matched() && ev in conns
      modifies this`conns, this`open, ev`mode, htc`live, htc`contents, htc.slots
      ensures Matched() && leaked == old(leaked) && ev.timer != null
      ensures size == 0 ==>
        && conns == old(conns) - {ev} && open == old(open) - {ev.fd} && htc.live == old(htc.live) - {ev.timer}
        && htc.contents == Remove(old(htc.contents), ev.timer)
      ensures size != 0 ==>
        && conns == old(conns) && open == old(open) && ev.mode == Out
        && htc.live == old(htc.live) && htc.contents == old(htc.contents)
    {
      assert HasTimer(ev);
      if size == 0 {
        htc.DelTimer(ev.timer);
        SocketsLeave(conns, open, ev);
        open := open - {ev.fd};
        conns := conns - {ev};
        forall c | c in conns ensures HasTimer(c) {
          assert old(HasTimer(c));
        }
        forall n | n in htc.live ensures HasOwner(n) {
          assert old(HasOwner(n));
        }
        return;
      }
      ev.mode := Out;
    }

    /** A writable connection: back to reading, with a fresh timeout. */
    method WriteData(ev: Event)
      requires Matched() && ev in conns
      modifies ev`mode, htc`live, htc`contents, htc.slots, htc.live`rotation, htc.live`timeSlot
      ensures Matched() && ev.mode == In && htc.live == old(htc.live) && ev.timer != null
      ensures htc.contents == PushBack(Remove(old(htc.contents), ev.timer), ev.timer, TicksOf(CLIENT_TIMEOUT))
    {
      assert HasTimer(ev);
      ev.mode := In;
      htc.ResetTimer(ev.timer, CLIENT_TIMEOUT);
    }

    /** The timeout callbacks of fired timers: each closes and deletes the connection it was set up with, which
        is still live when its turn comes; none is deleted twice. */
    method CloseFired(fired: seq<TimerNode>) returns (closed: seq<Event>)
      requires forall i :: 0 <= i < |fired| ==> HasOwner(fired[i])
      requires Sockets(conns, open) && forall i, j :: 0 <= i < j < |fired| ==> fired[i] != fired[j]
      modifies this`conns, this`open
      ensures Sockets(conns, open) && open == old(open) - FdsOf(closed)
      ensures |closed| == |fired| && forall i :: 0 <= i < |closed| ==> closed[i] == fired[i].userData
      ensures ClosedOnce(closed, old(conns)) && conns == old(conns) - (set ev | ev in closed)
    {
      closed := [];
      while |closed| < |fired|
        invariant |closed| <= |fired| && forall i :: 0 <= i < |closed| ==> closed[i] == fired[i].userData
        invariant ClosedOnce(closed, old(conns)) && conns == old(conns) - (set ev | ev in closed)
        invariant Sockets(conns, open) && open == old(open) - FdsOf(closed)
        invariant forall i :: 0 <= i < |fired| ==> old(HasOwner(fired[i]))
      {
        assert old(HasOwner(fired[|closed|]));
        var cli := fired[|closed|].userData as Event;
        forall i | 0 <= i < |closed| ensures closed[i] != cli {
          assert old(HasOwner(fired[i]));
        }
        assert cli in conns;
        SocketsLeave(conns, open, cli);
        FdsSnoc(closed, cli);
        closed := closed + [cli];
        open := open - {cli.fd};
        conns := conns - {cli};
      }
    }

    /** After a tick that has fired some timers, whose connections are closed, the rest still match. */
    lemma {:induction false} RestIsMatched(fired: seq<TimerNode>, closed: seq<Event>,
                                           live: set<TimerNode>, before: set<Event>)
      requires htc.Valid() && htc.live == live - (set n | n in fired) && conns == before - (set ev | ev in closed)
      requires conns !! leaked && Sockets(conns, open) && |closed| == |fired|
      requires forall i :: 0 <= i < |closed| ==> closed[i] == fired[i].userData
      requires forall ev :: ev in before ==> ev.timer != null && ev.timer in live && ev.timer.userData == ev
      requires forall n :: n in live ==>
        n.userData is Event && n.userData as Event in before && (n.userData as Event).timer == n
      requires FiredOnce(fired, live)
      ensures Matched()
    {
      assert forall i :: 0 <= i < |fired| ==> fired[i].userData == closed[i] && closed[i] in closed;
      forall ev | ev in conns ensures HasTimer(ev) {
      }
      forall n | n in htc.live ensures HasOwner(n) {
      }
    }

    /** A round of the main loop in which nothing was ready: one tick of the wheel, as it is written, and
        the callbacks of the timers it fires. */
    method QuietRound() returns (closed: seq<Event>, ghost fired: seq<TimerNode>)
      requires Valid()
      modifies this`conns, this`open, this`history, htc`live, htc`contents, htc`curSlot, htc.slots, htc.live`rotation
      ensures Valid() && history == old(history) + [Quiet]
      ensures (htc.contents, fired) == SkipTick(old(htc.contents))
      ensures |closed| == |fired| && forall i :: 0 <= i < |closed| ==> closed[i] == fired[i].userData
      ensures ClosedOnce(closed, old(conns)) && conns == old(conns) - (set ev | ev in closed)
      ensures open == old(open) - FdsOf(closed)
    {
      FreshOne(htc.contents, Quiet);
      AfterOne(htc.contents, Quiet);
      Recorded(Empty(), history, [Quiet]);
      closed, fired := TickAndClose();
      history := history + [Quiet];
    }

    method TickAndClose() returns (closed: seq<Event>, ghost fired: seq<TimerNode>)
      requires Matched()
      modifies this`conns, this`open, htc`live, htc`contents, htc`curSlot, htc.slots, htc.live`rotation
      ensures Matched() && (htc.contents, fired) == SkipTick(old(htc.contents))
      ensures |closed| == |fired| && forall i :: 0 <= i < |closed| ==> closed[i] == fired[i].userData
      ensures ClosedOnce(closed, old(conns)) && conns == old(conns) - (set ev | ev in closed)
      ensures open == old(open) - FdsOf(closed)
    {
      assert forall ev :: ev in conns ==> HasTimer(ev);
      assert forall n :: n in htc.live ==> HasOwner(n);
      var gone := htc.Tick();
      fired := gone;
      closed := CloseFired(gone);
      RestIsMatched(gone, closed, old(htc.live), old(conns));
    }

    /** The same round with the traversal that was intended. */
    method IntendedQuietRound() returns (closed: seq<Event>, ghost fired: seq<TimerNode>)
      requires Matched()
      modifies this`conns, this`open, htc`live, htc`contents, htc`curSlot, htc.slots, htc.live`rotation
      ensures Matched() && (htc.contents, fired) == WheelModel.Tick(old(htc.contents))
      ensures |closed| == |fired| && forall i :: 0 <= i < |closed| ==> closed[i] == fired[i].userData
      ensures ClosedOnce(closed, old(conns)) && conns == old(conns) - (set ev | ev in closed)
      ensures open == old(open) - FdsOf(closed)
    {
      assert forall ev :: ev in conns ==> HasTimer(ev);
      assert forall n :: n in htc.live ==> HasOwner(n);
      var gone := htc.OneAdvanceTick();
      fired := gone;
      closed := CloseFired(gone);
      RestIsMatched(gone, closed, old(htc.live), old(conns));
    }

    /** The connections with the modes they are in, and with their timers. */
    ghost function Modes(): map<Event, Mode>
      reads this`conns, conns`mode
    {
      map ev | ev in conns :: ev.mode
    }

    ghost function Timers(): map<Event, TimerNode>
      reads this`conns, conns`timer
    {
      map ev | ev in conns && ev.timer != null :: ev.timer
    }

    lemma TimersAreMatched()
      requires Matched()
      ensures Timers().Keys == conns && Injective(Timers())
      ensures forall ev :: ev in conns ==> ev.timer != null && Timers()[ev] == ev.timer && ev.timer in htc.live
    {
      forall ev | ev in conns ensures ev.timer != null && ev.timer in htc.live {
        assert HasTimer(ev);
      }
      forall a, b | a in conns && b in conns && a != b ensures a.timer != b.timer {
        assert HasTimer(a) && HasTimer(b);
      }
    }

    /** A ready connection, by the mode it is in. `e` is what the wheel sees of it. */
    method HandleConn(ev: Event, size: int) returns (ghost e: ServerEvent<TimerNode>)
      requires Matched() && ev in conns
      modifies this`conns, this`open, ev`mode, htc`live, htc`contents, htc.slots, htc.live`rotation, htc.live`timeSlot
      ensures Matched() && leaked == old(leaked) && conns <= old(conns) && htc.live <= old(htc.live)
      ensures open == OpenAfter(Conn(ev, size), old(Modes()), old(open))
      ensures Stepped(old(Modes()), old(Timers()), Conn(ev, size), e, Modes())
      ensures htc.contents == WheelAfter(old(htc.contents), [e]) && FreshAccepts(old(htc.contents), [e])
    {
      assert HasTimer(ev);
      e := ConnEvent(ev.timer, ev.mode, size);
      ConnOnWheel(htc.contents, ev.timer, ev.mode, size);
      if ev.mode == In {
        ReadData(ev, size);
        if size == 0 {
          ConnGone(ev);
        } else {
          ConnSwitched(ev);
        }
      } else {
        WriteData(ev);
        ConnSwitched(ev);
      }
    }

    twostate lemma ConnGone(ev: Event)
      requires conns == old(conns) - {ev} && forall o :: o in conns ==> o.mode == old(o.mode)
      ensures Modes() == old(Modes()) - {ev}
    {
    }

    twostate lemma ConnSwitched(ev: Event)
      requires conns == old(conns) && ev in conns && ev.mode == Flipped(old(ev.mode))
      requires forall o :: o in conns && o != ev ==> o.mode == old(o.mode)
      ensures Modes() == old(Modes())[ev := Flipped(old(Modes())[ev])]
    {
    }

    twostate lemma ConnJoined(new ev: Event)
      requires conns == old(conns) + {ev} && ev !in old(conns) && ev.mode == In
      requires forall o :: o in old(conns) ==> o.mode == old(o.mode)
      ensures Joins(ev, old(Modes()), Modes())
    {
    }

    /** The listener is ready: accept. */
    method HandleListener(client: Option<nat>) returns (ghost e: ServerEvent<TimerNode>)
      requires Matched() && (client.Some? ==> client.value !in open)
      modifies this`conns, this`open, this`leaked, htc`live, htc`contents, htc.slots
      ensures Matched() && fresh(conns - old(conns)) && fresh(htc.live - old(htc.live))
      ensures client.None? ==> OneMore(old(leaked), leaked) && htc.live == old(htc.live)
      ensures client.Some? ==> e.Accepted? && fresh(e.c) && htc.live == old(htc.live) + {e.c} && leaked == old(leaked)
      ensures open == OpenAfter(Listener(client), old(Modes()), old(open))
      ensures Stepped(old(Modes()), old(Timers()), Listener(client), e, Modes())
      ensures htc.contents == WheelAfter(old(htc.contents), [e]) && FreshAccepts(old(htc.contents), [e])
    {
      ghost var before := htc.contents;
      var ev := AcceptConn(client);
      if client.None? {
        e := Missed;
        MissedOnWheel(before);
        assert ev in leaked && ev !in old(leaked);
      } else {
        e := Accepted(ev.timer);
        AcceptedOnWheel(before, ev.timer);
        ConnJoined(ev);
      }
    }

    /** What the loop does with one ready descriptor. */
    method HandleOne(r: Ready) returns (ghost e: ServerEvent<TimerNode>)
      requires Matched() && (r.Conn? ==> r.ev in conns) && Possible(r, open)
      modifies this`conns, this`open, this`leaked, conns`mode
      modifies htc`live, htc`contents, htc.slots, htc.live`rotation, htc.live`timeSlot
      ensures Matched() && fresh(conns - old(conns)) && fresh(htc.live - old(htc.live))
      ensures if r == Listener(None) then OneMore(old(leaked), leaked) else leaked == old(leaked)
      ensures e.Accepted? ==> fresh(e.c) && e.c in htc.live
      ensures open == OpenAfter(r, old(Modes()), old(open))
      ensures Stepped(old(Modes()), old(Timers()), r, e, Modes())
      ensures htc.contents == WheelAfter(old(htc.contents), [e]) && FreshAccepts(old(htc.contents), [e])
    {
      match r {
        case Listener(client) => e := HandleListener(client);
        case Conn(ev, size) =>
          e := HandleConn(ev, size);
      }
    }

    lemma ReadyConn(ev: Event, was: map<Event, Mode>, timers: map<Event, TimerNode>)
      requires Matched() && KeepTimers(timers) && ev in timers && ev in Modes()
      ensures ev in conns && ev in Timers() && Timers()[ev] == timers[ev]
    {
      assert HasTimer(ev);
    }

    /** The i-th descriptor of a round, when those before it have been handled. */
    method HandleNext(batch: seq<Ready>, i: nat, ghost b: RoundStart, ghost es: seq<ServerEvent<TimerNode>>)
      returns (ghost es1: seq<ServerEvent<TimerNode>>)
      requires Matched() && StartOk(b, batch) && KeepTimers(b.timers) && i < |batch|
      requires SoFar(b, batch, i, es, Modes(), open, htc.contents)
      modifies this`conns, this`open, this`leaked, conns`mode
      modifies htc`live, htc`contents, htc.slots, htc.live`rotation, htc.live`timeSlot
      ensures Matched() && fresh(conns - old(conns)) && fresh(htc.live - old(htc.live))
      ensures SoFar(b, batch, i + 1, es1, Modes(), open, htc.contents)
      ensures |es| == i && |es1| == i + 1 && es1[..i] == es && (es1[i].Accepted? ==> fresh(es1[i].c))
    {
      NextIsReady(b, batch, i, es, Modes(), open, htc.contents);
      if batch[i].Conn? {
        ReadyConn(batch[i].ev, b.modes, b.timers);
      }
      ghost var modes, timers, now, before := Modes(), Timers(), open, htc.contents;
      ghost var e := HandleOne(batch[i]);
      assert forall ev :: ev in b.timers && ev !in modes ==> ev !in conns;
      SoFarStep(b, batch, i, es, e, modes, timers, now, before, Modes());
      es1 := es + [e];
    }

    /** The descriptors of a round in order. */
    method HandleAll(batch: seq<Ready>, ghost b: RoundStart) returns (ghost es: seq<ServerEvent<TimerNode>>)
      requires Matched() && StartOk(b, batch) && KeepTimers(b.timers)
      requires SoFar(b, batch, 0, [], Modes(), open, htc.contents)
      modifies this`conns, this`open, this`leaked, conns`mode
      modifies htc`live, htc`contents, htc.slots, htc.live`rotation, htc.live`timeSlot
      ensures Matched() && fresh(conns - old(conns))
      ensures SoFar(b, batch, |batch|, es, Modes(), open, htc.contents)
      ensures |es| == |batch| && forall i :: 0 <= i < |es| && es[i].Accepted? ==> fresh(es[i].c)
    {
      es := [];
      var i := 0;
      while i < |batch|
        invariant i <= |batch| && Matched() && KeepTimers(b.timers)
        invariant SoFar(b, batch, i, es, Modes(), open, htc.contents)
        invariant |es| == i && forall j :: 0 <= j < i && es[j].Accepted? ==> fresh(es[j].c)
        invariant fresh(conns - old(conns)) && fresh(htc.live - old(htc.live))
      {
        es := HandleNext(batch, i, b, es);
        i := i + 1;
      }
    }

    /** The handlers need their connection object to be live; it is, although handlers delete objects, because
        each object is ready once and no timer fires in such a round. `es` is what the round does to the wheel,
        event by event. */
    method HandleBatch(batch: seq<Ready>) returns (ghost es: seq<ServerEvent<TimerNode>>)
      requires Matched() && EachOnce(batch)
      requires forall i :: 0 <= i < |batch| && batch[i].Conn? ==> batch[i].ev in conns
      requires PossibleBatch(batch, Modes(), open)
      modifies this`conns, this`open, this`leaked, conns`mode
      modifies htc`live, htc`contents, htc.slots, htc.live`rotation, htc.live`timeSlot
      ensures Matched() && fresh(conns - old(conns))
      ensures open == OpenAfterAll(batch, old(Modes()), old(open))
      ensures Handled(old(Modes()), old(Timers()), Modes(), batch, es)
      ensures AllAnswered(batch, es, old(Modes()), old(Timers()))
      ensures forall i :: 0 <= i < |es| && es[i].Accepted? ==> fresh(es[i].c)
      ensures htc.contents == WheelAfter(old(htc.contents), es) && FreshAccepts(old(htc.contents), es)
    {
      TimersAreMatched();
      ghost var b := RoundStart(Modes(), Timers(), open, htc.contents);
      SoFarNothing(b, batch);
      es := HandleAll(batch, b);
      SoFarAll(b, batch, es, Modes(), open, htc.contents);
    }

    /** A round with ready descriptors. */
    method BusyRound(batch: seq<Ready>) returns (ghost es: seq<ServerEvent<TimerNode>>)
      requires Valid() && EachOnce(batch)
      requires forall i :: 0 <= i < |batch| && batch[i].Conn? ==> batch[i].ev in conns
      requires PossibleBatch(batch, Modes(), open)
      modifies this`conns, this`open, this`leaked, this`history, conns`mode
      modifies htc`live, htc`contents, htc.slots, htc.live`rotation, htc.live`timeSlot
      ensures Valid() && fresh(conns - old(conns)) && history == old(history) + es
      ensures open == OpenAfterAll(batch, old(Modes()), old(open))
      ensures Handled(old(Modes()), old(Timers()), Modes(), batch, es)
      ensures AllAnswered(batch, es, old(Modes()), old(Timers()))
      ensures htc.contents == WheelAfter(old(htc.contents), es)
    {
      es := HandleBatch(batch);
      Recorded(Empty(), history, es);
      history := history + es;
    }

    /** In every state of the server: a connection whose timer was last set at event j of the history is timed
        out by the tick now coming, if that is the 151st since, exactly if an even number of entries are ahead
        of it in its slot list; and not if it is an earlier one. */
    lemma TimeoutDecided(j: nat, c: TimerNode)
      requires Valid() && j < |history| && (history[j] == Accepted(c) || history[j] == Written(c))
      requires AllIgnore(history[j + 1..], c)
      ensures var n := QuietRounds(history[j + 1..]);
        && (n < 150 ==> c !in SkipTick(htc.contents).1)
        && (n == 150 ==> (c in SkipTick(htc.contents).1 <==> AheadNow(htc.contents, c) % 2 == 0))
    {
      HistoryDecides(history, j, c);
    }
  }
}
