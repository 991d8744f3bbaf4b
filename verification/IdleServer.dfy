/** The idle-connection server (time_wheel/timer_list.cpp): the connection table, the timers it owns and
    the sorted list, updated in place by the branches of the event loop. */
module IdleServer {
  import opened StableQueue
  import opened SortedTimerList
  import opened IdleRuns

  const FD_LIMIT: nat := 65535

  datatype ClientData = ClientData(sockfd: int, timer: UtilTimer?)

  /** What a receive on a client socket reports. */
  datatype Received = Bytes | EndOfStream | TryAgain | Failed

  /** The list of timers read as the list of the connections they belong to. */
  function Conns(c: seq<Keyed<UtilTimer>>): seq<Keyed<int>> {
    seq(|c|, i requires 0 <= i < |c| => Keyed(c[i].id.userData, c[i].key))
  }

  lemma {:induction false} ConnsInsert(c: seq<Keyed<UtilTimer>>, x: Keyed<UtilTimer>)
    ensures Conns(Insert(c, x)) == Insert(Conns(c), Keyed(x.id.userData, x.key))
  {
    InsertPlace(c, x);
    InsertPlace(Conns(c), Keyed(x.id.userData, x.key));
    DueLengthIs(Conns(c), x.key, DueLength(c, x.key));
  }

  lemma {:induction false} ConnsAdjust(c: seq<Keyed<UtilTimer>>, k: nat)
    requires k < |c|
    ensures Conns(Adjust(c, k)) == Adjust(Conns(c), k)
  {
    ConnsInsert(c[k + 1..], c[k]);
    assert Conns(c[k + 1..]) == Conns(c)[k + 1..];
  }

  /** Removing a timer that alone belongs to its connection removes the connection. */
  lemma {:induction false} ConnsFilter(c: seq<Keyed<UtilTimer>>, n: UtilTimer)
    requires forall i :: 0 <= i < |c| ==> (c[i].id.userData == n.userData <==> c[i].id == n)
    ensures Conns(Filter(c, NotId(n))) == Filter(Conns(c), NotId(n.userData))
  {
    if c != [] {
      var t := c[1..];
      ConnsFilter(t, n);
      assert c == [c[0]] + t;
      ConnsCons(c[0], t);
      assert Conns(c)[1..] == Conns(t);
      ConnsCons(c[0], Filter(t, NotId(n)));
    }
  }

  lemma ConnsCons(x: Keyed<UtilTimer>, c: seq<Keyed<UtilTimer>>)
    ensures Conns([x] + c) == [Keyed(x.id.userData, x.key)] + Conns(c)
  {
  }

  /** Sockets that were open, each once. */
  ghost predicate ClosedOnce(closed: seq<int>, open: set<int>) {
    && (forall i :: 0 <= i < |closed| ==> closed[i] in open)
    && (forall i, j :: 0 <= i < j < |closed| ==> closed[i] != closed[j])
  }

  class IdleServer {
    const timerLst: SortTimerList
    const users: array<ClientData>
    ghost var open: set<int> // client sockets that are open
    ghost var history: seq<Event> // all events so far

    /** Every open connection has one timer in the list and every listed timer one open connection, and
        the table leads from one to the other. */
    ghost predicate Matched()
      reads this`open, users, timerLst, timerLst.nodes
    {
      && users.Length == FD_LIMIT && timerLst.Linked()
      && (forall n :: n in timerLst.nodes ==> Owned(n))
      && (forall fd :: fd in open ==> Timed(fd))
    }

    /** And the list is what the server's history makes of an empty one. */
    ghost predicate Valid()
      reads this, users, timerLst, timerLst.nodes
    {
      Matched() && List() == Run([], history).0
    }

    ghost predicate Owned(n: UtilTimer)
      requires users.Length == FD_LIMIT
      reads this`open, users
    {
      0 <= n.userData < FD_LIMIT && n.userData in open && users[n.userData] == ClientData(n.userData, n)
    }

    ghost predicate Timed(fd: int)
      requires users.Length == FD_LIMIT
      reads users, timerLst
    {
      && 0 <= fd < FD_LIMIT && users[fd].timer != null
      && users[fd].timer in timerLst.nodes && users[fd].timer.userData == fd
    }

    ghost function List(): seq<Keyed<int>>
      reads timerLst`nodes, timerLst.nodes`expire
    {
      Conns(timerLst.Contents())
    }

    constructor (users: array<ClientData>)
      requires users.Length == 65535
      ensures this.users == users && Valid() && open == {} && fresh(timerLst) && List() == [] && history == []
    {
      this.users := users;
      timerLst := new SortTimerList();
      open, history := {}, [];
    }

    method AcceptConn(connfd: int, now: int)
      requires Valid() && 0 <= connfd < 65535 && connfd !in open
      modifies this`open, this`history, users, timerLst, timerLst.nodes`prev, timerLst.nodes`next
      ensures Valid() && open == old(open) + {connfd} && history == old(history) + [Accept(connfd, now)]
      ensures List() == Insert(old(List()), Keyed(connfd, now + 15))
    {
      NewConn(connfd, now);
      Record(Accept(connfd, now));
    }

    /** An event that the list has undergone enters the history. */
    ghost method Record(e: Event)
      requires Matched() && List() == Step(Run([], history).0, e).0
      modifies this`history
      ensures Valid() && history == old(history) + [e]
    {
      RunSnoc([], history, e);
      history := history + [e];
    }

    method NewConn(connfd: int, now: int)
      requires Matched() && 0 <= connfd < FD_LIMIT && connfd !in open
      modifies this`open, users, timerLst, timerLst.nodes`prev, timerLst.nodes`next
      ensures Matched() && open == old(open) + {connfd}
      ensures List() == Insert(old(List()), Keyed(connfd, now + IDLE_LIMIT))
    {
      var timer := new UtilTimer(now + 3 * TIMESLOT, connfd);
      users[connfd] := ClientData(connfd, timer);
      EnlistTimer(timer, connfd);
    }

    /** Add the timer of a new connection to the list. */
    method EnlistTimer(timer: UtilTimer, connfd: int)
      requires users.Length == FD_LIMIT && timerLst.Linked() && timer.prev == null && timer.next == null
      requires 0 <= connfd < FD_LIMIT && connfd !in open && timer.userData == connfd
      requires users[connfd] == ClientData(connfd, timer) && timer !in timerLst.nodes
      requires forall n :: n in timerLst.nodes ==> Owned(n)
      requires forall fd :: fd in open ==> Timed(fd)
      modifies this`open, timerLst, timerLst.nodes`prev, timerLst.nodes`next, timer`prev, timer`next
      ensures Matched() && open == old(open) + {connfd}
      ensures List() == Insert(old(List()), Keyed(connfd, timer.expire))
    {
      ConnsInsert(timerLst.Contents(), Keyed(timer, timer.expire));
      open := open + {connfd};
      timerLst.AddTimer(timer);
    }

    /** The timer of an open connection, and that no other timer in the list is the connection's. */
    lemma TimerOf(fd: int)
      requires Matched() && fd in open
      ensures Timed(fd) && users[fd].timer in timerLst.nodes
      ensures forall n :: n in timerLst.nodes ==> (n.userData == fd <==> n == users[fd].timer)
    {
    }

    /** The callback, given the table entry of a connection: the connection's own socket is closed, and no
        other. */
    method CloseSocket(fd: int) returns (closed: int)
      requires users.Length == FD_LIMIT && 0 <= fd < FD_LIMIT && users[fd].sockfd == fd
      modifies this`open
      ensures closed == fd && open == old(open) - {fd}
    {
      closed := users[fd].sockfd;
      open := open - {closed};
    }

    method CloseConn(fd: int)
      requires Matched() && fd in open
      modifies this`open, timerLst, timerLst.nodes`prev, timerLst.nodes`next
      ensures Matched() && open == old(open) - {fd}
      ensures List() == Filter(old(List()), NotId(fd))
    {
      TimerOf(fd);
      var timer := users[fd].timer;
      assert Owned(timer);
      ConnsFilter(timerLst.Contents(), timer);
      var closed := CloseSocket(fd);
      timerLst.DelTimer(timer);
    }

    method ExtendConn(fd: int, now: int)
      requires Matched() && fd in open
      modifies timerLst, timerLst.nodes`prev, timerLst.nodes`next, timerLst.nodes`expire
      ensures Matched()
      ensures List() == Step(old(List()), Data(fd, now)).0
    {
      ghost var k := Place(fd, now);
      Reschedule(users[fd].timer, k, now + 3 * TIMESLOT);
    }

    /** Where the timer of an open connection is in the list, and what the list becomes when the connection is
        active now. */
    lemma Place(fd: int, now: int) returns (k: nat)
      requires Matched() && fd in open
      ensures k < |timerLst.nodes| && users[fd].timer == timerLst.nodes[k] && timerLst.nodes[k].userData == fd
      ensures Step(List(), Data(fd, now)).0 == Adjust(List()[k := Keyed(fd, now + 15)], k)
    {
      TimerOf(fd);
      FoundAt(List(), users[fd].timer);
      k := IndexOf(List(), fd);
    }

    /** Change the expiry of the k-th timer and let the list adjust. */
    method Reschedule(timer: UtilTimer, ghost k: nat, expire: int)
      requires timerLst.Linked() && k < |timerLst.nodes| && timerLst.nodes[k] == timer
      modifies timerLst, timerLst.nodes`prev, timerLst.nodes`next, timer`expire
      ensures timerLst.Linked() && forall n :: n in timerLst.nodes <==> n in old(timerLst.nodes)
      ensures List() == Adjust(old(List())[k := Keyed(timer.userData, expire)], k)
    {
      ghost var was := timerLst.Contents();
      timer.expire := expire;
      assert timerLst.Contents() == was[k := Keyed(timer, expire)];
      ConnsAdjust(timerLst.Contents(), k);
      assert List() == Conns(was)[k := Keyed(timer.userData, expire)];
      timerLst.AdjustTimer(timer, k);
    }

    lemma FoundAt(l: seq<Keyed<int>>, timer: UtilTimer)
      requires l == List() && timer in timerLst.nodes
      requires forall n :: n in timerLst.nodes ==> (n.userData == timer.userData <==> n == timer)
      ensures var k := IndexOf(l, timer.userData);
        k < |timerLst.nodes| && timerLst.nodes[k] == timer
    {
      var i :| 0 <= i < |timerLst.nodes| && timerLst.nodes[i] == timer;
      assert l[i].id == timer.userData;
    }

    /** A readable client socket: close it on end of stream and on errors; bytes make it active now, and its timer
        due in 15 seconds. */
    method Receive(sockfd: int, result: Received, now: int)
      requires Valid() && sockfd in open
      modifies this`open, this`history, timerLst, timerLst.nodes`prev, timerLst.nodes`next, timerLst.nodes`expire
      ensures Valid()
      ensures result.TryAgain? ==> open == old(open) && history == old(history) && List() == old(List())
      ensures result.Bytes? ==>
        open == old(open) && history == old(history) + [Data(sockfd, now)] && Keyed(sockfd, now + 15) in List()
      ensures result.Failed? || result.EndOfStream? ==>
        && open == old(open) - {sockfd} && history == old(history) + [Close(sockfd, now)]
        && List() == Filter(old(List()), NotId(sockfd))
    {
      match result
      case Failed => HangUp(sockfd, now);
      case TryAgain =>
      case EndOfStream => HangUp(sockfd, now);
      case Bytes => Heard(sockfd, now);
    }

    method HangUp(fd: int, now: int)
      requires Valid() && fd in open
      modifies this`open, this`history, timerLst, timerLst.nodes`prev, timerLst.nodes`next
      ensures Valid() && open == old(open) - {fd} && history == old(history) + [Close(fd, now)]
      ensures List() == Filter(old(List()), NotId(fd))
    {
      CloseConn(fd);
      Record(Close(fd, now));
    }

    method Heard(fd: int, now: int)
      requires Valid() && fd in open
      modifies this`history, timerLst, timerLst.nodes`prev, timerLst.nodes`next, timerLst.nodes`expire
      ensures Valid() && history == old(history) + [Data(fd, now)] && Keyed(fd, now + 15) in List()
    {
      TimerOf(fd);
      FoundAt(List(), users[fd].timer);
      DataIsListed(List(), fd, now);
      ExtendConn(fd, now);
      Record(Data(fd, now));
    }

    /** The callbacks of the timers that a tick fires: each closes a socket that is still open when its turn
        comes; none is closed twice. */
    method CloseAll(fired: seq<UtilTimer>) returns (closed: seq<int>)
      requires users.Length == FD_LIMIT
      requires forall i :: 0 <= i < |fired| ==> TableKnows(fired[i]) && fired[i].userData in open
      requires forall i, j :: 0 <= i < j < |fired| ==> fired[i] != fired[j]
      modifies this`open
      ensures |closed| == |fired| && forall i :: 0 <= i < |fired| ==> closed[i] == fired[i].userData
      ensures ClosedOnce(closed, old(open)) && open == old(open) - (set fd | fd in closed)
    {
      closed := [];
      while |closed| < |fired|
        invariant |closed| <= |fired| && forall i :: 0 <= i < |closed| ==> closed[i] == fired[i].userData
        invariant ClosedOnce(closed, old(open)) && open == old(open) - (set fd | fd in closed)
      {
        assert TableKnows(fired[|closed|]);
        forall i | 0 <= i < |closed| ensures closed[i] != fired[|closed|].userData {
          assert TableKnows(fired[i]);
        }
        assert fired[|closed|].userData in open;
        var fd := CloseSocket(fired[|closed|].userData);
        closed := closed + [fd];
      }
    }

    /** Dropping the first n nodes and the connections they belong to leaves timers and connections matched. */
    lemma {:induction false} RestIsMatched(ns: seq<UtilTimer>, n: nat, before: set<int>, closed: seq<int>)
      requires users.Length == FD_LIMIT && timerLst.Linked() && n <= |ns| && timerLst.nodes == ns[n..]
      requires forall i :: 0 <= i < |ns| ==> TableKnows(ns[i]) && ns[i].userData in before
      requires forall i, j :: 0 <= i < j < |ns| ==> ns[i] != ns[j]
      requires forall fd :: fd in before ==> exists i :: 0 <= i < |ns| && ns[i].userData == fd
      requires |closed| == n && forall i :: 0 <= i < n ==> closed[i] == ns[i].userData
      requires open == before - (set fd | fd in closed)
      ensures Matched()
    {
      forall t | t in timerLst.nodes ensures Owned(t) {
        var j :| 0 <= j < |ns| - n && ns[n..][j] == t;
        assert ns[n + j] == t && TableKnows(t);
      }
      forall fd | fd in open ensures Timed(fd) {
        var i :| 0 <= i < |ns| && ns[i].userData == fd;
        assert i >= n && ns[n..][i - n] == ns[i] && TableKnows(ns[i]);
      }
    }

    /** The tick of the list, seen as connections. */
    method FireDue(now: int) returns (fired: seq<UtilTimer>)
      requires timerLst.Linked()
      modifies timerLst`head, timerLst`nodes, timerLst.nodes`prev
      ensures timerLst.Linked()
      ensures var n := DueLength(old(List()), now);
        && n <= |old(timerLst.nodes)| && fired == old(timerLst.nodes)[..n] && timerLst.nodes == old(timerLst.nodes)[n..]
        && List() == old(List())[n..] && forall i :: 0 <= i < n ==> old(List())[i].id == fired[i].userData
    {
      ghost var was := timerLst.Contents();
      DueLengthIs(Conns(was), now, DueLength(was, now));
      fired := timerLst.Tick(now);
    }

    /** The tick of the list together with its callbacks. */
    method FireAndClose(now: int) returns (closed: seq<int>)
      requires users.Length == FD_LIMIT && timerLst.Linked()
      requires forall i :: 0 <= i < |timerLst.nodes| ==>
        TableKnows(timerLst.nodes[i]) && timerLst.nodes[i].userData in open
      modifies this`open, timerLst`head, timerLst`nodes, timerLst.nodes`prev
      ensures timerLst.Linked() && ClosedOnce(closed, old(open)) && open == old(open) - (set fd | fd in closed)
      ensures |closed| <= |old(timerLst.nodes)| && timerLst.nodes == old(timerLst.nodes)[|closed|..]
      ensures forall i :: 0 <= i < |closed| ==> closed[i] == old(timerLst.nodes)[i].userData
      ensures |closed| == DueLength(old(List()), now) && List() == old(List())[|closed|..]
      ensures forall i :: 0 <= i < |closed| ==> closed[i] == old(List())[i].id
    {
      var fired := FireDue(now);
      assert forall i :: 0 <= i < |fired| ==> fired[i] == old(timerLst.nodes)[i];
      ghost var rest := List();
      closed := CloseAll(fired);
      assert List() == rest;
    }

    static lemma {:induction false} StepIs(l: seq<Keyed<int>>, now: int, closed: seq<int>, rest: seq<Keyed<int>>)
      requires |closed| == DueLength(l, now) && forall i :: 0 <= i < |closed| ==> closed[i] == l[i].id
      requires rest == l[DueLength(l, now)..]
      ensures (rest, closed) == Step(l, Timeout(now))
    {
      assert closed == Ids(l[..DueLength(l, now)]);
    }

    ghost predicate TableKnows(n: UtilTimer)
      requires users.Length == FD_LIMIT
      reads users
    {
      0 <= n.userData < FD_LIMIT && users[n.userData] == ClientData(n.userData, n)
    }

    lemma {:induction false} TimersAndConnections(ns: seq<UtilTimer>)
      requires Matched() && ns == timerLst.nodes
      ensures forall i :: 0 <= i < |ns| ==> TableKnows(ns[i]) && ns[i].userData in open
      ensures forall fd :: fd in open ==> exists i :: 0 <= i < |ns| && ns[i].userData == fd
      ensures forall i, j :: 0 <= i < j < |ns| ==> ns[i] != ns[j]
    {
      forall i | 0 <= i < |ns| ensures TableKnows(ns[i]) && ns[i].userData in open {
        assert Owned(ns[i]);
      }
      forall fd | fd in open ensures exists i :: 0 <= i < |ns| && ns[i].userData == fd {
        assert Timed(fd);
      }
    }

    /** The periodic tick: every connection that is due is closed by its callback, in list order. */
    method TimerHandler(now: int) returns (closed: seq<int>)
      requires Valid()
      modifies this`open, this`history, timerLst`head, timerLst`nodes, timerLst.nodes`prev
      ensures Valid() && history == old(history) + [Timeout(now)]
      ensures ClosedOnce(closed, old(open)) && open == old(open) - (set fd | fd in closed)
      ensures (List(), closed) == Step(old(List()), Timeout(now))
    {
      closed := CloseDue(now);
      Record(Timeout(now));
    }

    method CloseDue(now: int) returns (closed: seq<int>)
      requires Matched()
      modifies this`open, timerLst`head, timerLst`nodes, timerLst.nodes`prev
      ensures Matched() && ClosedOnce(closed, old(open)) && open == old(open) - (set fd | fd in closed)
      ensures (List(), closed) == Step(old(List()), Timeout(now))
    {
      ghost var ns := timerLst.nodes;
      TimersAndConnections(ns);
      closed := FireAndClose(now);
      StepIs(old(List()), now, closed, List());
      RestIsMatched(ns, |closed|, old(open), closed);
    }

    /** In every state of the server, with a clock that has not gone back: a tick now closes exactly the connections
        whose last activity, as the server's history shows it, was 15 seconds ago or longer. */
    lemma TickClosesTheIdle(clock: int, now: int, fd: int)
      requires Valid() && LegalRun(map[], clock, history + [Timeout(now)])
      ensures fd in Step(List(), Timeout(now)).1 <==> exists t :: LastTouched(history, fd, t) && t <= now - 15
    {
      TickClosesByEvents(clock, history, now, fd);
    }
  }

  /** Data from a listed connection leaves it listed with the new expiry. */
  lemma {:induction false} DataIsListed(l: seq<Keyed<int>>, fd: int, now: int)
    requires IndexOf(l, fd) < |l|
    ensures Keyed(fd, now + 15) in Step(l, Data(fd, now)).0
  {
    var k := IndexOf(l, fd);
    var x: Keyed<int> := Keyed(fd, now + IDLE_LIMIT);
    var c := l[k := x];
    assert c[k] == x;
    if Adjust(c, k) != c {
      InsertContents(c[k + 1..], x);
      assert x in multiset(Insert(c[k + 1..], x));
    }
  }
}
