/** The main thread and the workers of epoll_v2/server1.c as interleaved steps: registration with a
    worker's epoll set, and the counter of its connections, which is changed under a mutex by reading,
    computing and writing. */
module WorkerDispatch {

  const WRAP: nat := 0x1_0000_0000 // unsigned int

  /** Who holds the mutex of a worker. */
  datatype Holder = Free | HeldByMain | HeldByWorker

  /** Where a worker is; pending is the rest of the batch its epoll_wait returned. */
  datatype WorkerPc =
    | Idle
    | Handling(pending: seq<nat>)
    | Closing(fd: nat, pending: seq<nat>)
    | Locking(pending: seq<nat>)
    | Reading(pending: seq<nat>)
    | Writing(value: nat, pending: seq<nat>)
    | Unlocking(pending: seq<nat>)

  /** Where the main thread is. */
  datatype MainPc =
    | Waiting
    | Choosing(fd: nat)
    | Peeking(fd: nat, w: nat)
    | Registering(fd: nat, w: nat)
    | CountLocking(w: nat)
    | CountReading(w: nat)
    | CountWriting(w: nat, value: nat)
    | CountUnlocking(w: nat)

  datatype State = State(
    open: set<nat>,              // accepted sockets that are open
    registered: seq<set<nat>>,   // the epoll set of each worker
    counts: seq<nat>,            // active_conection_cnt of each worker
    locks: seq<Holder>,
    workers: seq<WorkerPc>,
    main: MainPc)

  datatype Step =
    | Accept(fd: nat)
    | Peek(w: nat)
    | EndPeek(w: nat)
    | Choose(w: nat)
    | Register(fd: nat, w: nat)
    | MainLock(w: nat)
    | MainRead(w: nat)
    | MainWrite(w: nat)
    | MainUnlock(w: nat)
    | Wait(w: nat, batch: seq<nat>)
    | Keep(w: nat, fd: nat)
    | Finish(w: nat)
    | Deregister(w: nat, fd: nat)
    | Close(w: nat, fd: nat)
    | Lock(w: nat)
    | Read(w: nat)
    | Write(w: nat)
    | Unlock(w: nat)

  predicate Distinct(s: seq<nat>) {
    forall i, j :: 0 <= i < j < |s| ==> s[i] != s[j]
  }

  predicate Shape(s: State) {
    && |s.registered| == |s.counts| == |s.locks| == |s.workers|
    && (!s.main.Waiting? && !s.main.Choosing? ==> s.main.w < |s.workers|)
  }

  /** The loop over the batch has come to the event of fd. */
  predicate IsNext(pc: WorkerPc, fd: nat) {
    pc.Handling? && pc.pending != [] && pc.pending[0] == fd
  }

  predicate Enabled(s: State, a: Step)
    requires Shape(s)
  {
    match a
    case Accept(fd) => s.main.Waiting? && fd !in s.open
    case Peek(w) => s.main.Choosing? && w < |s.workers| && s.locks[w].Free?
    case EndPeek(w) => s.main.Peeking? && w == s.main.w
    case Choose(w) => s.main.Choosing? && w < |s.workers|
    case Register(fd, w) => s.main == Registering(fd, w)
    case MainLock(w) => s.main == CountLocking(w) && s.locks[w].Free?
    case MainRead(w) => s.main == CountReading(w)
    case MainWrite(w) => s.main.CountWriting? && w == s.main.w
    case MainUnlock(w) => s.main == CountUnlocking(w)
    case Wait(w, batch) => w < |s.workers| && s.workers[w].Idle? && |batch| <= 5 && Distinct(batch)
                           && forall i :: 0 <= i < |batch| ==> batch[i] in s.registered[w]
    case Keep(w, fd) => w < |s.workers| && IsNext(s.workers[w], fd)
    case Finish(w) => w < |s.workers| && s.workers[w] == Handling([])
    case Deregister(w, fd) => w < |s.workers| && IsNext(s.workers[w], fd)
    case Close(w, fd) => w < |s.workers| && s.workers[w].Closing? && s.workers[w].fd == fd
    case Lock(w) => w < |s.workers| && s.workers[w].Locking? && s.locks[w].Free?
    case Read(w) => w < |s.workers| && s.workers[w].Reading?
    case Write(w) => w < |s.workers| && s.workers[w].Writing?
    case Unlock(w) => w < |s.workers| && s.workers[w].Unlocking?
  }

  function Do(s: State, a: Step): (t: State)
    requires Shape(s) && Enabled(s, a)
    ensures Shape(t) && |t.workers| == |s.workers|
  {
    match a
    case Accept(fd) => s.(open := s.open + {fd}, main := Choosing(fd))
    case Peek(w) => s.(locks := s.locks[w := HeldByMain], main := Peeking(s.main.fd, w))
    case EndPeek(w) => s.(locks := s.locks[w := Free], main := Choosing(s.main.fd))
    case Choose(w) => s.(main := Registering(s.main.fd, w))
    case Register(fd, w) => s.(registered := s.registered[w := s.registered[w] + {fd}], main := CountLocking(w))
    case MainLock(w) => s.(locks := s.locks[w := HeldByMain], main := CountReading(w))
    case MainRead(w) => s.(main := CountWriting(w, s.counts[w]))
    case MainWrite(w) => s.(counts := s.counts[w := (s.main.value + 1) % WRAP], main := CountUnlocking(w))
    case MainUnlock(w) => s.(locks := s.locks[w := Free], main := Waiting)
    case Wait(w, batch) => s.(workers := s.workers[w := Handling(batch)])
    case Keep(w, fd) => s.(workers := s.workers[w := Handling(s.workers[w].pending[1..])])
    case Finish(w) => s.(workers := s.workers[w := Idle])
    case Deregister(w, fd) =>
      s.(registered := s.registered[w := s.registered[w] - {fd}],
         workers := s.workers[w := Closing(fd, s.workers[w].pending[1..])])
    case Close(w, fd) => s.(open := s.open - {fd}, workers := s.workers[w := Locking(s.workers[w].pending)])
    case Lock(w) => s.(locks := s.locks[w := HeldByWorker], workers := s.workers[w := Reading(s.workers[w].pending)])
    case Read(w) => s.(workers := s.workers[w := Writing(s.counts[w], s.workers[w].pending)])
    case Write(w) =>
      s.(counts := s.counts[w := (s.workers[w].value - 1) % WRAP],
         workers := s.workers[w := Unlocking(s.workers[w].pending)])
    case Unlock(w) => s.(locks := s.locks[w := Free], workers := s.workers[w := Handling(s.workers[w].pending)])
  }

  function Start(n: nat): State {
    State({}, seq(n, _ => {}), seq(n, _ => 0), seq(n, _ => Free), seq(n, _ => Idle), Waiting)
  }

  // ---------- the invariant ----------

  /** An add that is registered with worker i and not yet counted. */
  function AddInFlight(main: MainPc, i: nat): nat {
    if (main.CountLocking? || main.CountReading? || main.CountWriting?) && main.w == i then 1 else 0
  }

  /** A removal that is deregistered and not yet discounted. */
  function RemovalInFlight(pc: WorkerPc): nat {
    if pc.Closing? || pc.Locking? || pc.Reading? || pc.Writing? then 1 else 0
  }

  predicate MainHolds(main: MainPc, i: nat) {
    (main.Peeking? || main.CountReading? || main.CountWriting? || main.CountUnlocking?) && main.w == i
  }

  predicate WorkerHolds(pc: WorkerPc) {
    pc.Reading? || pc.Writing? || pc.Unlocking?
  }

  function Pending(pc: WorkerPc): seq<nat> {
    if pc.Idle? then [] else pc.pending
  }

  /** The counter of worker i, up to the adds and removals under way and the wrap of unsigned int. */
  predicate CountOk(s: State, i: nat)
    requires Shape(s) && i < |s.workers|
  {
    s.counts[i] == (|s.registered[i]| - AddInFlight(s.main, i) + RemovalInFlight(s.workers[i])) % WRAP
  }

  predicate LockOk(s: State, i: nat)
    requires Shape(s) && i < |s.workers|
  {
    && (s.locks[i].HeldByMain? <==> MainHolds(s.main, i))
    && (s.locks[i].HeldByWorker? <==> WorkerHolds(s.workers[i]))
    && (s.main.CountWriting? && s.main.w == i ==> s.main.value == s.counts[i])
    && (s.workers[i].Writing? ==> s.workers[i].value == s.counts[i])
  }

  /** A batch concerns sockets registered with the worker, each once. */
  predicate BatchOk(s: State, i: nat)
    requires Shape(s) && i < |s.workers|
  {
    var p := Pending(s.workers[i]);
    Distinct(p) && forall k :: 0 <= k < |p| ==> p[k] in s.registered[i]
  }

  /** Who is responsible for an open socket: a worker's set, a worker closing it, or the main thread. */
  ghost predicate Owner(s: State, fd: nat, i: nat)
    requires Shape(s) && i < |s.workers|
  {
    fd in s.registered[i] || (s.workers[i].Closing? && s.workers[i].fd == fd)
  }

  predicate MainOwns(s: State, fd: nat) {
    (s.main.Choosing? || s.main.Peeking? || s.main.Registering?) && s.main.fd == fd
  }

  /** At most one is responsible, for an open socket; a socket being closed is in no set. */
  ghost predicate OwnerOk(s: State, fd: nat, i: nat)
    requires Shape(s) && i < |s.workers|
  {
    && (Owner(s, fd, i) ==> fd in s.open && !MainOwns(s, fd))
    && (s.workers[i].Closing? ==> s.workers[i].fd !in s.registered[i])
  }

  ghost predicate OwnersOk(s: State)
    requires Shape(s)
  {
    && (forall i, fd :: 0 <= i < |s.workers| ==> OwnerOk(s, fd, i))
    && (forall i, j, fd :: 0 <= i < j < |s.workers| ==> !(Owner(s, fd, i) && Owner(s, fd, j)))
    && (forall fd :: MainOwns(s, fd) ==> fd in s.open)
  }

  /** An open socket is somebody's. */
  ghost predicate Owned(s: State, fd: nat)
    requires Shape(s)
  {
    MainOwns(s, fd) || exists i :: 0 <= i < |s.workers| && Owner(s, fd, i)
  }

  ghost predicate Inv(s: State) {
    && Shape(s) && OwnersOk(s) && (forall fd :: fd in s.open ==> Owned(s, fd))
    && forall i :: 0 <= i < |s.workers| ==> CountOk(s, i) && LockOk(s, i) && BatchOk(s, i)
  }

  lemma StartInv(n: nat)
    ensures Inv(Start(n))
  {
  }

  lemma {:induction false} Counted(x: int, d: int)
    ensures (x % WRAP + d) % WRAP == (x + d) % WRAP
  {
    var q := x / WRAP;
    assert x == WRAP * q + x % WRAP;
    var y := x % WRAP + d;
    assert x + d == WRAP * (q + y / WRAP) + y % WRAP;
  }

  /** Registering and deregistering change a set and what is in flight by the same amount ... */
  lemma {:induction false} CountStepSets(s: State, a: Step, i: nat)
    requires Inv(s) && Enabled(s, a) && i < |s.workers| && (a.Register? || a.Deregister?)
    ensures CountOk(Do(s, a), i)
  {
    assert CountOk(s, i) && BatchOk(s, i);
    if a.Register? {
      assert OwnerOk(s, s.main.fd, s.main.w);
    }
  }

  /** ... writing a counter changes the counter and what is in flight by the same amount, provided that it
      has not changed since it was read ... */
  lemma {:induction false} CountStepWrites(s: State, a: Step, i: nat)
    requires Inv(s) && Enabled(s, a) && i < |s.workers| && (a.MainWrite? || a.Write?)
    ensures CountOk(Do(s, a), i)
  {
    assert CountOk(s, i) && LockOk(s, i);
    var x := |s.registered[i]| - AddInFlight(s.main, i) + RemovalInFlight(s.workers[i]);
    Counted(x, if a.MainWrite? then 1 else -1);
  }

  /** ... and no other step changes any of the three. */
  lemma {:induction false} CountStep(s: State, a: Step, i: nat)
    requires Inv(s) && Enabled(s, a) && i < |s.workers|
    ensures CountOk(Do(s, a), i)
  {
    assert CountOk(s, i);
    if a.Register? || a.Deregister? {
      CountStepSets(s, a, i);
    } else if a.MainWrite? || a.Write? {
      CountStepWrites(s, a, i);
    }
  }

  lemma {:induction false} LockStep(s: State, a: Step, i: nat)
    requires Inv(s) && Enabled(s, a) && i < |s.workers|
    ensures LockOk(Do(s, a), i)
  {
    assert LockOk(s, i);
  }

  lemma {:induction false} BatchStep(s: State, a: Step, i: nat)
    requires Inv(s) && Enabled(s, a) && i < |s.workers|
    ensures BatchOk(Do(s, a), i)
  {
    assert BatchOk(s, i);
  }

  /** Only registration makes somebody new responsible. */
  lemma {:induction false} OwnerAfter(s: State, a: Step, fd: nat, i: nat)
    requires Inv(s) && Enabled(s, a) && i < |s.workers| && Owner(Do(s, a), fd, i)
    ensures Owner(s, fd, i) || (a == Register(fd, i))
    ensures a != Close(i, fd)
  {
    assert BatchOk(s, i) && OwnerOk(s, fd, i);
  }

  lemma {:induction false} OwnerStep(s: State, a: Step, fd: nat, i: nat)
    requires Inv(s) && Enabled(s, a) && i < |s.workers|
    ensures OwnerOk(Do(s, a), fd, i)
  {
    assert OwnerOk(s, fd, i) && BatchOk(s, i);
    if s.workers[i].Closing? {
      assert OwnerOk(s, s.workers[i].fd, i);
    }
    if Owner(Do(s, a), fd, i) {
      OwnerAfter(s, a, fd, i);
      if a.Close? {
        assert Owner(s, s.workers[a.w].fd, a.w);
      }
    }
  }

  lemma {:induction false} OwnersStep(s: State, a: Step)
    requires Inv(s) && Enabled(s, a)
    ensures OwnersOk(Do(s, a))
  {
    var t := Do(s, a);
    forall i, fd | 0 <= i < |t.workers| ensures OwnerOk(t, fd, i) {
      OwnerStep(s, a, fd, i);
    }
    forall i, j, fd | 0 <= i < j < |t.workers| ensures !(Owner(t, fd, i) && Owner(t, fd, j)) {
      assert OwnerOk(s, fd, i) && OwnerOk(s, fd, j);
      if Owner(t, fd, i) && Owner(t, fd, j) {
        OwnerAfter(s, a, fd, i);
        OwnerAfter(s, a, fd, j);
      }
    }
    forall fd | MainOwns(t, fd) ensures fd in t.open {
      if a.Close? {
        assert OwnerOk(s, s.workers[a.w].fd, a.w);
      }
    }
  }

  /** Who owns a socket keeps it, hands it on by registering, or closes it. */
  lemma {:induction false} OwnerKeeps(s: State, a: Step, fd: nat, i: nat)
    requires Inv(s) && Enabled(s, a) && i < |s.workers| && Owner(s, fd, i) && fd in Do(s, a).open
    ensures Owner(Do(s, a), fd, i)
  {
  }

  lemma {:induction false} OwnedStep(s: State, a: Step, fd: nat)
    requires Inv(s) && Enabled(s, a) && fd in Do(s, a).open
    ensures Owned(Do(s, a), fd)
  {
    var t := Do(s, a);
    if fd in s.open && !MainOwns(s, fd) {
      assert Owned(s, fd);
      var i :| 0 <= i < |s.workers| && Owner(s, fd, i);
      OwnerKeeps(s, a, fd, i);
    } else if a.Register? {
      assert Owner(t, fd, s.main.w);
    } else {
      assert MainOwns(t, fd);
    }
  }

  lemma {:induction false} StepInv(s: State, a: Step)
    requires Inv(s) && Enabled(s, a)
    ensures Inv(Do(s, a))
  {
    forall i | 0 <= i < |s.workers| ensures CountOk(Do(s, a), i) && LockOk(Do(s, a), i) && BatchOk(Do(s, a), i) {
      CountStep(s, a, i);
      LockStep(s, a, i);
      BatchStep(s, a, i);
    }
    OwnersStep(s, a);
    forall fd | fd in Do(s, a).open ensures Owned(Do(s, a), fd) {
      OwnedStep(s, a, fd);
    }
  }

  // ---------- every interleaving ----------

  predicate EnabledRun(s: State, steps: seq<Step>)
    requires Shape(s)
    decreases steps
  {
    steps == [] || (Enabled(s, steps[0]) && EnabledRun(Do(s, steps[0]), steps[1..]))
  }

  function Run(s: State, steps: seq<Step>): (t: State)
    requires Shape(s) && EnabledRun(s, steps)
    ensures Shape(t) && |t.workers| == |s.workers|
    decreases steps
  {
    if steps == [] then s else Run(Do(s, steps[0]), steps[1..])
  }

  /** The states some interleaving of the main thread and n workers leads to. */
  ghost predicate Reachable(n: nat, s: State) {
    exists steps :: EnabledRun(Start(n), steps) && Run(Start(n), steps) == s
  }

  lemma {:induction false} RunInv(s: State, steps: seq<Step>)
    requires Inv(s) && EnabledRun(s, steps)
    ensures Inv(Run(s, steps))
    decreases steps
  {
    if steps != [] {
      StepInv(s, steps[0]);
      RunInv(Do(s, steps[0]), steps[1..]);
    }
  }

  lemma {:induction false} ReachableInv(n: nat, s: State)
    requires Reachable(n, s)
    ensures Inv(s) && |s.workers| == n
  {
    var steps :| EnabledRun(Start(n), steps) && Run(Start(n), steps) == s;
    StartInv(n);
    RunInv(Start(n), steps);
  }

  /** In every reachable state a worker's counter is its registered connections, less an add not yet
      counted, plus a removal not yet discounted, modulo 2^32. */
  lemma {:induction false} CountersAccount(n: nat, s: State, i: nat)
    requires Reachable(n, s) && i < n
    ensures |s.workers| == |s.counts| == |s.registered| == n
    ensures s.counts[i] == (|s.registered[i]| - AddInFlight(s.main, i) + RemovalInFlight(s.workers[i])) % WRAP
  {
    ReachableInv(n, s);
    assert CountOk(s, i);
  }

  /** No socket is registered with two workers, registered sockets are open, and what a batch still has to
      handle is registered with its worker, each socket once. */
  lemma {:induction false} SetsStayApart(n: nat, s: State, i: nat, j: nat)
    requires Reachable(n, s) && i < n && j < n
    ensures |s.workers| == |s.registered| == n
    ensures s.registered[i] <= s.open && (i != j ==> s.registered[i] !! s.registered[j])
    ensures Distinct(Pending(s.workers[i]))
    ensures forall k :: 0 <= k < |Pending(s.workers[i])| ==> Pending(s.workers[i])[k] in s.registered[i]
  {
    ReachableInv(n, s);
    assert BatchOk(s, i);
    forall fd | fd in s.registered[i] ensures fd in s.open && (i != j ==> fd !in s.registered[j]) {
      assert OwnerOk(s, fd, i) && Owner(s, fd, i);
      assert i != j ==> !Owner(s, fd, j);
    }
  }

  /** In every reachable state each open socket, and no other, has exactly one party responsible for it: the
      main thread, or the one worker whose set holds it or that is closing it. None is forgotten. */
  lemma {:induction false} EachSocketHasOneOwner(n: nat, s: State, fd: nat)
    requires Reachable(n, s)
    ensures |s.workers| == |s.registered| == n && Shape(s)
    ensures fd in s.open <==> Owned(s, fd)
    ensures forall i :: 0 <= i < n && Owner(s, fd, i) ==> !MainOwns(s, fd)
    ensures forall i, j :: 0 <= i < n && 0 <= j < n && Owner(s, fd, i) && Owner(s, fd, j) ==> i == j
  {
    ReachableInv(n, s);
    forall i | 0 <= i < n && Owner(s, fd, i) ensures fd in s.open && !MainOwns(s, fd) {
      assert OwnerOk(s, fd, i);
    }
  }

  /** When nothing is under way for a worker its counter is exact, for fewer than 2^32 connections. */
  lemma {:induction false} QuiescentCountersAreExact(n: nat, s: State, i: nat)
    requires Reachable(n, s) && i < n
    ensures |s.workers| == |s.counts| == |s.registered| == n
    ensures AddInFlight(s.main, i) == 0 && RemovalInFlight(s.workers[i]) == 0 && |s.registered[i]| < WRAP ==>
      s.counts[i] == |s.registered[i]|
  {
    CountersAccount(n, s, i);
  }

  /** Exactly when a counter is exact: an add and a removal are under way together or neither is. */
  lemma {:induction false} CounterIsExactIff(n: nat, s: State, i: nat)
    requires Reachable(n, s) && i < n
    ensures |s.workers| == |s.counts| == |s.registered| == n
    ensures s.counts[i] == |s.registered[i]| <==>
      |s.registered[i]| < WRAP && AddInFlight(s.main, i) == RemovalInFlight(s.workers[i])
  {
    CountersAccount(n, s, i);
  }

  /** Exactly when a counter has wrapped below zero: an add not yet counted is of a connection that is already
      discounted, and the worker has no other. */
  lemma {:induction false} CounterWrapsIff(n: nat, s: State, i: nat)
    requires Reachable(n, s) && i < n
    ensures |s.workers| == |s.counts| == |s.registered| == n
    ensures |s.registered[i]| < WRAP - 2 ==>
      (s.counts[i] == WRAP - 1 <==>
        s.registered[i] == {} && AddInFlight(s.main, i) == 1 && RemovalInFlight(s.workers[i]) == 0)
  {
    CountersAccount(n, s, i);
  }

  /** The main thread and a worker never both hold the worker's mutex, so what one of them has read is
      still the counter when it writes. */
  lemma {:induction false} NoUpdateIsLost(n: nat, s: State, i: nat)
    requires Reachable(n, s) && i < n
    ensures |s.workers| == |s.counts| == n
    ensures !(MainHolds(s.main, i) && WorkerHolds(s.workers[i]))
    ensures s.main.CountWriting? && s.main.w == i ==> s.main.value == s.counts[i]
    ensures s.workers[i].Writing? ==> s.workers[i].value == s.counts[i]
  {
    ReachableInv(n, s);
    assert LockOk(s, i);
  }

  lemma {:induction false} RunSnoc(s: State, steps: seq<Step>, a: Step)
    requires Shape(s) && EnabledRun(s, steps) && Enabled(Run(s, steps), a)
    ensures EnabledRun(s, steps + [a]) && Run(s, steps + [a]) == Do(Run(s, steps), a)
    decreases steps
  {
    if steps == [] {
      assert steps + [a] == [a];
    } else {
      RunSnoc(Do(s, steps[0]), steps[1..], a);
      assert (steps + [a])[1..] == steps[1..] + [a];
    }
  }

  lemma {:induction false} ReachableStep(n: nat, s: State, a: Step, t: State)
    requires Reachable(n, s) && Shape(s) && Enabled(s, a) && t == Do(s, a)
    ensures Reachable(n, t)
  {
    var steps :| EnabledRun(Start(n), steps) && Run(Start(n), steps) == s;
    RunSnoc(Start(n), steps, a);
  }

  /** A connection can be closed before it has been counted: its worker's counter then reads 2^32 - 1. */
  lemma {:induction false} CounterCanWrap()
    ensures Reachable(1, State({}, [{}], [WRAP - 1], [HeldByWorker], [Unlocking([])], CountLocking(0)))
  {
    RegisteredUncounted();
    ClosedUncounted();
    var s6 := State({}, [{}], [0], [Free], [Locking([])], CountLocking(0));
    var s7 := s6.(locks := [HeldByWorker], workers := [Reading([])]);
    ReachableStep(1, s6, Lock(0), s7);
    var s8 := s7.(workers := [Writing(0, [])]);
    ReachableStep(1, s7, Read(0), s8);
    ReachableStep(1, s8, Write(0), s8.(counts := [WRAP - 1], workers := [Unlocking([])]));
  }

  lemma {:induction false} RegisteredUncounted()
    ensures Reachable(1, State({7}, [{7}], [0], [Free], [Idle], CountLocking(0)))
  {
    assert EnabledRun(Start(1), []) && Run(Start(1), []) == Start(1);
    var s0 := State({}, [{}], [0], [Free], [Idle], Waiting);
    assert Start(1) == s0;
    var s1 := s0.(open := {7}, main := Choosing(7));
    ReachableStep(1, s0, Accept(7), s1);
    var s2 := s1.(main := Registering(7, 0));
    ReachableStep(1, s1, Choose(0), s2);
    ReachableStep(1, s2, Register(7, 0), s2.(registered := [{7}], main := CountLocking(0)));
  }

  lemma {:induction false} ClosedUncounted()
    requires Reachable(1, State({7}, [{7}], [0], [Free], [Idle], CountLocking(0)))
    ensures Reachable(1, State({}, [{}], [0], [Free], [Locking([])], CountLocking(0)))
  {
    var s3 := State({7}, [{7}], [0], [Free], [Idle], CountLocking(0));
    var s4 := s3.(workers := [Handling([7])]);
    ReachableStep(1, s3, Wait(0, [7]), s4);
    var none: set<nat> := {7} - {7};
    assert none == {} && [7][1..] == [];
    var s5 := s4.(registered := [{}], workers := [Closing(7, [])]);
    ReachableStep(1, s4, Deregister(0, 7), s5);
    ReachableStep(1, s5, Close(0, 7), s5.(open := {}, workers := [Locking([])]));
  }

  // ---------- what the threads do, over every interleaving ----------

  /** A worker's set changes by registering and deregistering the socket named, and by nothing else; so do the open
      sockets by accepting and closing. */
  lemma {:induction false} SetEffects(s: State, a: Step, w: nat)
    requires Shape(s) && Enabled(s, a) && w < |s.workers|
    ensures var t := Do(s, a);
      && t.registered[w] ==
           (if a.Register? && a.w == w then s.registered[w] + {a.fd}
            else if a.Deregister? && a.w == w then s.registered[w] - {a.fd}
            else s.registered[w])
      && t.open == (if a.Accept? then s.open + {a.fd} else if a.Close? then s.open - {a.fd} else s.open)
  {
  }

  /** A worker's counter changes by one, modulo 2^32, when the main thread or the worker writes it, and never
      else. */
  lemma {:induction false} CountEffects(s: State, a: Step, w: nat)
    requires Inv(s) && Enabled(s, a) && w < |s.workers|
    ensures Do(s, a).counts[w] ==
      (if a == MainWrite(w) then (s.counts[w] + 1) % 0x1_0000_0000
       else if a == Write(w) then (s.counts[w] + 0xFFFF_FFFF) % 0x1_0000_0000
       else s.counts[w])
  {
    assert LockOk(s, w);
  }

  /** A step of worker w. */
  predicate IsWorkers(a: Step, w: nat) {
    match a
    case Wait(v, _) => v == w
    case Keep(v, _) => v == w
    case Finish(v) => v == w
    case Deregister(v, _) => v == w
    case Close(v, _) => v == w
    case Lock(v) => v == w
    case Read(v) => v == w
    case Write(v) => v == w
    case Unlock(v) => v == w
    case _ => false
  }

  predicate IsMains(a: Step) {
    || a.Accept? || a.Peek? || a.EndPeek? || a.Choose? || a.Register?
    || a.MainLock? || a.MainRead? || a.MainWrite? || a.MainUnlock?
  }

  /** The sockets whose events worker w has handled, in order. */
  function HandledBy(steps: seq<Step>, w: nat): seq<nat> {
    if steps == [] then []
    else if (steps[0].Keep? || steps[0].Deregister?) && steps[0].w == w then [steps[0].fd] + HandledBy(steps[1..], w)
    else HandledBy(steps[1..], w)
  }

  lemma {:induction false} RunSplit(s: State, steps: seq<Step>, i: nat)
    requires Shape(s) && EnabledRun(s, steps) && i <= |steps|
    ensures EnabledRun(s, steps[..i]) && EnabledRun(Run(s, steps[..i]), steps[i..])
    ensures Run(s, steps) == Run(Run(s, steps[..i]), steps[i..])
    decreases i
  {
    if i == 0 {
      assert steps[..0] == [] && steps[0..] == steps;
    } else {
      RunSplit(Do(s, steps[0]), steps[1..], i - 1);
      assert steps[..i][0] == steps[0] && steps[..i][1..] == steps[1..][..i - 1] && steps[1..][i - 1..] == steps[i..];
    }
  }

  /** The i-th step of a run is enabled in the state the steps before it lead to. */
  lemma {:induction false} StepAt(s: State, steps: seq<Step>, i: nat)
    requires Shape(s) && EnabledRun(s, steps) && i < |steps|
    ensures EnabledRun(s, steps[..i]) && Enabled(Run(s, steps[..i]), steps[i])
    ensures var t := Do(Run(s, steps[..i]), steps[i]);
      EnabledRun(t, steps[i + 1..]) && EnabledRun(s, steps[..i + 1]) && Run(s, steps[..i + 1]) == t
  {
    RunSplit(s, steps, i);
    assert steps[i..][0] == steps[i] && steps[i..][1..] == steps[i + 1..];
    RunSnoc(s, steps[..i], steps[i]);
    assert steps[..i + 1] == steps[..i] + [steps[i]];
  }

  /** The steps between the i-th and the j-th lead from behind the one to before the other. */
  lemma {:induction false} Between(n: nat, steps: seq<Step>, i: nat, j: nat)
    requires EnabledRun(Start(n), steps) && i < j < |steps|
    ensures EnabledRun(Start(n), steps[..i]) && EnabledRun(Start(n), steps[..j])
    ensures var s, t, mid := Run(Start(n), steps[..i]), Run(Start(n), steps[..j]), steps[i + 1..j];
      && Enabled(s, steps[i]) && Enabled(t, steps[j])
      && EnabledRun(Do(s, steps[i]), mid) && Run(Do(s, steps[i]), mid) == t
  {
    StepAt(Start(n), steps, i);
    StepAt(Start(n), steps, j);
    RunSplit(Start(n), steps[..j], i + 1);
    assert steps[..j][..i + 1] == steps[..i + 1] && steps[..j][i + 1..] == steps[i + 1..j];
  }

  lemma {:induction false} PendingStep(s: State, a: Step, w: nat)
    requires Shape(s) && Enabled(s, a) && w < |s.workers| && !s.workers[w].Idle? && a != Finish(w)
    ensures var t := Do(s, a);
      && !t.workers[w].Idle?
      && Pending(s.workers[w]) ==
           (if (a.Keep? || a.Deregister?) && a.w == w then [a.fd] else []) + Pending(t.workers[w])
  {
  }

  /** Until it finishes, a worker has handled what is no longer pending. */
  lemma {:induction false} PendingIsUnhandled(s: State, steps: seq<Step>, w: nat)
    requires Shape(s) && EnabledRun(s, steps) && w < |s.workers| && !s.workers[w].Idle?
    requires forall k :: 0 <= k < |steps| ==> steps[k] != Finish(w)
    ensures var t := Run(s, steps);
      !t.workers[w].Idle? && Pending(s.workers[w]) == HandledBy(steps, w) + Pending(t.workers[w])
    decreases steps
  {
    if steps != [] {
      var t, rest := Do(s, steps[0]), steps[1..];
      assert steps[0] != Finish(w) && forall k :: 0 <= k < |rest| ==> rest[k] == steps[k + 1];
      PendingStep(s, steps[0], w);
      PendingIsUnhandled(t, rest, w);
      Handled(steps, w, Pending(Run(t, rest).workers[w]));
    }
  }

  lemma {:induction false} Handled(steps: seq<Step>, w: nat, rest: seq<nat>)
    requires steps != []
    ensures var first := if (steps[0].Keep? || steps[0].Deregister?) && steps[0].w == w then [steps[0].fd] else [];
      HandledBy(steps, w) + rest == first + (HandledBy(steps[1..], w) + rest)
  {
  }

  /** Over every interleaving: the events a worker handles between the wait that returned a batch and the end of
      its loop are those of the batch, each once and in order. */
  lemma {:induction false} BatchIsHandled(n: nat, steps: seq<Step>, i: nat, j: nat, w: nat)
    requires EnabledRun(Start(n), steps) && i < j < |steps|
    requires steps[i].Wait? && steps[i].w == w && steps[j] == Finish(w)
    requires forall k :: i < k < j ==> steps[k] != Finish(w)
    ensures HandledBy(steps[i + 1..j], w) == steps[i].batch
  {
    Between(n, steps, i, j);
    var mid := steps[i + 1..j];
    forall k | 0 <= k < |mid| ensures mid[k] != Finish(w) {
      assert mid[k] == steps[i + 1 + k];
    }
    PendingIsUnhandled(Do(Run(Start(n), steps[..i]), steps[i]), mid, w);
  }

  /** Where a worker is after a step of its own, and what it does next. */
  predicate FollowsInWorker(a: Step, b: Step) {
    match a
    case Deregister(w, fd) => b == Close(w, fd)
    case Close(w, fd) => b == Lock(w)
    case Lock(w) => b == Read(w)
    case Read(w) => b == Write(w)
    case Write(w) => b == Unlock(w)
    case Finish(w) => b.Wait?
    case _ => b.Keep? || b.Deregister? || b.Finish?
  }

  lemma {:induction false} WorkerStands(s: State, steps: seq<Step>, w: nat)
    requires Shape(s) && EnabledRun(s, steps) && w < |s.workers|
    requires forall k :: 0 <= k < |steps| ==> !IsWorkers(steps[k], w)
    ensures Run(s, steps).workers[w] == s.workers[w]
    decreases steps
  {
    if steps != [] {
      assert !IsWorkers(steps[0], w);
      WorkerStands(Do(s, steps[0]), steps[1..], w);
    }
  }

  lemma {:induction false} WorkerFollows(s: State, a: Step, t: State, b: Step, w: nat)
    requires Shape(s) && Shape(t) && w < |s.workers| == |t.workers| && IsWorkers(a, w) && IsWorkers(b, w)
    requires Enabled(s, a) && Enabled(t, b) && t.workers[w] == Do(s, a).workers[w]
    ensures FollowsInWorker(a, b)
  {
  }

  /** Over every interleaving, after each step of a worker comes the one its loop prescribes: what it deregisters it
      closes, and then discounts under its mutex, once. */
  lemma {:induction false} NextOfWorker(n: nat, steps: seq<Step>, i: nat, j: nat, w: nat)
    requires EnabledRun(Start(n), steps) && i < j < |steps| && w < n
    requires IsWorkers(steps[i], w) && IsWorkers(steps[j], w)
    requires forall k :: i < k < j ==> !IsWorkers(steps[k], w)
    ensures FollowsInWorker(steps[i], steps[j])
  {
    Between(n, steps, i, j);
    var s, t, mid := Run(Start(n), steps[..i]), Run(Start(n), steps[..j]), steps[i + 1..j];
    forall k | 0 <= k < |mid| ensures !IsWorkers(mid[k], w) {
      assert mid[k] == steps[i + 1 + k];
    }
    WorkerStands(Do(s, steps[i]), mid, w);
    WorkerFollows(s, steps[i], t, steps[j], w);
  }

  /** A step that is left to a worker, and one that is left to the main thread once it has accepted a socket. */
  function WorkersTurn(pc: WorkerPc, w: nat): Step {
    match pc
    case Idle => Wait(w, [])
    case Handling(p) => if p == [] then Finish(w) else Keep(w, p[0])
    case Closing(fd, _) => Close(w, fd)
    case Locking(_) => Lock(w)
    case Reading(_) => Read(w)
    case Writing(_, _) => Write(w)
    case Unlocking(_) => Unlock(w)
  }

  function MainsTurn(main: MainPc): Step
    requires !main.Waiting?
  {
    match main
    case Choosing(_) => Choose(0)
    case Peeking(_, w) => EndPeek(w)
    case Registering(fd, w) => Register(fd, w)
    case CountLocking(w) => MainLock(w)
    case CountReading(w) => MainRead(w)
    case CountWriting(w, _) => MainWrite(w)
    case CountUnlocking(w) => MainUnlock(w)
  }

  /** No deadlock: in every reachable state a worker can go on, unless it waits for its mutex, and then the main
      thread, which holds it, can; and the main thread can go on, unless it waits for the mutex of a worker, and
      then that worker, which holds it, can. */
  lemma {:induction false} NobodyIsStuck(n: nat, s: State, w: nat)
    requires Reachable(n, s) && w < n
    ensures Shape(s) && |s.workers| == n
    ensures
      || Enabled(s, WorkersTurn(s.workers[w], w))
      || (s.workers[w].Locking? && MainHolds(s.main, w) && Enabled(s, MainsTurn(s.main)))
    ensures !s.main.Waiting? ==>
      || Enabled(s, MainsTurn(s.main))
      || (s.main.CountLocking? && WorkerHolds(s.workers[s.main.w]) &&
          Enabled(s, WorkersTurn(s.workers[s.main.w], s.main.w)))
  {
    ReachableInv(n, s);
    assert LockOk(s, w);
    if s.main.CountLocking? {
      assert LockOk(s, s.main.w);
    }
  }

  /** What the kernel and the message handler decide is not constrained: any unused descriptor can be accepted, any
      batch of up to five of its sockets returned to an idle worker, and the socket whose turn it is kept or
      dropped. */
  lemma {:induction false} OutsideDecides(n: nat, s: State, w: nat, fd: nat, batch: seq<nat>)
    requires Reachable(n, s) && w < n
    ensures Shape(s) && |s.workers| == |s.registered| == n
    ensures s.main == Waiting && fd !in s.open ==> Enabled(s, Accept(fd))
    ensures s.workers[w] == Idle && |batch| <= 5 && Distinct(batch) && (set x | x in batch) <= s.registered[w] ==>
      Enabled(s, Wait(w, batch))
    ensures s.workers[w] == Handling([fd] + batch) ==> Enabled(s, Keep(w, fd)) && Enabled(s, Deregister(w, fd))
  {
    ReachableInv(n, s);
    forall i | 0 <= i < |batch| ensures batch[i] in (set x | x in batch) {
    }
  }

  predicate FollowsInMain(a: Step, b: Step) {
    match a
    case Accept(fd) => b.Peek? || b.Choose?
    case Peek(w) => b == EndPeek(w)
    case EndPeek(w) => b.Peek? || b.Choose?
    case Choose(w) => b.Register? && b.w == w
    case Register(fd, w) => b == MainLock(w)
    case MainLock(w) => b == MainRead(w)
    case MainRead(w) => b == MainWrite(w)
    case MainWrite(w) => b == MainUnlock(w)
    case _ => b.Accept?
  }

  lemma {:induction false} MainStands(s: State, steps: seq<Step>)
    requires Shape(s) && EnabledRun(s, steps) && forall k :: 0 <= k < |steps| ==> !IsMains(steps[k])
    ensures Run(s, steps).main == s.main
    decreases steps
  {
    if steps != [] {
      assert !IsMains(steps[0]);
      MainStands(Do(s, steps[0]), steps[1..]);
    }
  }

  lemma {:induction false} MainFollows(s: State, a: Step, t: State, b: Step)
    requires Shape(s) && Shape(t) && IsMains(a) && IsMains(b)
    requires Enabled(s, a) && Enabled(t, b) && t.main == Do(s, a).main
    ensures FollowsInMain(a, b)
  {
  }

  /** Over every interleaving, after each step of the main thread comes the one its loop prescribes: a connection is
      registered with the worker that was chosen, and counted there under its mutex, once. */
  lemma {:induction false} NextOfMain(n: nat, steps: seq<Step>, i: nat, j: nat)
    requires EnabledRun(Start(n), steps) && i < j < |steps| && IsMains(steps[i]) && IsMains(steps[j])
    requires forall k :: i < k < j ==> !IsMains(steps[k])
    ensures FollowsInMain(steps[i], steps[j])
  {
    Between(n, steps, i, j);
    var s, t, mid := Run(Start(n), steps[..i]), Run(Start(n), steps[..j]), steps[i + 1..j];
    forall k | 0 <= k < |mid| ensures !IsMains(mid[k]) {
      assert mid[k] == steps[i + 1 + k];
    }
    MainStands(Do(s, steps[i]), mid);
    MainFollows(s, steps[i], t, steps[j]);
  }

  /** The socket the main thread has accepted and not yet registered. */
  function Accepted(main: MainPc): seq<nat> {
    if main.Choosing? || main.Peeking? || main.Registering? then [main.fd] else []
  }

  lemma {:induction false} AcceptedStands(s: State, steps: seq<Step>)
    requires Shape(s) && EnabledRun(s, steps) && Accepted(s.main) != []
    requires forall k :: 0 <= k < |steps| ==> !steps[k].Register?
    ensures Accepted(Run(s, steps).main) == Accepted(s.main)
    decreases steps
  {
    if steps != [] {
      assert !steps[0].Register?;
      AcceptedStands(Do(s, steps[0]), steps[1..]);
    }
  }

  /** Over every interleaving, what is registered first after an accept is the accepted socket. */
  lemma {:induction false} AcceptedIsRegistered(n: nat, steps: seq<Step>, i: nat, j: nat)
    requires EnabledRun(Start(n), steps) && i < j < |steps| && steps[i].Accept? && steps[j].Register?
    requires forall k :: i < k < j ==> !steps[k].Register?
    ensures steps[j].fd == steps[i].fd
  {
    Between(n, steps, i, j);
    var mid := steps[i + 1..j];
    forall k | 0 <= k < |mid| ensures !mid[k].Register? {
      assert mid[k] == steps[i + 1 + k];
    }
    AcceptedStands(Do(Run(Start(n), steps[..i]), steps[i]), mid);
  }

  // ---------- the choice of a worker ----------

  predicate LeastLoaded(counts: seq<nat>, w: int) {
    0 <= w < |counts| && forall i :: 0 <= i < |counts| ==> counts[w] <= counts[i]
  }

  /** The loop that is to find the worker with the fewest connections compares a worker's number, not its
      count, with the counts: it always ends at worker 0, and is right exactly when that one has fewest. */
  method ChooseWorker(counts: seq<nat>) returns (chosen: int)
    ensures chosen == 0
    ensures LeastLoaded(counts, chosen) <==> |counts| > 0 && forall i :: 0 < i < |counts| ==> counts[0] <= counts[i]
  {
    chosen := 0;
    var i := 0;
    while i < |counts|
      invariant 0 <= i <= |counts| && chosen == 0
    {
      var activeCount := counts[i];
      if chosen > activeCount {
        chosen := i;
      }
      i := i + 1;
    }
  }

  /** A state reached with two workers in which a second connection waits and worker 0, which will get it, has
      one connection more than worker 1. */
  lemma {:induction false} LeastLoadedMissed()
    ensures Reachable(2, State({7, 8}, [{7}, {}], [1, 0], [Free, Free], [Idle, Idle], Choosing(8)))
    ensures !LeastLoaded([1, 0], 0) && LeastLoaded([1, 0], 1)
  {
    FirstIsRegistered();
    FirstIsCounted();
    var s7 := State({7}, [{7}, {}], [1, 0], [Free, Free], [Idle, Idle], Waiting);
    assert {7} + {8} == {7, 8};
    ReachableStep(2, s7, Accept(8), s7.(open := {7, 8}, main := Choosing(8)));
    var few: seq<nat> := [1, 0];
    assert few[1] < few[0];
  }

  lemma {:induction false} FirstIsRegistered()
    ensures Reachable(2, State({7}, [{7}, {}], [0, 0], [Free, Free], [Idle, Idle], CountLocking(0)))
  {
    assert EnabledRun(Start(2), []) && Run(Start(2), []) == Start(2);
    var s0 := State({}, [{}, {}], [0, 0], [Free, Free], [Idle, Idle], Waiting);
    assert Start(2) == s0;
    var s1 := s0.(open := {7}, main := Choosing(7));
    ReachableStep(2, s0, Accept(7), s1);
    var s2 := s1.(main := Registering(7, 0));
    ReachableStep(2, s1, Choose(0), s2);
    ReachableStep(2, s2, Register(7, 0), s2.(registered := [{7}, {}], main := CountLocking(0)));
  }

  lemma {:induction false} FirstIsCounted()
    requires Reachable(2, State({7}, [{7}, {}], [0, 0], [Free, Free], [Idle, Idle], CountLocking(0)))
    ensures Reachable(2, State({7}, [{7}, {}], [1, 0], [Free, Free], [Idle, Idle], Waiting))
  {
    var s3 := State({7}, [{7}, {}], [0, 0], [Free, Free], [Idle, Idle], CountLocking(0));
    var s4 := s3.(locks := [HeldByMain, Free], main := CountReading(0));
    ReachableStep(2, s3, MainLock(0), s4);
    var s5 := s4.(main := CountWriting(0, 0));
    ReachableStep(2, s4, MainRead(0), s5);
    var s6 := s5.(counts := [1, 0], main := CountUnlocking(0));
    ReachableStep(2, s5, MainWrite(0), s6);
    ReachableStep(2, s6, MainUnlock(0), s6.(locks := [Free, Free], main := Waiting));
  }

  ghost predicate OnlyFirst(s: State) {
    && Shape(s)
    && (!s.main.Waiting? && !s.main.Choosing? && !s.main.Peeking? ==> s.main.w == 0)
    && forall i :: 0 < i < |s.registered| ==> s.registered[i] == {}
  }

  /** With the worker that ChooseWorker returns, no other worker ever gets a connection. */
  lemma {:induction false} FirstWorkerGetsAll(s: State, steps: seq<Step>)
    requires OnlyFirst(s) && EnabledRun(s, steps)
    requires forall k :: 0 <= k < |steps| && steps[k].Choose? ==> steps[k].w == 0
    ensures OnlyFirst(Run(s, steps))
    decreases steps
  {
    if steps != [] {
      assert OnlyFirst(Do(s, steps[0]));
      FirstWorkerGetsAll(Do(s, steps[0]), steps[1..]);
    }
  }
}
