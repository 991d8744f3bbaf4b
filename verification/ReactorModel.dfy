/** The reactor of reactor/server.c on values: the event entries by descriptor, the kernel's interest set,
    and the callbacks that keep the two in step. */
module ReactorModel {
  import opened Wrappers

  const BUFFER_LENGTH: nat := 4096

  type Byte = x: int | 0 <= x < 256

  datatype Flag = In | Out | Err | Hup

  datatype Callback = NoCallback | AcceptCb | RecvCb | SendCb

  /** An event entry. A block is zeroed when it is allocated. */
  datatype Entry = Entry(fd: int, events: set<Flag>, callback: Callback, status: int, buffer: seq<Byte>, length: nat)

  const ZERO: Entry := Entry(0, {}, NoCallback, 0, [], 0)

  /** What the kernel has registered for a descriptor: the events and the entry it hands back. */
  datatype Reg = Reg(events: set<Flag>, entry: nat)

  datatype Op = Add | Mod | Del

  /** Entries by descriptor (those never written are zero), the kernel's open sockets and interest set, and
      per connection the chunks received and sent so far. */
  datatype Machine = Machine(
    table: map<nat, Entry>,
    open: set<nat>,
    interest: map<nat, Reg>,
    received: map<nat, seq<seq<Byte>>>,
    sent: map<nat, seq<seq<Byte>>>)

  function Get(table: map<nat, Entry>, fd: nat): Entry {
    if fd in table then table[fd] else ZERO
  }

  // ---------- the kernel ----------

  function Ctl(m: Machine, op: Op, fd: int, reg: Reg): (Machine, bool) {
    if fd < 0 || fd !in m.open then (m, false)
    else match op
      case Add => if fd in m.interest then (m, false) else (m.(interest := m.interest[fd := reg]), true)
      case Mod => if fd in m.interest then (m.(interest := m.interest[fd := reg]), true) else (m, false)
      case Del => if fd in m.interest then (m.(interest := m.interest - {fd}), true) else (m, false)
  }

  function CloseFd(m: Machine, fd: int): Machine {
    if fd < 0 then m else m.(open := m.open - {fd}, interest := m.interest - {fd})
  }

  // ---------- entries ----------

  function Put(m: Machine, e: nat, entry: Entry): Machine {
    m.(table := m.table[e := entry])
  }

  function EventSet(m: Machine, e: nat, fd: int, callback: Callback): Machine {
    Put(m, e, Get(m.table, e).(fd := fd, callback := callback, events := {}))
  }

  /** Register or modify, depending on the entry's status. The second result is whether epoll_ctl succeeded. */
  function EventAdd(m: Machine, e: nat, events: set<Flag>): (Machine, bool) {
    var entry := Get(m.table, e);
    var op := if entry.status == 1 then Mod else Add;
    Ctl(Put(m, e, entry.(events := events, status := 1)), op, entry.fd, Reg(events, e))
  }

  function EventDel(m: Machine, e: nat): Machine {
    var entry := Get(m.table, e);
    if entry.status != 1 then m
    else Ctl(Put(m, e, entry.(status := 0)), Del, entry.fd, Reg({}, e)).0
  }

  // ---------- callbacks ----------

  /** What the socket call of a callback reports. */
  datatype Input =
    | Accepted(client: Option<nat>)
    | Received(bytes: seq<Byte>)
    | EndOfStream
    | Failed
    | Sent(count: nat)

  /** recv overwrites the beginning of the buffer. */
  function Filled(buffer: seq<Byte>, bytes: seq<Byte>): seq<Byte> {
    bytes + if |buffer| > |bytes| then buffer[|bytes|..] else []
  }

  function OnRecv(m: Machine, fd: nat, input: Input): (Machine, bool) {
    if input.Received? && input.bytes != [] then
      var entry := Get(m.table, fd);
      var m1 := Put(m, fd, entry.(buffer := Filled(entry.buffer, input.bytes)));
      var m2 := EventDel(m1, fd);
      var m3 := Put(m2, fd, Get(m2.table, fd).(length := |input.bytes|));
      var m4 := m3.(received := m3.received[fd := Chunks(m3.received, fd) + [input.bytes]]);
      EventAdd(EventSet(m4, fd, fd, SendCb), fd, {Out})
    else
      (CloseFd(EventDel(m, fd), Get(m.table, fd).fd), true)
  }

  function OnSend(m: Machine, fd: nat, input: Input): (Machine, bool) {
    var entry := Get(m.table, fd);
    if input.Sent? && 0 < input.count <= |entry.buffer| then
      var m1 := m.(sent := m.sent[fd := Chunks(m.sent, fd) + [entry.buffer[..input.count]]]);
      EventAdd(EventSet(EventDel(m1, fd), fd, fd, RecvCb), fd, {In})
    else
      (EventDel(CloseFd(m, entry.fd), fd), true)
  }

  function OnAccept(m: Machine, fd: nat, input: Input): (Machine, bool) {
    if input.Accepted? && input.client.Some? then
      var c := input.client.value;
      var m1 := m.(open := m.open + {c}, received := m.received[c := []], sent := m.sent[c := []]);
      EventAdd(EventSet(m1, c, c, RecvCb), c, {In})
    else (m, true)
  }

  function Chunks(log: map<nat, seq<seq<Byte>>>, fd: nat): seq<seq<Byte>> {
    if fd in log then log[fd] else []
  }

  function Call(m: Machine, e: nat, input: Input): (Machine, bool) {
    var entry := Get(m.table, e);
    if entry.fd < 0 then (m, true)
    else match entry.callback
      case AcceptCb => OnAccept(m, entry.fd, input)
      case RecvCb => OnRecv(m, entry.fd, input)
      case SendCb => OnSend(m, entry.fd, input)
      case NoCallback => (m, true)
  }

  // ---------- entries and interest set in step ----------

  ghost predicate ModeOk(entry: Entry) {
    || (entry.events == {In} && (entry.callback == RecvCb || entry.callback == AcceptCb))
    || (entry.events == {Out} && entry.callback == SendCb)
  }

  /** One descriptor: its entry says registered exactly if the kernel has it, with the same events and this
      entry, and the callback fits the events. */
  ghost predicate InStep(m: Machine, fd: nat) {
    var entry := Get(m.table, fd);
    && (entry.status == 1 <==> fd in m.interest)
    && (fd in m.open <==> fd in m.interest)
    && (fd in m.interest ==> entry.fd == fd && m.interest[fd] == Reg(entry.events, fd) && ModeOk(entry))
  }

  /** The chunks of one connection: each sent one is a beginning of the one received; between a receive and
      its send the last chunk received is in the buffer. */
  ghost predicate EchoOk(m: Machine, fd: nat) {
    var entry, r, s := Get(m.table, fd), Chunks(m.received, fd), Chunks(m.sent, fd);
    fd in m.interest && entry.callback != AcceptCb ==>
      && |r| == |s| + (if entry.callback == SendCb then 1 else 0)
      && (forall i :: 0 <= i < |s| ==> s[i] <= r[i])
      && (entry.callback == SendCb ==> entry.length <= |entry.buffer| && entry.buffer[..entry.length] == r[|s|])
  }

  ghost predicate Sync(m: Machine) {
    forall fd: nat :: InStep(m, fd) && EchoOk(m, fd)
  }

  /** What the kernel can report to the callback of an entry. */
  predicate Possible(m: Machine, fd: nat, input: Input) {
    match Get(m.table, fd).callback
    case AcceptCb => input.Accepted? && (input.client.Some? ==> input.client.value !in m.open)
    case RecvCb => (input.Received? && 0 < |input.bytes| <= BUFFER_LENGTH) || input.EndOfStream? || input.Failed?
    case SendCb => (input.Sent? && input.count <= Get(m.table, fd).length) || input.Failed?
    case NoCallback => false
  }

  /** Nothing about descriptor g differs. */
  ghost predicate SameAt(m: Machine, m1: Machine, g: nat) {
    && Get(m.table, g) == Get(m1.table, g)
    && (g in m.open <==> g in m1.open)
    && (g in m.interest <==> g in m1.interest) && (g in m.interest ==> m.interest[g] == m1.interest[g])
    && Chunks(m.received, g) == Chunks(m1.received, g) && Chunks(m.sent, g) == Chunks(m1.sent, g)
  }

  /** What holds of every descriptor before a change of one holds after it. */
  lemma {:induction false} OthersKeep(m: Machine, m1: Machine, fd: nat)
    requires Sync(m) && (forall g: nat :: g != fd ==> SameAt(m, m1, g))
    requires InStep(m1, fd) && EchoOk(m1, fd)
    ensures Sync(m1)
  {
    forall g: nat ensures InStep(m1, g) && EchoOk(m1, g) {
      if g != fd {
        assert SameAt(m, m1, g) && InStep(m, g) && EchoOk(m, g);
      }
    }
  }

  lemma {:induction false} RecvInStep(m: Machine, fd: nat, input: Input)
    requires Sync(m) && fd in m.interest && Get(m.table, fd).callback == RecvCb && Possible(m, fd, input)
    ensures Sync(OnRecv(m, fd, input).0) && OnRecv(m, fd, input).1
    ensures forall g: nat :: g != fd ==> SameAt(m, OnRecv(m, fd, input).0, g)
  {
    assert InStep(m, fd) && EchoOk(m, fd);
    OthersKeep(m, OnRecv(m, fd, input).0, fd);
  }

  lemma {:induction false} SendInStep(m: Machine, fd: nat, input: Input)
    requires Sync(m) && fd in m.interest && Get(m.table, fd).callback == SendCb && Possible(m, fd, input)
    ensures Sync(OnSend(m, fd, input).0) && OnSend(m, fd, input).1
    ensures forall g: nat :: g != fd ==> SameAt(m, OnSend(m, fd, input).0, g)
  {
    assert InStep(m, fd) && EchoOk(m, fd);
    OthersKeep(m, OnSend(m, fd, input).0, fd);
  }

  lemma {:induction false} AcceptInStep(m: Machine, fd: nat, input: Input)
    requires Sync(m) && fd in m.interest && Get(m.table, fd).callback == AcceptCb && Possible(m, fd, input)
    ensures Sync(OnAccept(m, fd, input).0) && OnAccept(m, fd, input).1
    ensures forall g: nat :: g in m.interest ==> SameAt(m, OnAccept(m, fd, input).0, g)
  {
    if input.client.Some? {
      assert InStep(m, input.client.value);
      OthersKeep(m, OnAccept(m, fd, input).0, input.client.value);
    }
    forall g: nat | g in m.interest ensures SameAt(m, OnAccept(m, fd, input).0, g) {
      assert InStep(m, g);
    }
  }

  /** The callback of a registered entry keeps everything in step, its epoll_ctl calls succeed, and no other
      registered descriptor changes. */
  lemma {:induction false} CallInStep(m: Machine, fd: nat, input: Input)
    requires Sync(m) && fd in m.interest && Possible(m, fd, input)
    ensures Sync(Call(m, fd, input).0) && Call(m, fd, input).1
    ensures forall g: nat :: g in m.interest && g != fd ==> SameAt(m, Call(m, fd, input).0, g)
  {
    assert InStep(m, fd);
    match Get(m.table, fd).callback
    case AcceptCb => AcceptInStep(m, fd, input);
    case RecvCb => RecvInStep(m, fd, input);
    case SendCb => SendInStep(m, fd, input);
    case NoCallback =>
  }

  // ---------- the dispatch loop ----------

  /** One event of a batch: the entry the kernel hands back, the flags it reports, and what the socket call
      of the callback will report. */
  datatype Ready = Ready(entry: nat, flags: set<Flag>, input: Input)

  /** The two tests of the loop body. The third result counts the callbacks run. */
  function Dispatch(m: Machine, ev: Ready): (Machine, bool, nat) {
    var first := In in ev.flags && In in Get(m.table, ev.entry).events;
    var (m1, ok1) := if first then Call(m, ev.entry, ev.input) else (m, true);
    var second := Out in ev.flags && Out in Get(m1.table, ev.entry).events;
    var (m2, ok2) := if second then Call(m1, ev.entry, ev.input) else (m1, true);
    (m2, ok1 && ok2, (if first then 1 else 0) + if second then 1 else 0)
  }

  /** The kernel reports a registered descriptor, with the entry registered for it, with flags among those
      asked for and the two that are always reported. */
  predicate Reported(m: Machine, ev: Ready) {
    ev.entry in m.interest && ev.flags <= m.interest[ev.entry].events + {Err, Hup}
  }

  /** Handling an event keeps everything in step and runs at most one callback, which is the one that fits:
      exactly one if a requested flag is reported. */
  lemma {:induction false} DispatchInStep(m: Machine, ev: Ready)
    requires Sync(m) && Reported(m, ev) && Possible(m, ev.entry, ev.input)
    ensures var (m1, ok, calls) := Dispatch(m, ev);
      && Sync(m1) && ok
      && calls == (if In in ev.flags || Out in ev.flags then 1 else 0)
      && forall g: nat :: g in m.interest && g != ev.entry ==> SameAt(m, m1, g)
  {
    assert InStep(m, ev.entry);
    CallInStep(m, ev.entry, ev.input);
  }

  function Round(m: Machine, batch: seq<Ready>): (Machine, bool)
    decreases batch
  {
    if batch == [] then (m, true)
    else
      var (m1, ok1, calls) := Dispatch(m, batch[0]);
      var (m2, ok2) := Round(m1, batch[1..]);
      (m2, ok1 && ok2)
  }

  ghost predicate DistinctEntries(batch: seq<Ready>) {
    forall i, j :: 0 <= i < j < |batch| ==> batch[i].entry != batch[j].entry
  }

  ghost predicate AllReported(m: Machine, batch: seq<Ready>) {
    forall i :: 0 <= i < |batch| ==> Reported(m, batch[i])
  }

  /** When its turn comes each socket call reports something possible. */
  ghost predicate PossibleBatch(m: Machine, batch: seq<Ready>)
    decreases batch
  {
    batch == [] || (Possible(m, batch[0].entry, batch[0].input) && PossibleBatch(Dispatch(m, batch[0]).0, batch[1..]))
  }

  /** What was reported together stays valid while the batch is handled, though callbacks close sockets and
      accept new ones, possibly with a descriptor just closed. */
  lemma {:induction false} RoundInStep(m: Machine, batch: seq<Ready>)
    requires Sync(m) && AllReported(m, batch) && DistinctEntries(batch) && PossibleBatch(m, batch)
    ensures Sync(Round(m, batch).0) && Round(m, batch).1
    decreases batch
  {
    if batch != [] {
      assert Reported(m, batch[0]);
      DispatchInStep(m, batch[0]);
      var m1, rest := Dispatch(m, batch[0]).0, batch[1..];
      forall i | 0 <= i < |rest| ensures Reported(m1, rest[i]) {
        assert rest[i] == batch[i + 1] && Reported(m, batch[i + 1]);
        assert SameAt(m, m1, rest[i].entry);
      }
      RoundInStep(m1, rest);
    }
  }

  // ---------- runs ----------

  function AddListener(m: Machine, fd: nat): (Machine, bool) {
    var m1 := m.(open := m.open + {fd});
    EventAdd(EventSet(m1, fd, fd, AcceptCb), fd, {In})
  }

  const EMPTY: Machine := Machine(map[], {}, map[], map[], map[])

  lemma EmptyInStep()
    ensures Sync(EMPTY)
  {
  }

  /** A fresh socket made a listener. */
  lemma {:induction false} ListenerInStep(m: Machine, fd: nat)
    requires Sync(m) && fd !in m.open
    ensures Sync(AddListener(m, fd).0) && AddListener(m, fd).1
  {
    assert InStep(m, fd);
    OthersKeep(m, AddListener(m, fd).0, fd);
  }

  function Rounds(m: Machine, batches: seq<seq<Ready>>): (Machine, bool)
    decreases batches
  {
    if batches == [] then (m, true)
    else
      var (m1, ok1) := Round(m, batches[0]);
      var (m2, ok2) := Rounds(m1, batches[1..]);
      (m2, ok1 && ok2)
  }

  /** Each wait returns registered descriptors, each once. */
  ghost predicate LegalRounds(m: Machine, batches: seq<seq<Ready>>)
    decreases batches
  {
    batches == [] ||
    (AllReported(m, batches[0]) && DistinctEntries(batches[0]) && PossibleBatch(m, batches[0])
     && LegalRounds(Round(m, batches[0]).0, batches[1..]))
  }

  /** Over every run of the loop, entries and interest set stay in step, every epoll_ctl call succeeds (so
      the choice between adding and modifying is always right), and every connection is echoed. */
  lemma {:induction false} ReactorStaysInStep(m: Machine, batches: seq<seq<Ready>>)
    requires Sync(m) && LegalRounds(m, batches)
    ensures Sync(Rounds(m, batches).0) && Rounds(m, batches).1
    decreases batches
  {
    if batches != [] {
      RoundInStep(m, batches[0]);
      ReactorStaysInStep(Round(m, batches[0]).0, batches[1..]);
    }
  }

  /** The sockets the server listens on, registered one after the other. */
  function AddListeners(m: Machine, fds: seq<nat>): (Machine, bool)
    decreases fds
  {
    if fds == [] then (m, true)
    else
      var (m1, ok1) := AddListener(m, fds[0]);
      var (m2, ok2) := AddListeners(m1, fds[1..]);
      (m2, ok1 && ok2)
  }

  lemma {:induction false} ListenersInStep(m: Machine, fds: seq<nat>)
    requires Sync(m) && forall i :: 0 <= i < |fds| ==> fds[i] !in m.open
    requires forall i, j :: 0 <= i < j < |fds| ==> fds[i] != fds[j]
    ensures Sync(AddListeners(m, fds).0) && AddListeners(m, fds).1
    decreases fds
  {
    if fds != [] {
      ListenerInStep(m, fds[0]);
      ListenersInStep(AddListener(m, fds[0]).0, fds[1..]);
    }
  }

  /** From a new reactor, through the registration of its listeners, over every run of the loop. */
  lemma {:induction false} EveryRunInStep(fds: seq<nat>, batches: seq<seq<Ready>>)
    requires forall i, j :: 0 <= i < j < |fds| ==> fds[i] != fds[j]
    requires LegalRounds(AddListeners(EMPTY, fds).0, batches)
    ensures AddListeners(EMPTY, fds).1
    ensures var (m, ok) := Rounds(AddListeners(EMPTY, fds).0, batches); Sync(m) && ok
  {
    EmptyInStep();
    ListenersInStep(EMPTY, fds);
    ReactorStaysInStep(AddListeners(EMPTY, fds).0, batches);
  }

  /** A server's history: listeners registered at any time, and rounds. */
  datatype ServerStep = Listens(fd: nat) | Serves(batch: seq<Ready>)

  function Take(m: Machine, step: ServerStep): (Machine, bool) {
    match step
    case Listens(fd) => AddListener(m, fd)
    case Serves(batch) => Round(m, batch)
  }

  function TakeAll(m: Machine, steps: seq<ServerStep>): (Machine, bool)
    decreases steps
  {
    if steps == [] then (m, true)
    else
      var (m1, ok1) := Take(m, steps[0]);
      var (m2, ok2) := TakeAll(m1, steps[1..]);
      (m2, ok1 && ok2)
  }

  /** Listeners are fresh sockets; each wait returns registered descriptors, each once. */
  ghost predicate LegalSteps(m: Machine, steps: seq<ServerStep>)
    decreases steps
  {
    steps == [] ||
    ((match steps[0]
      case Listens(fd) => fd !in m.open
      case Serves(batch) => AllReported(m, batch) && DistinctEntries(batch) && PossibleBatch(m, batch))
     && LegalSteps(Take(m, steps[0]).0, steps[1..]))
  }

  lemma {:induction false} HistoryInStep(m: Machine, steps: seq<ServerStep>)
    requires Sync(m) && LegalSteps(m, steps)
    ensures Sync(TakeAll(m, steps).0) && TakeAll(m, steps).1
    decreases steps
  {
    if steps != [] {
      match steps[0] {
        case Listens(fd) => ListenerInStep(m, fd);
        case Serves(batch) => RoundInStep(m, batch);
      }
      HistoryInStep(Take(m, steps[0]).0, steps[1..]);
    }
  }

  lemma {:induction false} TakeSnoc(m: Machine, steps: seq<ServerStep>, step: ServerStep)
    ensures var (m1, ok1) := TakeAll(m, steps);
      TakeAll(m, steps + [step]) == (Take(m1, step).0, ok1 && Take(m1, step).1)
    decreases steps
  {
    if steps == [] {
      assert steps + [step] == [step] && [step][1..] == [];
    } else {
      TakeSnoc(Take(m, steps[0]).0, steps[1..], step);
      assert (steps + [step])[0] == steps[0] && (steps + [step])[1..] == steps[1..] + [step];
    }
  }

  // ---------- echo ----------

  function Joined(chunks: seq<seq<Byte>>): seq<Byte> {
    if chunks == [] then [] else chunks[0] + Joined(chunks[1..])
  }

  /** What has been received and is waiting to be sent. */
  function PendingBytes(m: Machine, fd: nat): seq<Byte> {
    var entry := Get(m.table, fd);
    if entry.callback == SendCb && entry.length <= |entry.buffer| then entry.buffer[..entry.length] else []
  }

  lemma {:induction false} JoinedLength(r: seq<seq<Byte>>, s: seq<seq<Byte>>)
    requires |r| == |s| && forall i :: 0 <= i < |s| ==> s[i] <= r[i]
    ensures |Joined(s)| <= |Joined(r)|
    ensures |Joined(s)| == |Joined(r)| <==> r == s
  {
    if s != [] {
      JoinedLength(r[1..], s[1..]);
      assert s[0] <= r[0];
      if |Joined(s)| == |Joined(r)| {
        assert |s[0]| == |r[0]| && r[0] == s[0] && r[1..] == s[1..];
        assert r == [r[0]] + r[1..] && s == [s[0]] + s[1..];
      }
    }
  }

  lemma {:induction false} JoinedSnoc(chunks: seq<seq<Byte>>, last: seq<Byte>)
    ensures Joined(chunks + [last]) == Joined(chunks) + last
  {
    if chunks == [] {
      assert chunks + [last] == [last];
    } else {
      JoinedSnoc(chunks[1..], last);
      assert (chunks + [last])[1..] == chunks[1..] + [last];
      assert Joined(chunks + [last]) == chunks[0] + (Joined(chunks[1..]) + last);
    }
  }

  /** The bytes a connection has received are those it has sent followed by those pending exactly if every
      chunk was sent in full; a short send loses the rest of its chunk. */
  lemma {:induction false} EchoIsCompleteIff(m: Machine, fd: nat)
    requires Sync(m) && fd in m.interest && Get(m.table, fd).callback != AcceptCb
    ensures var r, s := Chunks(m.received, fd), Chunks(m.sent, fd);
      |s| <= |r| &&
      (Joined(r) == Joined(s) + PendingBytes(m, fd) <==> forall i :: 0 <= i < |s| ==> s[i] == r[i])
  {
    assert InStep(m, fd) && EchoOk(m, fd);
    var r, s, pending := Chunks(m.received, fd), Chunks(m.sent, fd), PendingBytes(m, fd);
    var r1 := r[..|s|];
    if Get(m.table, fd).callback == SendCb {
      assert r == r1 + [r[|s|]];
      JoinedSnoc(r1, r[|s|]);
    } else {
      assert r == r1;
    }
    assert Joined(r) == Joined(r1) + pending;
    JoinedLength(r1, s);
    if Joined(r) == Joined(s) + pending {
      assert |Joined(r1)| == |Joined(s)|;
    }
    if forall i :: 0 <= i < |s| ==> s[i] == r[i] {
      assert r1 == s;
    }
  }

  // A listener 3 accepts connection 4, which sends two bytes and gets one back.
  const FRESH: Machine := Machine(
    map[3 := Entry(3, {In}, AcceptCb, 1, [], 0)], {3}, map[3 := Reg({In}, 3)], map[], map[])
  const GREETED: Machine := FRESH.(
    table := FRESH.table[4 := Entry(4, {In}, RecvCb, 1, [], 0)], open := {3, 4},
    interest := FRESH.interest[4 := Reg({In}, 4)], received := map[4 := []], sent := map[4 := []])
  const HEARD: Machine := GREETED.(
    table := GREETED.table[4 := Entry(4, {Out}, SendCb, 1, [1, 2], 2)],
    interest := GREETED.interest[4 := Reg({Out}, 4)], received := map[4 := [[1, 2]]])
  const ANSWERED: Machine := HEARD.(
    table := HEARD.table[4 := Entry(4, {In}, RecvCb, 1, [1, 2], 2)],
    interest := HEARD.interest[4 := Reg({In}, 4)], sent := map[4 := [[1]]])

  const GREETING: Ready := Ready(3, {In}, Accepted(Some(4)))
  const QUESTION: Ready := Ready(4, {In}, Received([1, 2]))
  const ANSWER: Ready := Ready(4, {Out}, Sent(1))

  lemma {:induction false} Listens()
    ensures AddListener(EMPTY, 3) == (FRESH, true)
  {
    var m := AddListener(EMPTY, 3).0;
    assert m.table[3] == FRESH.table[3] && m.table == FRESH.table && m.interest == FRESH.interest;
    assert m.open == FRESH.open && m == FRESH;
  }

  lemma {:induction false} Greets()
    ensures Dispatch(FRESH, GREETING) == (GREETED, true, 1)
  {
    var m := OnAccept(FRESH, 3, Accepted(Some(4))).0;
    assert m.table == GREETED.table && m.interest == GREETED.interest;
    assert m.received == GREETED.received && m.sent == GREETED.sent;
    assert m == GREETED && Dispatch(FRESH, GREETING).0 == m;
  }

  lemma {:induction false} Hears()
    ensures Dispatch(GREETED, QUESTION) == (HEARD, true, 1)
  {
    assert Filled([], [1, 2]) == [1, 2] && [] + [[1, 2]] == [[1, 2]];
    var m := OnRecv(GREETED, 4, Received([1, 2])).0;
    assert m.table[4] == HEARD.table[4];
    assert m.table == HEARD.table && m.interest == HEARD.interest && m.received == HEARD.received;
    assert m == HEARD && Call(GREETED, 4, Received([1, 2])).0 == m;
    assert Out !in QUESTION.flags;
  }

  lemma {:induction false} Answers()
    ensures Dispatch(HEARD, ANSWER) == (ANSWERED, true, 1)
  {
    assert [1, 2][..1] == [1] && [] + [[1]] == [[1]];
    var m := OnSend(HEARD, 4, Sent(1)).0;
    assert m.table[4] == ANSWERED.table[4];
    assert m.table == ANSWERED.table && m.interest == ANSWERED.interest && m.sent == ANSWERED.sent;
    assert m == ANSWERED && Call(HEARD, 4, Sent(1)).0 == m;
    assert In !in ANSWER.flags;
  }

  lemma {:induction false} OneByOne(m: Machine, ev: Ready, batches: seq<seq<Ready>>)
    requires Reported(m, ev) && Possible(m, ev.entry, ev.input) && LegalRounds(Dispatch(m, ev).0, batches)
    ensures LegalRounds(m, [[ev]] + batches)
    ensures Rounds(m, [[ev]] + batches).0 == Rounds(Dispatch(m, ev).0, batches).0
  {
    assert [ev][1..] == [] && ([[ev]] + batches)[1..] == batches;
    assert Round(m, [ev]).0 == Dispatch(m, ev).0;
    assert PossibleBatch(Dispatch(m, ev).0, []);
  }

  const EXCHANGE: seq<seq<Ready>> := [[GREETING]] + ([[QUESTION]] + ([[ANSWER]] + []))

  lemma {:induction false} ExchangeRuns()
    ensures LegalRounds(FRESH, EXCHANGE) && Rounds(FRESH, EXCHANGE).0 == ANSWERED
  {
    Greets();
    Hears();
    Answers();
    OneByOne(HEARD, ANSWER, []);
    OneByOne(GREETED, QUESTION, [[ANSWER]] + []);
    OneByOne(FRESH, GREETING, [[QUESTION]] + ([[ANSWER]] + []));
  }

  /** A run with a short send, after which a byte that was received has neither been sent nor is pending. */
  lemma {:induction false} ShortSendLoses()
    ensures LegalRounds(AddListener(EMPTY, 3).0, EXCHANGE)
    ensures var m := Rounds(AddListener(EMPTY, 3).0, EXCHANGE).0;
      Joined(Chunks(m.received, 4)) == [1, 2] && Joined(Chunks(m.sent, 4)) == [1] && PendingBytes(m, 4) == []
  {
    Listens();
    ExchangeRuns();
    var received: seq<seq<Byte>>, sent: seq<seq<Byte>> := [[1, 2]], [[1]];
    assert Chunks(ANSWERED.received, 4) == received && Chunks(ANSWERED.sent, 4) == sent;
    JoinedOne([1, 2]);
    JoinedOne([1]);
  }

  lemma {:induction false} JoinedOne(chunk: seq<Byte>)
    ensures Joined([chunk]) == chunk
  {
    assert [chunk][1..] == [];
  }
}
