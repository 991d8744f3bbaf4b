/** What the callbacks of the reactor (reactor/server.c) leave behind, for everything their socket calls can
    report: which sockets are open, what is registered for them, and what has been received and sent. */
module ReactorOutcomes {
  import opened Wrappers
  import opened ReactorModel

  /** The kernel watches an open socket for one kind of event, and its entry has the callback for it. */
  ghost predicate Watched(m: Machine, fd: nat, flag: Flag, callback: Callback) {
    && fd in m.open && fd in m.interest && m.interest[fd].events == {flag}
    && Get(m.table, fd).callback == callback && Get(m.table, fd).fd == fd
  }

  ghost predicate Gone(m: Machine, fd: nat) {
    fd !in m.open && fd !in m.interest && Get(m.table, fd).status != 1
  }

  /** epoll_ctl succeeds on an open socket, adding what is not registered and changing what is; otherwise it
      changes nothing. */
  lemma {:induction false} CtlSucceedsIff(m: Machine, op: Op, fd: nat, reg: Reg)
    ensures var (m1, ok) := Ctl(m, op, fd, reg);
      && (ok <==> fd in m.open && (op == Add <==> fd !in m.interest))
      && (!ok ==> m1 == m)
      && (ok && op == Del ==> fd !in m1.interest)
      && (ok && op != Del ==> fd in m1.interest && m1.interest[fd] == reg)
      && m1.open == m.open && m1.table == m.table
  {
  }

  /** A connection that was readable: bytes that are received are logged, kept as they came, and the connection
      waits to be written to; at the end of the stream and on an error it is closed. */
  lemma {:induction false} AfterRecv(m: Machine, fd: nat, input: Input)
    requires Sync(m) && fd in m.interest && Get(m.table, fd).callback == RecvCb
    requires input.EndOfStream? || input.Failed? || (input.Received? && 0 < |input.bytes| <= 4096)
    ensures var m1 := Call(m, fd, input).0;
      && Chunks(m1.sent, fd) == Chunks(m.sent, fd)
      && (input.Received? ==>
            && Watched(m1, fd, Out, SendCb) && PendingBytes(m1, fd) == input.bytes
            && Chunks(m1.received, fd) == Chunks(m.received, fd) + [input.bytes])
      && (!input.Received? ==> Gone(m1, fd) && Chunks(m1.received, fd) == Chunks(m.received, fd))
  {
    assert InStep(m, fd) && EchoOk(m, fd);
  }

  /** A connection that was writable: it stays open if and only if the send reported a positive count; then it
      waits to be read from, and what was sent is that much of what was pending. */
  lemma {:induction false} AfterSend(m: Machine, fd: nat, input: Input)
    requires Sync(m) && fd in m.interest && Get(m.table, fd).callback == SendCb
    requires input.Failed? || (input.Sent? && input.count <= |PendingBytes(m, fd)|)
    ensures var m1 := Call(m, fd, input).0;
      var sent := input.Sent? && input.count > 0;
      && Chunks(m1.received, fd) == Chunks(m.received, fd) && (fd in m1.open <==> sent)
      && (sent ==>
            && Watched(m1, fd, In, RecvCb)
            && Chunks(m1.sent, fd) == Chunks(m.sent, fd) + [PendingBytes(m, fd)[..input.count]])
      && (!sent ==> Gone(m1, fd) && Chunks(m1.sent, fd) == Chunks(m.sent, fd))
  {
    assert InStep(m, fd) && EchoOk(m, fd);
    var entry := Get(m.table, fd);
    if input.Sent? {
      assert entry.buffer[..entry.length][..input.count] == entry.buffer[..input.count];
    }
  }

  /** A listener that was readable: the accepted client is open, waits to be read from and has nothing received or
      sent; a failed accept changes nothing. */
  lemma {:induction false} AfterAccept(m: Machine, fd: nat, input: Input)
    requires Sync(m) && fd in m.interest && Get(m.table, fd).callback == AcceptCb
    requires input.Accepted? && (input.client.Some? ==> input.client.value !in m.open)
    ensures var m1 := Call(m, fd, input).0;
      && (input.client.None? ==> m1 == m)
      && (input.client.Some? ==>
            var c := input.client.value;
            && Watched(m1, c, In, RecvCb) && m1.open == m.open + {c}
            && Chunks(m1.received, c) == [] && Chunks(m1.sent, c) == [])
      && Watched(m1, fd, In, AcceptCb)
  {
    assert InStep(m, fd);
    if input.client.Some? {
      assert InStep(m, input.client.value);
    }
  }

  lemma {:induction false} AfterListen(m: Machine, fd: nat)
    requires Sync(m) && fd !in m.open
    ensures var m1 := AddListener(m, fd).0;
      && Watched(m1, fd, In, AcceptCb) && m1.open == m.open + {fd}
      && forall g: nat :: g != fd ==> SameAt(m, m1, g)
  {
    assert InStep(m, fd);
  }

  /** What one event comes to, by the callback its entry had. */
  ghost predicate Outcome(m: Machine, ev: Ready, m1: Machine) {
    var fd := ev.entry;
    match Get(m.table, fd).callback
    case RecvCb =>
      if ev.input.Received? then
        && Watched(m1, fd, Out, SendCb) && PendingBytes(m1, fd) == ev.input.bytes
        && Chunks(m1.received, fd) == Chunks(m.received, fd) + [ev.input.bytes]
      else Gone(m1, fd)
    case SendCb =>
      if ev.input.Sent? && ev.input.count > 0 then
        && Watched(m1, fd, In, RecvCb) && ev.input.count <= |PendingBytes(m, fd)|
        && Chunks(m1.sent, fd) == Chunks(m.sent, fd) + [PendingBytes(m, fd)[..ev.input.count]]
      else Gone(m1, fd)
    case AcceptCb =>
      && ev.input.Accepted?
      && (ev.input.client.None? ==> m1 == m)
      && (ev.input.client.Some? ==> Watched(m1, ev.input.client.value, In, RecvCb))
    case NoCallback => false
  }

  /** An event of a batch has its outcome if a requested flag is reported, and changes nothing otherwise. */
  lemma {:induction false} AfterDispatch(m: Machine, ev: Ready)
    requires Sync(m) && Reported(m, ev) && Possible(m, ev.entry, ev.input)
    ensures var m1 := Dispatch(m, ev).0;
      if In in ev.flags || Out in ev.flags then m1 == Call(m, ev.entry, ev.input).0 && Outcome(m, ev, m1) else m1 == m
  {
    assert InStep(m, ev.entry);
    DispatchInStep(m, ev);
    DispatchIsCall(m, ev);
    match Get(m.table, ev.entry).callback
    case RecvCb => AfterRecv(m, ev.entry, ev.input);
    case SendCb => AfterSend(m, ev.entry, ev.input);
    case AcceptCb => AfterAccept(m, ev.entry, ev.input);
    case NoCallback =>
  }

  lemma {:induction false} DispatchIsCall(m: Machine, ev: Ready)
    requires Sync(m) && Reported(m, ev) && Possible(m, ev.entry, ev.input)
    ensures Dispatch(m, ev).0 == if In in ev.flags || Out in ev.flags then Call(m, ev.entry, ev.input).0 else m
  {
    assert InStep(m, ev.entry);
    var (m1, ok, calls) := Dispatch(m, ev);
    DispatchInStep(m, ev);
  }

  // ---------- batches ----------

  lemma {:induction false} RoundSnoc(m: Machine, batch: seq<Ready>, ev: Ready)
    ensures Round(m, batch + [ev]).0 == Dispatch(Round(m, batch).0, ev).0
    decreases batch
  {
    if batch == [] {
      assert batch + [ev] == [ev] && [ev][1..] == [];
    } else {
      RoundSnoc(Dispatch(m, batch[0]).0, batch[1..], ev);
      assert (batch + [ev])[0] == batch[0] && (batch + [ev])[1..] == batch[1..] + [ev];
    }
  }

  /** A batch up to its i-th event: what was reported is still so, with the same entry, when its turn comes. */
  lemma {:induction false} TurnComes(m: Machine, batch: seq<Ready>, i: nat)
    requires Sync(m) && AllReported(m, batch) && DistinctEntries(batch) && PossibleBatch(m, batch) && i < |batch|
    ensures var mi := Round(m, batch[..i]).0;
      && Sync(mi) && Reported(mi, batch[i]) && Possible(mi, batch[i].entry, batch[i].input)
      && SameAt(m, mi, batch[i].entry)
    decreases batch
  {
    assert Reported(m, batch[0]);
    if i == 0 {
      assert batch[..0] == [];
    } else {
      DispatchInStep(m, batch[0]);
      var m1, rest := Dispatch(m, batch[0]).0, batch[1..];
      forall j | 0 <= j < |rest| ensures Reported(m1, rest[j]) {
        assert rest[j] == batch[j + 1] && Reported(m, batch[j + 1]);
        assert SameAt(m, m1, rest[j].entry);
      }
      TurnComes(m1, rest, i - 1);
      assert batch[..i][0] == batch[0] && batch[..i][1..] == rest[..i - 1] && rest[i - 1] == batch[i];
      assert Reported(m, batch[i]) && SameAt(m, m1, batch[i].entry);
    }
  }

  /** Every event of a batch is handled, in order: the i-th takes the machine from what the events before it left
      to its own outcome. */
  lemma {:induction false} EveryEventIsHandled(m: Machine, batch: seq<Ready>, i: nat)
    requires Sync(m) && AllReported(m, batch) && DistinctEntries(batch) && PossibleBatch(m, batch) && i < |batch|
    ensures var mi, mj := Round(m, batch[..i]).0, Round(m, batch[..i + 1]).0;
      && SameAt(m, mi, batch[i].entry)
      && (if In in batch[i].flags || Out in batch[i].flags then Outcome(mi, batch[i], mj) else mj == mi)
      && forall g: nat :: g in mi.interest && g != batch[i].entry ==> SameAt(mi, mj, g)
  {
    TurnComes(m, batch, i);
    assert batch[..i + 1] == batch[..i] + [batch[i]];
    RoundSnoc(m, batch[..i], batch[i]);
    AfterDispatch(Round(m, batch[..i]).0, batch[i]);
    DispatchInStep(Round(m, batch[..i]).0, batch[i]);
  }
}
