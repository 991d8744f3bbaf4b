/** The reactor's storage (reactor/server.c): a chain of blocks of event entries that grows at its end, and
    the operations on entries reached through it, proved against ReactorModel. */
module Reactor {
  import opened Wrappers
  import opened ReactorModel

  const MAX_EPOLL_EVENTS: nat := 1024

  class EventBlock {
    var next: EventBlock?
    const events: array<Entry>

    constructor ()
      ensures next == null && fresh(events)
      ensures events.Length == 1024 && forall k :: 0 <= k < 1024 ==> events[k] == ZERO
    {
      next := null;
      events := new Entry[MAX_EPOLL_EVENTS](_ => ZERO);
    }
  }

  lemma {:induction false} CellOf(e: nat, b: nat, k: nat)
    requires k < MAX_EPOLL_EVENTS
    ensures e == MAX_EPOLL_EVENTS * b + k <==> e / MAX_EPOLL_EVENTS == b && e % MAX_EPOLL_EVENTS == k
  {
  }

  class Reactor {
    var blkcnt: nat
    var evblk: EventBlock
    ghost var chain: seq<EventBlock>
    ghost var repr: set<object> // the blocks and their arrays
    ghost var m: Machine // the entries by descriptor, and the kernel's side
    ghost var history: seq<ServerStep> // listeners registered and rounds served so far

    /** blkcnt blocks, linked from evblk, each with its own array. */
    ghost predicate Linked()
      reads this, repr
    {
      && this !in repr
      && (forall b :: 0 <= b < |chain| ==>
            chain[b] in repr && chain[b].events in repr && chain[b].events.Length == MAX_EPOLL_EVENTS)
      && |chain| == blkcnt > 0 && chain[0] == evblk && chain[|chain| - 1].next == null
      && (forall b {:trigger chain[b].next} :: 0 <= b < |chain| - 1 ==> chain[b].next == chain[b + 1])
      && (forall b, c :: 0 <= b < c < |chain| ==> chain[b].events != chain[c].events)
    }

    /** The blocks hold the entries of the table: entry e is cell e % 1024 of block e / 1024. */
    ghost predicate Stored()
      reads this, repr
    {
      && Linked()
      && (forall b :: 0 <= b < |chain| ==> BlockOk(chain[b].events, b))
      && (forall e :: e in m.table ==> e < MAX_EPOLL_EVENTS * blkcnt)
    }

    /** And the table and the kernel are what the server's history makes of new ones. */
    ghost predicate Valid()
      reads this, repr
    {
      Stored() && m == TakeAll(EMPTY, history).0
    }

    ghost predicate BlockOk(a: array<Entry>, b: nat)
      reads this, a
    {
      a.Length == MAX_EPOLL_EVENTS
      && forall k :: 0 <= k < MAX_EPOLL_EVENTS ==> a[k] == Get(m.table, MAX_EPOLL_EVENTS * b + k)
    }

    ghost predicate IsEntry(a: array<Entry>, k: nat, e: nat)
      reads this
    {
      var b := e / MAX_EPOLL_EVENTS;
      b < |chain| && a == chain[b].events && k == e % MAX_EPOLL_EVENTS
    }

    constructor ()
      ensures Valid() && m == EMPTY && blkcnt == 1 && history == [] && fresh(repr)
    {
      var block := new EventBlock();
      evblk, blkcnt := block, 1;
      chain, repr, m, history := [block], {block, block.events}, EMPTY, [];
    }

    /** Append a block. No entry moves or changes. */
    method Alloc()
      requires Stored()
      modifies this`blkcnt, this`chain, this`repr, chain`next
      ensures Stored() && blkcnt == old(blkcnt) + 1
      ensures |chain| == |old(chain)| + 1 && chain[..|old(chain)|] == old(chain)
      ensures old(repr) <= repr && fresh(repr - old(repr)) && fresh(chain[|old(chain)|])
    {
      var blk := evblk;
      ghost var i := 0;
      while blk.next != null
        invariant i < |chain| && blk == chain[i]
        decreases |chain| - i
      {
        blk := blk.next;
        i := i + 1;
      }
      var block := new EventBlock();
      blk.next := block;
      blkcnt := blkcnt + 1;
      chain := chain + [block];
      repr := repr + {block, block.events};
    }

    /** The entry of a descriptor; the chain grows until it is long enough. */
    method Idx(sockfd: nat) returns (events: array<Entry>, k: nat)
      requires Stored()
      modifies this`blkcnt, this`chain, this`repr, repr
      ensures Stored() && IsEntry(events, k, sockfd) && m == old(m)
      ensures sockfd / 1024 < |chain| && events == chain[sockfd / 1024].events && k == sockfd % 1024
      ensures Grown(old(chain), old(repr))
    {
      var blkidx := sockfd / MAX_EPOLL_EVENTS;
      while blkidx >= blkcnt
        invariant Stored() && Grown(old(chain), old(repr))
        decreases blkidx - blkcnt
      {
        Alloc();
      }
      var blk: EventBlock? := evblk;
      var i := 0;
      while i < blkidx && blk != null
        invariant i <= blkidx && blk == chain[i]
      {
        blk := blk.next;
        i := i + 1;
      }
      return blk.events, sockfd % MAX_EPOLL_EVENTS;
    }

    /** Write an entry in place. */
    method Write(events: array<Entry>, k: nat, ghost e: nat, entry: Entry)
      requires Stored() && IsEntry(events, k, e)
      modifies this`m, events
      ensures Stored() && m == Put(old(m), e, entry) && events[k] == entry
    {
      events[k] := entry;
      m := Put(m, e, entry);
      forall b | 0 <= b < |chain| ensures BlockOk(chain[b].events, b) {
        assert old(BlockOk(chain[b].events, b));
        forall j | 0 <= j < MAX_EPOLL_EVENTS ensures chain[b].events[j] == Get(m.table, MAX_EPOLL_EVENTS * b + j) {
          CellOf(e, b, j);
        }
      }
    }

    /** A cell holds the table's entry. */
    lemma {:induction false} CellHolds(events: array<Entry>, k: nat, e: nat)
      requires Stored() && IsEntry(events, k, e)
      ensures events.Length == MAX_EPOLL_EVENTS && k < MAX_EPOLL_EVENTS && events in repr
      ensures events[k] == Get(m.table, e)
    {
      assert BlockOk(events, e / MAX_EPOLL_EVENTS);
      CellOf(e, e / MAX_EPOLL_EVENTS, k);
    }

    /** Different descriptors have different cells. */
    lemma {:induction false} CellsDiffer(a: array<Entry>, k: nat, e: nat, a': array<Entry>, k': nat, e': nat)
      requires Stored() && IsEntry(a, k, e) && IsEntry(a', k', e') && e != e'
      ensures a != a' || k != k'
    {
      var b, b' := e / MAX_EPOLL_EVENTS, e' / MAX_EPOLL_EVENTS;
      CellOf(e, b, k);
      CellOf(e', b', k');
      assert b < b' ==> chain[b].events != chain[b'].events;
      assert b' < b ==> chain[b'].events != chain[b].events;
    }

    method NtyEventSet(events: array<Entry>, k: nat, ghost e: nat, fd: int, callback: Callback)
      requires Stored() && IsEntry(events, k, e)
      modifies this`m, events
      ensures Stored() && m == EventSet(old(m), e, fd, callback)
    {
      CellHolds(events, k, e);
      Write(events, k, e, events[k].(fd := fd, callback := callback, events := {}));
    }

    /** Register the entry, or modify its registration if its status says there is one. */
    method NtyEventAdd(flags: set<Flag>, events: array<Entry>, k: nat, ghost e: nat) returns (ghost ok: bool)
      requires Stored() && IsEntry(events, k, e)
      modifies this`m, events
      ensures Stored() && (m, ok) == EventAdd(old(m), e, flags)
    {
      CellHolds(events, k, e);
      var op := if events[k].status == 1 then Mod else Add;
      var fd := events[k].fd;
      Write(events, k, e, events[k].(events := flags, status := 1));
      ok := EpollCtl(op, fd, e, flags);
    }

    method NtyEventDel(events: array<Entry>, k: nat, ghost e: nat)
      requires Stored() && IsEntry(events, k, e)
      modifies this`m, events
      ensures Stored() && m == EventDel(old(m), e)
    {
      CellHolds(events, k, e);
      if events[k].status != 1 {
        return;
      }
      var fd := events[k].fd;
      Write(events, k, e, events[k].(status := 0));
      ghost var ok := EpollCtl(Del, fd, e, {});
    }

    /** The kernel's side of epoll_ctl. */
    method EpollCtl(op: Op, fd: int, ghost e: nat, flags: set<Flag>) returns (ghost ok: bool)
      requires Stored()
      modifies this`m
      ensures Stored() && (m, ok) == Ctl(old(m), op, fd, Reg(flags, e))
    {
      ghost var r := Ctl(m, op, fd, Reg(flags, e));
      SetKernel(r.0);
      ok := r.1;
    }

    /** A change of the kernel's side and of the logs leaves the entries alone. */
    ghost method SetKernel(m1: Machine)
      requires Stored() && m1.table == m.table
      modifies this`m
      ensures Stored() && m == m1
    {
      m := m1;
      forall b | 0 <= b < |chain| ensures BlockOk(chain[b].events, b) {
        assert old(BlockOk(chain[b].events, b));
      }
    }

    /** After a receive: the bytes are in the buffer, and the entry waits for writability. */
    method SwitchToSend(events: array<Entry>, k: nat, fd: nat, bytes: seq<Byte>) returns (ghost ok: bool)
      requires Stored() && IsEntry(events, k, fd) && bytes != []
      modifies this`m, events
      ensures Stored() && (m, ok) == OnRecv(old(m), fd, Received(bytes))
    {
      CellHolds(events, k, fd);
      Write(events, k, fd, events[k].(buffer := Filled(events[k].buffer, bytes)));
      NtyEventDel(events, k, fd);
      CellHolds(events, k, fd);
      Write(events, k, fd, events[k].(length := |bytes|));
      SetKernel(m.(received := m.received[fd := Chunks(m.received, fd) + [bytes]]));
      NtyEventSet(events, k, fd, fd, SendCb);
      ok := NtyEventAdd({Out}, events, k, fd);
    }

    method OnReadable(fd: nat, input: Input) returns (ghost ok: bool)
      requires Stored()
      modifies this`blkcnt, this`chain, this`repr, this`m, repr
      ensures Stored() && (m, ok) == OnRecv(old(m), fd, input)
      ensures Grown(old(chain), old(repr))
    {
      var events, k := Idx(fd);
      CellHolds(events, k, fd);
      ok := true;
      if input.Received? && input.bytes != [] {
        ok := SwitchToSend(events, k, fd, input.bytes);
      } else {
        var sock := events[k].fd;
        NtyEventDel(events, k, fd);
        SetKernel(CloseFd(m, sock));
      }
    }

    method OnWritable(fd: nat, input: Input) returns (ghost ok: bool)
      requires Stored()
      modifies this`blkcnt, this`chain, this`repr, this`m, repr
      ensures Stored() && (m, ok) == OnSend(old(m), fd, input)
      ensures Grown(old(chain), old(repr))
    {
      var events, k := Idx(fd);
      CellHolds(events, k, fd);
      ok := true;
      var sock, buffer := events[k].fd, events[k].buffer;
      if input.Sent? && 0 < input.count <= |buffer| {
        SetKernel(m.(sent := m.sent[fd := Chunks(m.sent, fd) + [buffer[..input.count]]]));
        NtyEventDel(events, k, fd);
        NtyEventSet(events, k, fd, fd, RecvCb);
        ok := NtyEventAdd({In}, events, k, fd);
      } else {
        SetKernel(CloseFd(m, sock));
        NtyEventDel(events, k, fd);
      }
    }

    method OnAcceptable(fd: nat, input: Input) returns (ghost ok: bool)
      requires Stored()
      modifies this`blkcnt, this`chain, this`repr, this`m, repr
      ensures Stored() && (m, ok) == OnAccept(old(m), fd, input)
      ensures Grown(old(chain), old(repr))
    {
      ok := true;
      if !input.Accepted? || input.client.None? {
        return;
      }
      var c := input.client.value;
      SetKernel(m.(open := m.open + {c}, received := m.received[c := []], sent := m.sent[c := []]));
      var events, k := Idx(c);
      NtyEventSet(events, k, c, c, RecvCb);
      ok := NtyEventAdd({In}, events, k, c);
    }

    method AddListener(sockfd: nat) returns (ghost ok: bool)
      requires Valid()
      modifies this, repr
      ensures Valid() && (m, ok) == ReactorModel.AddListener(old(m), sockfd)
      ensures history == old(history) + [Listens(sockfd)] && Grown(old(chain), old(repr))
    {
      TakeSnoc(EMPTY, history, Listens(sockfd));
      ok := Register(sockfd);
      history := history + [Listens(sockfd)];
    }

    method Register(sockfd: nat) returns (ghost ok: bool)
      requires Stored()
      modifies this`blkcnt, this`chain, this`repr, this`m, repr
      ensures Stored() && (m, ok) == ReactorModel.AddListener(old(m), sockfd)
      ensures Grown(old(chain), old(repr))
    {
      SetKernel(m.(open := m.open + {sockfd}));
      var events, k := Idx(sockfd);
      NtyEventSet(events, k, sockfd, sockfd, AcceptCb);
      ok := NtyEventAdd({In}, events, k, sockfd);
    }

    /** Run the callback of an entry on the descriptor the entry names. */
    method Invoke(events: array<Entry>, k: nat, ghost e: nat, input: Input) returns (ghost ok: bool)
      requires Stored() && IsEntry(events, k, e)
      modifies this`blkcnt, this`chain, this`repr, this`m, repr
      ensures Stored() && (m, ok) == Call(old(m), e, input)
      ensures Grown(old(chain), old(repr))
    {
      CellHolds(events, k, e);
      var fd, callback := events[k].fd, events[k].callback;
      ok := true;
      if fd >= 0 {
        match callback
        case AcceptCb => ok := OnAcceptable(fd, input);
        case RecvCb => ok := OnReadable(fd, input);
        case SendCb => ok := OnWritable(fd, input);
        case NoCallback =>
      }
    }

    /** One event of the dispatch loop; the kernel hands back the cell that was registered. */
    method DispatchOne(events: array<Entry>, k: nat, ev: Ready) returns (ghost ok: bool, calls: nat)
      requires Stored() && IsEntry(events, k, ev.entry)
      modifies this`blkcnt, this`chain, this`repr, this`m, repr
      ensures Stored() && (m, ok, calls) == Dispatch(old(m), ev)
      ensures Grown(old(chain), old(repr))
    {
      ok, calls := true, 0;
      CellHolds(events, k, ev.entry);
      if In in ev.flags && In in events[k].events {
        ghost var before, b := chain, ev.entry / MAX_EPOLL_EVENTS;
        ok := Invoke(events, k, ev.entry, ev.input);
        assert chain[b] == chain[..|before|][b];
        calls := 1;
      }
      CellHolds(events, k, ev.entry);
      if Out in ev.flags && Out in events[k].events {
        ghost var ok2 := Invoke(events, k, ev.entry, ev.input);
        ok := ok && ok2;
        calls := calls + 1;
      }
    }

    /** The loop over the events of one wait, which the kernel hands back with the cells registered for
        them; the cells stay valid while the chain grows. */
    method ServeAll(cells: seq<(array<Entry>, nat)>, batch: seq<Ready>) returns (ghost ok: bool)
      requires Stored() && |cells| == |batch|
      requires forall i :: 0 <= i < |batch| ==> IsEntry(cells[i].0, cells[i].1, batch[i].entry)
      modifies this`blkcnt, this`chain, this`repr, this`m, repr
      ensures Stored() && (m, ok) == Round(old(m), batch)
      ensures Grown(old(chain), old(repr))
    {
      ok := true;
      var i := 0;
      while i < |batch|
        invariant i <= |batch| && Stored() && Grown(old(chain), old(repr))
        invariant Round(old(m), batch) == (Round(m, batch[i..]).0, ok && Round(m, batch[i..]).1)
        invariant forall j :: 0 <= j < |batch| ==> IsEntry(cells[j].0, cells[j].1, batch[j].entry)
      {
        assert batch[i..][0] == batch[i] && batch[i..][1..] == batch[i + 1..];
        ghost var before := chain;
        var done, calls := DispatchOne(cells[i].0, cells[i].1, batch[i]);
        ok := ok && done;
        assert forall b :: 0 <= b < |before| ==> chain[b] == chain[..|before|][b];
        i := i + 1;
      }
    }

    /** A round of the loop. */
    method RunBatch(cells: seq<(array<Entry>, nat)>, batch: seq<Ready>) returns (ghost ok: bool)
      requires Valid() && |cells| == |batch|
      requires forall i :: 0 <= i < |batch| ==> IsEntry(cells[i].0, cells[i].1, batch[i].entry)
      modifies this, repr
      ensures Valid() && (m, ok) == Round(old(m), batch)
      ensures history == old(history) + [Serves(batch)] && Grown(old(chain), old(repr))
    {
      TakeSnoc(EMPTY, history, Serves(batch));
      ok := ServeAll(cells, batch);
      history := history + [Serves(batch)];
    }

    /** In every state of the reactor, entries and interest set are in step. */
    lemma InStepNow()
      requires Valid() && LegalSteps(EMPTY, history)
      ensures Sync(m) && TakeAll(EMPTY, history).1
    {
      EmptyInStep();
      HistoryInStep(EMPTY, history);
    }

    /** Blocks seen before are still where they were in the chain; whatever has been added is new. */
    twostate predicate Grown(before: seq<EventBlock>, had: set<object>)
      reads this
    {
      |before| <= |chain| && chain[..|before|] == before && had <= repr && fresh(repr - had)
    }
  }
}
