/** The heartbeat server (heartbeat/server.cpp): the set of watched descriptors with its maximum, and the
    table of clients with their counts of sweeps without a heartbeat. */
module Heartbeat {

  const LIMIT: int := 5

  datatype Client = Client(ip: string, count: int)

  // ---------- the table on values ----------

  /** What a sweep leaves: clients at the limit are gone, the others have one more sweep behind them. */
  function Swept(m: map<int, Client>): map<int, Client> {
    map fd | fd in m && m[fd].count != LIMIT :: Once(m[fd])
  }

  /** The table when the sweep has come to descriptor `fd`. */
  ghost function SweptBelow(m: map<int, Client>, fd: int): map<int, Client> {
    map k | k in m && !(k < fd && m[k].count == LIMIT) :: if k < fd then Once(m[k]) else m[k]
  }

  function Once(c: Client): Client {
    if 0 <= c.count < LIMIT then c.(count := c.count + 1) else c
  }

  /** What heartbeats from the clients in `beating` leave. */
  function Beaten(m: map<int, Client>, beating: set<int>): map<int, Client> {
    map fd | fd in m :: if fd in beating then m[fd].(count := 0) else m[fd]
  }

  ghost predicate IsMax(x: int, s: set<int>) {
    x in s && forall y :: y in s ==> y <= x
  }

  class HeartbeatServer {
    const listenFd: int
    var maxFd: int
    var masterSet: set<int>
    var mmap: map<int, Client>

    /** maxFd is the maximum of the watched descriptors, the clients are those besides the listener, and
        counts stay within the limit. */
    ghost predicate Valid()
      reads this
    {
      && listenFd in masterSet && IsMax(maxFd, masterSet) && (forall fd :: fd in masterSet ==> fd >= 0)
      && mmap.Keys == masterSet - {listenFd}
      && forall fd :: fd in mmap ==> 0 <= mmap[fd].count <= LIMIT
    }

    constructor (listenFd: int)
      requires listenFd >= 0
      ensures Valid() && this.listenFd == listenFd && mmap == map[]
    {
      this.listenFd := listenFd;
      maxFd, masterSet, mmap := listenFd, {listenFd}, map[];
    }

    /** A new client. The table's insert would keep an old entry of the same descriptor; there is none. */
    method Accept(clientFd: int, ip: string)
      requires Valid() && clientFd >= 0 && clientFd !in masterSet
      modifies this
      ensures Valid() && masterSet == old(masterSet) + {clientFd}
      ensures mmap == old(mmap)[clientFd := Client(ip, 0)]
    {
      if clientFd !in mmap {
        mmap := mmap[clientFd := Client(ip, 0)];
      }
      masterSet := masterSet + {clientFd};
      if clientFd > maxFd {
        maxFd := clientFd;
      }
    }

    /** A round of receiving from the descriptors that are ready; `hearts` are those that sent a heartbeat.
        Assigning through the table's index would add an entry for an unknown descriptor; none is. */
    method Recv(workingSet: set<int>, hearts: set<int>)
      requires Valid() && workingSet <= masterSet && listenFd !in workingSet
      modifies this`mmap
      ensures Valid() && mmap == Beaten(old(mmap), workingSet * hearts)
    {
      var fd := 0;
      while fd <= maxFd
        invariant 0 <= fd && mmap.Keys == old(mmap).Keys
        invariant forall k :: k in mmap ==>
          mmap[k] == if k < fd && k in workingSet && k in hearts then old(mmap)[k].(count := 0) else old(mmap)[k]
        decreases maxFd - fd
      {
        if fd in workingSet {
          if fd in hearts {
            mmap := mmap[fd := if fd in mmap then mmap[fd].(count := 0) else Client("", 0)];
          }
        }
        fd := fd + 1;
      }
      forall k | k in mmap ensures mmap[k] == Beaten(old(mmap), workingSet * hearts)[k] {
        assert k in masterSet && k <= maxFd;
      }
      assert mmap == Beaten(old(mmap), workingSet * hearts);
    }

    /** After a descriptor has been taken out of the set: search downward for the new maximum. */
    method LowerMax()
      requires listenFd in masterSet && listenFd >= 0 && forall fd :: fd in masterSet ==> fd <= maxFd
      modifies this`maxFd
      ensures IsMax(maxFd, masterSet)
    {
      while maxFd !in masterSet
        invariant maxFd >= listenFd && forall fd :: fd in masterSet ==> fd <= maxFd
        decreases maxFd
      {
        maxFd := maxFd - 1;
      }
    }

    /** What the sweep does at one client. */
    method Visit(fd: int) returns (evicted: bool)
      requires Valid() && fd in mmap
      modifies this
      ensures Valid() && evicted == (old(mmap)[fd].count == LIMIT)
      ensures masterSet == if evicted then old(masterSet) - {fd} else old(masterSet)
      ensures mmap == if evicted then old(mmap) - {fd} else old(mmap)[fd := Once(old(mmap)[fd])]
    {
      evicted := mmap[fd].count == LIMIT;
      if evicted {
        masterSet := masterSet - {fd};
        if fd == maxFd {
          LowerMax();
        }
        mmap := mmap - {fd};
      } else if mmap[fd].count < LIMIT && mmap[fd].count >= 0 {
        mmap := mmap[fd := mmap[fd].(count := mmap[fd].count + 1)];
      }
    }

    /** The sweep: through the table in order of descriptors, evicting clients at the limit. */
    method Sweep() returns (evicted: seq<int>)
      requires Valid()
      modifies this
      ensures Valid() && mmap == Swept(old(mmap))
      ensures forall fd :: fd in evicted <==> fd in old(mmap) && old(mmap)[fd].count == LIMIT
      ensures forall i, j :: 0 <= i < j < |evicted| ==> evicted[i] < evicted[j]
    {
      evicted := [];
      var last := maxFd;
      for fd := 0 to last + 1
        invariant Valid() && mmap == SweptBelow(old(mmap), fd)
        invariant forall k :: k in evicted <==> k in old(mmap) && k < fd && old(mmap)[k].count == LIMIT
        invariant forall i :: 0 <= i < |evicted| ==> evicted[i] < fd
        invariant forall i, j :: 0 <= i < j < |evicted| ==> evicted[i] < evicted[j]
      {
        SweptStep(old(mmap), fd);
        if fd in mmap {
          var gone := Visit(fd);
          if gone {
            evicted := evicted + [fd];
          }
        }
      }
      assert forall k :: k in old(mmap) ==> k in old(masterSet) && k < last + 1;
      SweptAll(old(mmap), last + 1);
    }
  }

  lemma {:induction false} SweptStep(m: map<int, Client>, fd: int)
    ensures var b := SweptBelow(m, fd);
      SweptBelow(m, fd + 1) ==
        if fd !in m then b else if m[fd].count == LIMIT then b - {fd} else b[fd := Once(m[fd])]
  {
  }

  lemma {:induction false} SweptAll(m: map<int, Client>, top: int)
    requires forall k :: k in m ==> k < top
    ensures SweptBelow(m, top) == Swept(m)
  {
  }

  // ---------- runs of accepts, heartbeats and sweeps ----------

  datatype Event = Accepted(fd: int, ip: string) | Beats(hearts: set<int>) | Sweeps

  function Step(m: map<int, Client>, e: Event): map<int, Client> {
    match e
    case Accepted(fd, ip) => m[fd := Client(ip, 0)]
    case Beats(hearts) => Beaten(m, hearts)
    case Sweeps => Swept(m)
  }

  /** The event takes the client out of the table. */
  predicate Evicts(m: map<int, Client>, e: Event, fd: int) {
    fd in m && fd !in Step(m, e)
  }

  /** The table before the i-th event. */
  function Before(m: map<int, Client>, es: seq<Event>, i: nat): map<int, Client>
    requires i <= |es|
    decreases i
  {
    if i == 0 then m else Before(Step(m, es[0]), es[1..], i - 1)
  }

  function CountSweeps(es: seq<Event>): nat {
    if es == [] then 0 else (if es[0].Sweeps? then 1 else 0) + CountSweeps(es[1..])
  }

  /** The event is neither an accept of fd nor a heartbeat from it. */
  predicate SilentOn(e: Event, fd: int) {
    (e.Accepted? ==> e.fd != fd) && (e.Beats? ==> fd !in e.hearts)
  }

  lemma {:induction false} NeverEvictsAbsent(m: map<int, Client>, es: seq<Event>, fd: int, i: nat)
    requires fd !in m && i < |es| && forall k :: 0 <= k < |es| ==> SilentOn(es[k], fd)
    ensures !Evicts(Before(m, es, i), es[i], fd)
    decreases i
  {
    if i > 0 {
      NeverEvictsAbsent(Step(m, es[0]), es[1..], fd, i - 1);
    }
  }

  lemma {:induction false} EvictsAtLimit(m: map<int, Client>, es: seq<Event>, fd: int, c: nat, i: nat)
    requires fd in m && m[fd].count == c && c <= LIMIT && i < |es|
    requires forall k :: 0 <= k < |es| ==> SilentOn(es[k], fd)
    ensures Evicts(Before(m, es, i), es[i], fd) <==> es[i].Sweeps? && c + CountSweeps(es[..i]) == LIMIT
    decreases i
  {
    if i > 0 {
      var m1 := Step(m, es[0]);
      assert es[..i][1..] == es[1..][..i - 1];
      if !es[0].Sweeps? {
        EvictsAtLimit(m1, es[1..], fd, c, i - 1);
      } else if c < LIMIT {
        EvictsAtLimit(m1, es[1..], fd, c + 1, i - 1);
      } else {
        NeverEvictsAbsent(m1, es[1..], fd, i - 1);
      }
    }
  }

  /** Over every run: a client is evicted exactly on the sixth sweep in a row with no heartbeat from it
      since its accept or last heartbeat. */
  lemma {:induction false} EvictedOnSixthSilentSweep(m: map<int, Client>, e: Event, es: seq<Event>, fd: int, i: nat)
    requires (e.Accepted? && e.fd == fd) || (e.Beats? && fd in e.hearts && fd in m)
    requires i < |es| && forall k :: 0 <= k < |es| ==> SilentOn(es[k], fd)
    ensures Evicts(Before(Step(m, e), es, i), es[i], fd) <==> es[i].Sweeps? && CountSweeps(es[..i] + [es[i]]) == 6
  {
    EvictsAtLimit(Step(m, e), es, fd, 0, i);
    CountSweepsSnoc(es[..i], es[i]);
  }

  lemma {:induction false} CountSweepsSnoc(es: seq<Event>, e: Event)
    ensures CountSweeps(es + [e]) == CountSweeps(es) + if e.Sweeps? then 1 else 0
  {
    if es == [] {
      assert es + [e] == [e];
    } else {
      CountSweepsSnoc(es[1..], e);
      assert (es + [e])[1..] == es[1..] + [e];
    }
  }

  /** Over every run: as long as a client stays in the table its address is the one it was accepted with. */
  lemma {:induction false} AddressStays(m: map<int, Client>, es: seq<Event>, fd: int, ip: string, i: nat)
    requires i <= |es| && forall k :: 0 <= k < |es| ==> !(es[k].Accepted? && es[k].fd == fd)
    requires fd in m ==> m[fd].ip == ip
    ensures fd in Before(m, es, i) ==> Before(m, es, i)[fd].ip == ip
    decreases i
  {
    if i > 0 {
      AddressStays(Step(m, es[0]), es[1..], fd, ip, i - 1);
    }
  }

  ghost predicate CountsInRange(m: map<int, Client>) {
    forall fd :: fd in m ==> 0 <= m[fd].count <= LIMIT
  }

  lemma {:induction false} RunKeepsCountsInRange(m: map<int, Client>, es: seq<Event>, i: nat)
    requires CountsInRange(m) && i <= |es|
    ensures CountsInRange(Before(m, es, i))
    decreases i
  {
    if i > 0 {
      RunKeepsCountsInRange(Step(m, es[0]), es[1..], i - 1);
    }
  }
}
