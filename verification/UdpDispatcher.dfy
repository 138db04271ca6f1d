/** The UDP dispatcher object, proved to make only the steps of `UdpDispatch`. */
module UdpDispatcher {
  import opened Wire
  import opened UdpDispatch

  /** Outcome of one non-blocking read of the socket. */
  datatype Read = Got(size: nat, data: Dgram, peer: SocketAddr) | WouldBlock | ReadError

  /** `Panic` stands for a failed run-time assertion. */
  datatype Outcome = Done | Error | Panic

  /** What a datagram of the right size leads to. */
  function LabelFor(par: Params, s: State, p: SocketAddr, d: Dgram): Label {
    if |Entry(s.conn, p).queue| == par.qSize then Overflowed(p)
    else if p in s.conn || |s.conn| < par.maxConn then Queued(p, d)
    else Refused(p)
  }

  /** Closing an entry is an error; a queued datagram fails the assertion on the count iff it is too high. */
  function OutcomeOf(par: Params, l: Label, s': State): Outcome {
    if !l.Queued? then Error else if s'.queued <= par.maxConn * par.qSize then Done else Panic
  }

  /** Receiving: nothing happens, or exactly one datagram is queued or its entry is closed. */
  ghost predicate Received(par: Params, s: State, ls: seq<Label>, read: Read, s': State, ls': seq<Label>,
      out: Outcome) {
    if read.Got? && read.size == par.msgSize then
      var l := LabelFor(par, s, read.peer, read.data);
      Step(par, s, l, s') && ls' == ls + [l] && out == OutcomeOf(par, l, s')
    else
      s' == s && ls' == ls && out == if read.WouldBlock? then Done else Error
  }

  /**
   * What becomes of a datagram of the right size: a full queue is closed; a new peer without room is
   * refused; else it is queued, and the assertion on the count fails iff the count is now too high.
   */
  ghost predicate Handled(par: Params, s: State, p: SocketAddr, d: Dgram, s': State, out: Outcome) {
    var queue := if p in s.conn then s.conn[p].queue else [];
    if |queue| == par.qSize then
      out == Error && s'.conn == s.conn - {p} && s'.queued == s.queued
    else if p !in s.conn && |s.conn| == par.maxConn then
      out == Error && s' == s
    else
      && s'.conn.Keys == s.conn.Keys + {p} && s'.conn[p].queue == queue + [d]
      && s'.conn[p].accepted == (p in s.conn && s.conn[p].accepted)
      && (forall q <- s.conn :: q != p ==> s'.conn[q] == s.conn[q])
      && s'.queued == s.queued + 1
      && out == if s.queued + 1 <= par.maxConn * par.qSize then Done else Panic
  }

  lemma HandledSo(par: Params, s: State, p: SocketAddr, d: Dgram)
    requires Bounded(par, s.conn)
    ensures var s' := AfterRecv(par, s, p, d);
            Handled(par, s, p, d, s', OutcomeOf(par, LabelFor(par, s, p, d), s'))
  {
    if p !in s.conn {
      assert s.conn - {p} == s.conn;
    }
  }

  /** State after a datagram of the right size was handled. */
  function AfterRecv(par: Params, s: State, p: SocketAddr, d: Dgram): State {
    var e := Entry(s.conn, p);
    match LabelFor(par, s, p, d)
    case Overflowed(_) => State(s.conn - {p}, s.queued)
    case Queued(_, _) => State(s.conn[p := e.(queue := e.queue + [d])], s.queued + 1)
    case _ => s
  }

  lemma EntryUpdates(c: ConnMap, p: SocketAddr, e: Conn, e': Conn)
    ensures c[p := e][p := e'] == c[p := e']
    ensures c[p := e] - {p} == c - {p} && (p !in c ==> c - {p} == c)
  {
  }

  lemma EntryCount(c: ConnMap, p: SocketAddr, e: Conn)
    ensures |c[p := e]| == if p in c then |c| else |c| + 1
  {
    assert c[p := e].Keys == c.Keys + {p};
    assert p in c ==> c.Keys + {p} == c.Keys;
  }

  lemma RecvFacts(par: Params, s: State, ls: seq<Label>, p: SocketAddr, d: Dgram)
    requires Good(par, s, ls)
    ensures var l, s' := LabelFor(par, s, p, d), AfterRecv(par, s, p, d);
            && Step(par, s, l, s') && Good(par, s', ls + [l])
            && (OutcomeOf(par, l, s').Panic? ==> Overflows(ls) > 0)
  {
    var l, s' := LabelFor(par, s, p, d), AfterRecv(par, s, p, d);
    GoodKept(par, s, ls, l, s');
    if l.Queued? {
      CountBoundIff(par, s, ls, l, s');
    }
  }

  /** Taking a datagram or removing an entry never takes the count below zero. */
  lemma CountCovers(par: Params, s: State, ls: seq<Label>, p: SocketAddr)
    requires Ledger(par, s, ls)
    ensures |Entry(s.conn, p).queue| <= s.queued
  {
    TotalDrop(s.conn, p);
  }

  lemma DisconnectFacts(par: Params, s: State, ls: seq<Label>, p: SocketAddr, s': State)
    requires Good(par, s, ls) && Step(par, s, Disconnected(p), s')
    ensures Good(par, s', ls + [Disconnected(p)])
    ensures s'.conn == map[] ==> (s'.queued == 0 <==> par.qSize == 0 || Overflows(ls) == 0)
  {
    GoodKept(par, s, ls, Disconnected(p), s');
    OverflowsSnoc(ls, Disconnected(p));
    if s'.conn == map[] {
      CountZeroIff(par, s', ls + [Disconnected(p)]);
    }
  }

  class UdpDispatcherRx {
    const par: Params
    var conn: ConnMap
    var nrQueuedDgrams: nat
    /** Everything that happened so far. */
    ghost var trace: seq<Label>

    ghost function St(): State
      reads this
    {
      State(conn, nrQueuedDgrams)
    }

    ghost predicate Valid()
      reads this
    {
      Good(par, St(), trace)
    }

    constructor (par: Params)
      ensures Valid() && this.par == par && St() == State(map[], 0) && trace == []
    {
      this.par := par;
      conn, nrQueuedDgrams, trace := map[], 0, [];
    }

    method TryRecv(read: Read) returns (out: Outcome, notify: bool)
      requires Valid()
      modifies this
      ensures Valid()
      ensures Received(par, old(St()), old(trace), read, St(), trace, out)
      ensures notify <==> read.Got? && out.Done? && !conn[read.peer].accepted
      ensures out.Panic? ==> Overflows(old(trace)) > 0
      ensures if read.Got? && read.size == par.msgSize then Handled(par, old(St()), read.peer, read.data, St(), out)
              else St() == old(St()) && out == if read == WouldBlock then Done else Error
    {
      match read {
        case WouldBlock => return Done, false;
        case ReadError => return Error, false;
        case Got(n, buf, peer) =>
          if n != par.msgSize {
            return Error, false;
          }
          RecvFacts(par, St(), trace, peer, buf);
          HandledSo(par, St(), peer, buf);
          out, notify := TakeIn(peer, buf);
      }
    }

    /** Put a datagram into the queue of its peer, or close the connection. */
    method TakeIn(peer: SocketAddr, buf: Dgram) returns (out: Outcome, notify: bool)
      requires Bounded(par, conn)
      modifies this
      ensures St() == AfterRecv(par, old(St()), peer, buf)
      ensures trace == old(trace) + [LabelFor(par, old(St()), peer, buf)]
      ensures out == OutcomeOf(par, LabelFor(par, old(St()), peer, buf), St())
      ensures notify <==> out.Done? && !Entry(conn, peer).accepted
    {
      assert |conn| <= par.maxConn;
      ghost var l := LabelFor(par, St(), peer, buf);
      trace := trace + [l];
      EntryUpdates(conn, peer, Conn([], peer, false), Entry(conn, peer).(queue := Entry(conn, peer).queue + [buf]));
      EntryUpdates(conn, peer, Entry(conn, peer).(queue := Entry(conn, peer).queue + [buf]), Conn([], peer, false));
      EntryCount(conn, peer, Entry(conn, peer).(queue := Entry(conn, peer).queue + [buf]));
      if peer !in conn {
        conn := conn[peer := Conn([], peer, false)];
      }
      assert |conn[peer].queue| <= par.qSize;
      if |conn[peer].queue| == par.qSize {
        conn := conn - {peer};
        return Error, false;
      }
      conn := conn[peer := conn[peer].(queue := conn[peer].queue + [buf])];
      var accepted := conn[peer].accepted;
      if |conn| > par.maxConn {
        conn := conn - {peer};
        return Error, false;
      }
      nrQueuedDgrams := nrQueuedDgrams + 1;
      if nrQueuedDgrams > par.maxConn * par.qSize {
        return Panic, false;
      }
      return Done, !accepted;
    }

    /** Note one finished step in the trace. */
    ghost method Record(s: State, l: Label)
      requires Good(par, s, trace) && Step(par, s, l, St())
      modifies `trace
      ensures Valid() && trace == old(trace) + [l]
    {
      GoodKept(par, s, trace, l, St());
      trace := trace + [l];
    }

    /** Receivers are woken while anything is counted as queued. */
    method RecvNotify() returns (wake: bool)
      requires Valid()
      ensures wake == (nrQueuedDgrams > 0)
      ensures Overflows(trace) == 0 ==> (wake <==> exists p <- conn :: conn[p].queue != [])
    {
      if Overflows(trace) == 0 {
        CountExact(par, St(), trace);
      }
      return nrQueuedDgrams > 0;
    }

    /** Accept one connection that was not accepted before, whichever the map yields first. */
    method TryAccept(read: Read)
      returns (out: Outcome, r: Option<SocketAddr>, notify: bool, wake: bool, ghost mid: State, ghost ls: seq<Label>)
      requires Valid()
      modifies this
      ensures Valid()
      ensures Received(par, old(St()), old(trace), read, mid, ls, out)
      ensures r.Some? ==> out.Done? && Step(par, mid, Accepted(r.value), St()) && trace == ls + [Accepted(r.value)]
      ensures r.None? ==> St() == mid && trace == ls
      ensures r.None? && out.Done? ==> forall p <- conn :: conn[p].accepted
      ensures notify <==> read.Got? && out.Done? && !Entry(mid.conn, read.peer).accepted
      ensures wake <==> out.Done? && r.None? && nrQueuedDgrams > 0
    {
      out, notify := TryRecv(read);
      mid, ls := St(), trace;
      r, wake := None, false;
      if !out.Done? {
        return;
      }
      var todo := conn.Keys;
      while todo != {}
        invariant todo <= conn.Keys && St() == mid && trace == ls && Valid()
        invariant forall p <- conn :: p !in todo ==> conn[p].accepted
        decreases todo
      {
        var p :| p in todo;
        if !conn[p].accepted {
          conn := conn[p := conn[p].(accepted := true)];
          Record(mid, Accepted(p));
          r := Some(conn[p].peer);
          return;
        }
        todo := todo - {p};
      }
      wake := RecvNotify();
    }

    /** Take the oldest datagram of one peer. */
    method TryRecvFrom(read: Read, peer: SocketAddr)
      returns (out: Outcome, r: Option<Dgram>, notify: bool, wake: bool, ghost mid: State, ghost ls: seq<Label>)
      requires Valid()
      modifies this
      ensures Valid()
      ensures Received(par, old(St()), old(trace), read, mid, ls, out)
      ensures r.Some? ==> out.Done? && Step(par, mid, Delivered(peer, r.value), St())
      ensures r.Some? ==> trace == ls + [Delivered(peer, r.value)]
      ensures r.None? ==> St() == mid && trace == ls
      ensures r.None? && out.Done? ==> Entry(conn, peer).queue == []
      ensures notify <==> read.Got? && out.Done? && !Entry(mid.conn, read.peer).accepted
      ensures wake <==> out.Done? && nrQueuedDgrams > 0
    {
      out, notify := TryRecv(read);
      mid, ls := St(), trace;
      r, wake := None, false;
      if !out.Done? {
        return;
      }
      if peer in conn && conn[peer].queue != [] {
        r := PopFront(peer);
      }
      wake := RecvNotify();
    }

    method PopFront(peer: SocketAddr) returns (r: Option<Dgram>)
      requires Valid() && peer in conn && conn[peer].queue != []
      modifies this
      ensures Valid() && r.Some?
      ensures Step(par, old(St()), Delivered(peer, r.value), St()) && trace == old(trace) + [Delivered(peer, r.value)]
    {
      ghost var s := St();
      CountCovers(par, s, trace, peer);
      r := Some(conn[peer].queue[0]);
      conn := conn[peer := conn[peer].(queue := conn[peer].queue[1..])];
      nrQueuedDgrams := nrQueuedDgrams - 1;
      Record(s, Delivered(peer, r.value));
    }

    /** Remove a connection. The count is zero afterwards unless a full queue was thrown away before. */
    method Disconnect(peer: SocketAddr) returns (out: Outcome)
      requires Valid()
      modifies this
      ensures Valid()
      ensures Step(par, old(St()), Disconnected(peer), St()) && trace == old(trace) + [Disconnected(peer)]
      ensures out == Panic <==> conn == map[] && par.qSize > 0 && Overflows(old(trace)) > 0
      ensures out != Error
    {
      ghost var s := St();
      CountCovers(par, s, trace, peer);
      if peer in conn {
        nrQueuedDgrams := nrQueuedDgrams - |conn[peer].queue|;
      }
      conn := conn - {peer};
      DisconnectFacts(par, s, trace, peer, St());
      trace := trace + [Disconnected(peer)];
      if conn == map[] && nrQueuedDgrams != 0 {
        return Panic;
      }
      return Done;
    }
  }
}
