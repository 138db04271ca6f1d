/** Connection tracking for UDP: what each locked step may do, and what holds over all runs. */
module UdpDispatch {
  import opened Wire
  import opened Addr

  datatype SocketAddr = SocketAddr(ip: IpAddr, port: u16)

  type Dgram = seq<byte>

  datatype Conn = Conn(queue: seq<Dgram>, peer: SocketAddr, accepted: bool)

  type ConnMap = map<SocketAddr, Conn>

  datatype Params = Params(maxConn: nat, qSize: nat, msgSize: nat)

  /** The connections, and the redundant count of queued datagrams. */
  datatype State = State(conn: ConnMap, queued: nat)

  /** What an outside observer sees of one step. */
  datatype Label =
    | Queued(peer: SocketAddr, data: Dgram)
    | Overflowed(peer: SocketAddr)
    | Refused(peer: SocketAddr)
    | Accepted(peer: SocketAddr)
    | Delivered(peer: SocketAddr, data: Dgram)
    | Disconnected(peer: SocketAddr)

  function Entry(c: ConnMap, p: SocketAddr): Conn {
    if p in c then c[p] else Conn([], p, false)
  }

  ghost predicate Step(par: Params, s: State, l: Label, s': State) {
    var p := l.peer;
    var e := Entry(s.conn, p);
    match l
    case Queued(_, d) =>
      && |e.queue| < par.qSize && (p in s.conn || |s.conn| < par.maxConn)
      && s' == State(s.conn[p := e.(queue := e.queue + [d])], s.queued + 1)
    case Overflowed(_) =>
      |e.queue| == par.qSize && s' == State(s.conn - {p}, s.queued)
    case Refused(_) =>
      p !in s.conn && |s.conn| == par.maxConn && s' == s
    case Accepted(_) =>
      p in s.conn && !e.accepted && s' == s.(conn := s.conn[p := e.(accepted := true)])
    case Delivered(_, d) =>
      && p in s.conn && e.queue != [] && d == e.queue[0] && s.queued > 0
      && s' == State(s.conn[p := e.(queue := e.queue[1..])], s.queued - 1)
    case Disconnected(_) =>
      |e.queue| <= s.queued && s' == State(s.conn - {p}, s.queued - |e.queue|)
  }

  // ---------- Ledger ----------

  /** Number of datagrams in all queues. */
  ghost function Total(c: ConnMap): nat {
    if c == map[] then 0
    else
      var p :| p in c;
      |c[p].queue| + Total(c - {p})
  }

  lemma {:induction false} TotalRemove(c: ConnMap, p: SocketAddr)
    requires p in c
    ensures Total(c) == |c[p].queue| + Total(c - {p})
    decreases |c|
  {
    var q :| q in c && Total(c) == |c[q].queue| + Total(c - {q});
    if p != q {
      TotalRemove(c - {q}, p);
      TotalRemove(c - {p}, q);
      assert c - {q} - {p} == c - {p} - {q};
    }
  }

  /** Changing one entry changes the total by the difference in length. */
  lemma TotalUpdate(c: ConnMap, p: SocketAddr, e: Conn)
    ensures Total(c[p := e]) + |Entry(c, p).queue| == Total(c) + |e.queue|
  {
    TotalRemove(c[p := e], p);
    assert c[p := e] - {p} == c - {p};
    if p in c {
      TotalRemove(c, p);
    } else {
      assert c - {p} == c;
    }
  }

  lemma TotalDrop(c: ConnMap, p: SocketAddr)
    ensures Total(c - {p}) + |Entry(c, p).queue| == Total(c)
  {
    if p in c {
      TotalRemove(c, p);
    } else {
      assert c - {p} == c;
    }
  }

  lemma MulStep(n: nat, q: nat)
    ensures (n + 1) * q == n * q + q
  {
  }

  lemma MulMono(m: nat, n: nat, q: nat)
    requires m <= n
    ensures m * q <= n * q
  {
  }

  lemma {:induction false} TotalBound(c: ConnMap, q: nat)
    requires forall p <- c :: |c[p].queue| <= q
    ensures Total(c) <= |c| * q
    decreases |c|
  {
    if c != map[] {
      var p :| p in c;
      TotalRemove(c, p);
      TotalBound(c - {p}, q);
      assert |c| == |c - {p}| + 1;
      MulStep(|c - {p}|, q);
    }
  }

  lemma {:induction false} TotalPositive(c: ConnMap)
    ensures Total(c) > 0 <==> exists p <- c :: c[p].queue != []
    decreases |c|
  {
    if c != map[] {
      var p :| p in c;
      TotalRemove(c, p);
      TotalPositive(c - {p});
      if x :| x in c && c[x].queue != [] {
        assert x != p ==> x in c - {p};
      }
    }
  }

  /** Entries removed so far because their queue was full. */
  function Overflows(ls: seq<Label>): nat {
    if ls == [] then 0
    else Overflows(ls[..|ls| - 1]) + if ls[|ls| - 1].Overflowed? then 1 else 0
  }

  ghost predicate Bounded(par: Params, c: ConnMap) {
    && |c| <= par.maxConn
    && forall p <- c :: |c[p].queue| <= par.qSize && c[p].peer == p
  }

  /** The bounds, and the count: what is queued plus one full queue for each overflow removal. */
  ghost predicate Ledger(par: Params, s: State, ls: seq<Label>) {
    && Bounded(par, s.conn)
    && s.queued == Total(s.conn) + Overflows(ls) * par.qSize
  }

  // ---------- Queues as seen by the peers ----------

  predicate Ends(l: Label, p: SocketAddr) {
    (l.Overflowed? || l.Disconnected?) && l.peer == p
  }

  /** Datagrams taken in from `p` since its current entry was created. */
  function Enqueued(ls: seq<Label>, p: SocketAddr): seq<Dgram> {
    if ls == [] then []
    else
      var l, before := ls[|ls| - 1], Enqueued(ls[..|ls| - 1], p);
      if Ends(l, p) then [] else if l.Queued? && l.peer == p then before + [l.data] else before
  }

  /** Datagrams handed out for `p` since its current entry was created. */
  function HandedOut(ls: seq<Label>, p: SocketAddr): seq<Dgram> {
    if ls == [] then []
    else
      var l, before := ls[|ls| - 1], HandedOut(ls[..|ls| - 1], p);
      if Ends(l, p) then [] else if l.Delivered? && l.peer == p then before + [l.data] else before
  }

  /** How often the current entry of `p` was accepted. */
  function Accepts(ls: seq<Label>, p: SocketAddr): nat {
    if ls == [] then 0
    else
      var l, before := ls[|ls| - 1], Accepts(ls[..|ls| - 1], p);
      if Ends(l, p) then 0 else if l.Accepted? && l.peer == p then before + 1 else before
  }

  /** Each peer has a first-in first-out queue, and is accepted at most once. */
  ghost predicate Fifo(s: State, ls: seq<Label>, p: SocketAddr) {
    && HandedOut(ls, p) + Entry(s.conn, p).queue == Enqueued(ls, p)
    && Accepts(ls, p) == (if Entry(s.conn, p).accepted then 1 else 0)
  }

  ghost predicate Good(par: Params, s: State, ls: seq<Label>) {
    Ledger(par, s, ls) && forall p: SocketAddr :: Fifo(s, ls, p)
  }

  // ---------- Every step keeps both ----------

  /** A step leaves the entries of all other peers alone. */
  lemma StepFrame(par: Params, s: State, l: Label, s': State, q: SocketAddr)
    requires Step(par, s, l, s') && q != l.peer
    ensures (q in s'.conn <==> q in s.conn) && Entry(s'.conn, q) == Entry(s.conn, q)
  {
  }

  lemma OverflowsSnoc(ls: seq<Label>, l: Label)
    ensures Overflows(ls + [l]) == if l.Overflowed? then Overflows(ls) + 1 else Overflows(ls)
  {
    assert (ls + [l])[..|ls|] == ls;
  }

  lemma BoundsKept(par: Params, s: State, l: Label, s': State)
    requires Bounded(par, s.conn) && Step(par, s, l, s')
    ensures Bounded(par, s'.conn)
  {
    var c, p := s.conn, l.peer;
    assert p in c ==> c.Keys + {p} == c.Keys;
    assert (c - {p}).Keys == c.Keys - {p};
  }

  lemma LedgerKept(par: Params, s: State, ls: seq<Label>, l: Label, s': State)
    requires Ledger(par, s, ls) && Step(par, s, l, s')
    ensures Ledger(par, s', ls + [l])
  {
    var p := l.peer;
    OverflowsSnoc(ls, l);
    BoundsKept(par, s, l, s');
    match l
    case Queued(_, d) => TotalUpdate(s.conn, p, s'.conn[p]);
    case Overflowed(_) =>
      TotalDrop(s.conn, p);
      MulStep(Overflows(ls), par.qSize);
    case Refused(_) =>
    case Accepted(_) => TotalUpdate(s.conn, p, s'.conn[p]);
    case Delivered(_, d) => TotalUpdate(s.conn, p, s'.conn[p]);
    case Disconnected(_) => TotalDrop(s.conn, p);
  }

  lemma FifoKept(par: Params, s: State, ls: seq<Label>, l: Label, s': State, p: SocketAddr)
    requires Fifo(s, ls, p) && Step(par, s, l, s')
    ensures Fifo(s', ls + [l], p)
  {
    assert (ls + [l])[..|ls|] == ls;
    if p != l.peer {
      StepFrame(par, s, l, s', p);
    } else if l.Delivered? {
      var q := s.conn[p].queue;
      assert HandedOut(ls, p) + [q[0]] + q[1..] == HandedOut(ls, p) + q;
    } else if l.Queued? {
      var q := Entry(s.conn, p).queue;
      assert HandedOut(ls, p) + (q + [l.data]) == HandedOut(ls, p) + q + [l.data];
    }
  }

  lemma GoodKept(par: Params, s: State, ls: seq<Label>, l: Label, s': State)
    requires Good(par, s, ls) && Step(par, s, l, s')
    ensures Good(par, s', ls + [l])
  {
    LedgerKept(par, s, ls, l, s');
    forall p: SocketAddr ensures Fifo(s', ls + [l], p) {
      FifoKept(par, s, ls, l, s', p);
    }
  }

  ghost predicate Run(par: Params, ss: seq<State>, ls: seq<Label>) {
    && |ss| == |ls| + 1 && ss[0] == State(map[], 0)
    && forall i :: 0 <= i < |ls| ==> Step(par, ss[i], ls[i], ss[i + 1])
  }

  /** Ledger and queue order hold in every reachable state. */
  lemma {:induction false} RunIsGood(par: Params, ss: seq<State>, ls: seq<Label>)
    requires Run(par, ss, ls)
    ensures Good(par, ss[|ls|], ls)
    decreases |ls|
  {
    if ls != [] {
      var m := |ls| - 1;
      assert Run(par, ss[..|ls|], ls[..m]);
      RunIsGood(par, ss[..|ls|], ls[..m]);
      GoodKept(par, ss[m], ls[..m], ls[m], ss[m + 1]);
      assert ls[..m] + [ls[m]] == ls;
    }
  }

  // ---------- The count ----------

  /** Without overflow removals the count is exact, bounded, and shows whether anything is queued. */
  lemma CountExact(par: Params, s: State, ls: seq<Label>)
    requires Ledger(par, s, ls) && Overflows(ls) == 0
    ensures s.queued == Total(s.conn) <= par.maxConn * par.qSize
    ensures s.queued > 0 <==> exists p <- s.conn :: s.conn[p].queue != []
  {
    TotalBound(s.conn, par.qSize);
    TotalPositive(s.conn);
    MulMono(|s.conn|, par.maxConn, par.qSize);
  }

  /** When the last connection is gone the count is zero iff no full queue was ever thrown away. */
  lemma CountZeroIff(par: Params, s: State, ls: seq<Label>)
    requires Ledger(par, s, ls) && s.conn == map[]
    ensures s.queued == 0 <==> par.qSize == 0 || Overflows(ls) == 0
  {
    if par.qSize > 0 && Overflows(ls) > 0 {
      MulMono(1, Overflows(ls), par.qSize);
    }
  }

  /** Each overflow removal takes one connection's worth off the bound; after `maxConn` of them none is left. */
  lemma CountBoundIff(par: Params, s: State, ls: seq<Label>, l: Label, s': State)
    requires Ledger(par, s, ls) && l.Queued? && Step(par, s, l, s')
    ensures s'.queued <= par.maxConn * par.qSize <==>
              Total(s.conn) + Overflows(ls) * par.qSize < par.maxConn * par.qSize
    ensures Overflows(ls) == 0 ==> s'.queued <= par.maxConn * par.qSize
    ensures Overflows(ls) >= par.maxConn ==> s'.queued > par.maxConn * par.qSize
  {
    if Overflows(ls) == 0 {
      LedgerKept(par, s, ls, l, s');
      OverflowsSnoc(ls, l);
      CountExact(par, s', ls + [l]);
    }
    if Overflows(ls) >= par.maxConn {
      MulMono(par.maxConn, Overflows(ls), par.qSize);
    }
  }

  // ---------- Runs in which the assertions fail ----------

  lemma RunSnoc(par: Params, ss: seq<State>, ls: seq<Label>, l: Label, s': State)
    requires Run(par, ss, ls) && Step(par, ss[|ls|], l, s')
    ensures Run(par, ss + [s'], ls + [l])
    ensures Overflows(ls + [l]) == if l.Overflowed? then Overflows(ls) + 1 else Overflows(ls)
  {
    OverflowsSnoc(ls, l);
  }

  function Copies(d: Dgram, k: nat): seq<Dgram> {
    seq(k, _ => d)
  }

  /** A single connection with `k` datagrams. */
  function Holding(p: SocketAddr, d: Dgram, k: nat, n: nat): State {
    State(map[p := Conn(Copies(d, k), p, false)], n)
  }

  lemma HoldingFirst(par: Params, p: SocketAddr, d: Dgram, n: nat)
    requires par.maxConn > 0 && par.qSize > 0
    ensures Step(par, State(map[], n), Queued(p, d), Holding(p, d, 1, n + 1))
  {
    assert [] + [d] == Copies(d, 1);
  }

  lemma HoldingMore(par: Params, p: SocketAddr, d: Dgram, k: nat, n: nat)
    requires k < par.qSize
    ensures Step(par, Holding(p, d, k, n), Queued(p, d), Holding(p, d, k + 1, n + 1))
  {
    assert Copies(d, k) + [d] == Copies(d, k + 1);
  }

  lemma HoldingFull(par: Params, p: SocketAddr, d: Dgram, n: nat)
    ensures Step(par, Holding(p, d, par.qSize, n), Overflowed(p), State(map[], n))
  {
    assert map[p := Conn(Copies(d, par.qSize), p, false)] - {p} == map[];
  }

  /** Without connections, `k` datagrams of one peer can be taken in. */
  lemma {:induction false} FillRun(par: Params, p: SocketAddr, d: Dgram, n: nat, k: nat, ss: seq<State>, ls: seq<Label>)
    returns (ss': seq<State>, ls': seq<Label>)
    requires par.maxConn > 0 && 0 < k <= par.qSize && Run(par, ss, ls) && ss[|ls|] == State(map[], n)
    ensures Run(par, ss', ls') && ss'[|ls'|] == Holding(p, d, k, n + k) && Overflows(ls') == Overflows(ls)
    decreases k
  {
    if k == 1 {
      HoldingFirst(par, p, d, n);
      RunSnoc(par, ss, ls, Queued(p, d), Holding(p, d, 1, n + 1));
      ss', ls' := ss + [Holding(p, d, 1, n + 1)], ls + [Queued(p, d)];
    } else {
      ss', ls' := FillRun(par, p, d, n, k - 1, ss, ls);
      HoldingMore(par, p, d, k - 1, n + k - 1);
      RunSnoc(par, ss', ls', Queued(p, d), Holding(p, d, k, n + k));
      ss', ls' := ss' + [Holding(p, d, k, n + k)], ls' + [Queued(p, d)];
    }
  }

  /** One peer that sends and is never served can cause any number of overflow removals. */
  lemma {:induction false} OverflowRun(par: Params, p: SocketAddr, d: Dgram, m: nat)
    returns (ss: seq<State>, ls: seq<Label>)
    requires par.maxConn > 0 && par.qSize > 0
    ensures Run(par, ss, ls) && ss[|ls|] == State(map[], m * par.qSize) && Overflows(ls) == m
  {
    if m == 0 {
      ss, ls := [State(map[], 0)], [];
    } else {
      ss, ls := OverflowRun(par, p, d, m - 1);
      ss, ls := FillRun(par, p, d, (m - 1) * par.qSize, par.qSize, ss, ls);
      MulStep(m - 1, par.qSize);
      HoldingFull(par, p, d, m * par.qSize);
      RunSnoc(par, ss, ls, Overflowed(p), State(map[], m * par.qSize));
      ss, ls := ss + [State(map[], m * par.qSize)], ls + [Overflowed(p)];
    }
  }

  /** The assertion on the bound can fail for all sizes: a run in which a queued datagram takes the count past it. */
  lemma BoundCanBeExceeded(par: Params, p: SocketAddr, d: Dgram) returns (ss: seq<State>, ls: seq<Label>)
    requires par.maxConn > 0 && par.qSize > 0
    ensures Run(par, ss, ls) && ls != [] && ls[|ls| - 1] == Queued(p, d)
    ensures ss[|ls|].queued == par.maxConn * par.qSize + 1
  {
    var n := par.maxConn * par.qSize;
    ss, ls := OverflowRun(par, p, d, par.maxConn);
    HoldingFirst(par, p, d, n);
    RunSnoc(par, ss, ls, Queued(p, d), Holding(p, d, 1, n + 1));
    ss, ls := ss + [Holding(p, d, 1, n + 1)], ls + [Queued(p, d)];
  }

  /** So can the assertion at the last disconnect: a run that ends without connections and with a count above zero. */
  lemma LastCountCanBePositive(par: Params, p: SocketAddr, d: Dgram) returns (ss: seq<State>, ls: seq<Label>)
    requires par.maxConn > 0 && par.qSize > 0
    ensures Run(par, ss, ls) && ls != [] && ls[|ls| - 1] == Disconnected(p)
    ensures ss[|ls|] == State(map[], par.qSize)
  {
    ss, ls := OverflowRun(par, p, d, 1);
    assert 1 * par.qSize == par.qSize;
    assert ss[|ls|].conn - {p} == map[];
    RunSnoc(par, ss, ls, Disconnected(p), State(map[], par.qSize));
    ss, ls := ss + [State(map[], par.qSize)], ls + [Disconnected(p)];
  }

  /** With no room for connections or for datagrams nothing is ever counted, so neither assertion can fail. */
  lemma {:induction false} NoRoomNoCount(par: Params, ss: seq<State>, ls: seq<Label>)
    requires Run(par, ss, ls) && (par.maxConn == 0 || par.qSize == 0)
    ensures ss[|ls|] == State(map[], 0)
    decreases |ls|
  {
    if ls != [] {
      var m := |ls| - 1;
      assert Run(par, ss[..|ls|], ls[..m]);
      NoRoomNoCount(par, ss[..|ls|], ls[..m]);
      assert Step(par, ss[m], ls[m], ss[m + 1]);
      assert ss[m].conn - {ls[m].peer} == map[];
    }
  }
}
