/** How long leases live, over whole runs: exactly from an open until a close or a maintenance after the time-out. */
module LeaseLife {
  import opened Wire
  import opened Addr
  import opened Conf
  import opened Nftables
  import opened Firewall
  import opened FirewallRuns

  /** Call `i` was the last successful open of `id`, at time `t`, and no close of `id` came after it. */
  ghost predicate LastOpen(es: seq<Event>, id: LeaseId, i: nat, t: int) {
    && i < |es| && es[i] == Open(id, t, true)
    && forall j :: i < j < |es| ==> !(es[j].Open? && es[j].id == id && es[j].ok) && !(es[j].Close? && es[j].id == id)
  }

  /** And no maintenance ran at or after the end of the time-out since. */
  ghost predicate InForce(conf: Config, es: seq<Event>, id: LeaseId, i: nat, t: int) {
    && LastOpen(es, id, i, t)
    && forall j :: i < j < |es| && es[j].Maintain? ==> es[j].now < t + conf.nftTimeout
  }

  /** A call that keeps the open of `id` in force. */
  ghost predicate Spares(conf: Config, e: Event, id: LeaseId, t: int) {
    && !(e.Open? && e.id == id && e.ok) && !(e.Close? && e.id == id)
    && (e.Maintain? ==> e.now < t + conf.nftTimeout)
  }

  lemma InForceSnoc(conf: Config, es: seq<Event>, e: Event, id: LeaseId, i: nat, t: int)
    ensures i < |es| ==> (InForce(conf, es + [e], id, i, t) <==> InForce(conf, es, id, i, t) && Spares(conf, e, id, t))
    ensures InForce(conf, es + [e], id, |es|, t) <==> e == Open(id, t, true)
  {
    var all := es + [e];
    assert forall j :: 0 <= j < |es| ==> all[j] == es[j];
    assert all[|es|] == e;
  }

  /** Both ways at once: the lease is in memory with the end of its time-out iff the open at `t` is in force. */
  ghost predicate Held(conf: Config, es: seq<Event>, leases: LeaseMap, id: LeaseId) {
    && (id in leases ==> exists i: nat, t :: InForce(conf, es, id, i, t) && leases[id].timeout == t + conf.nftTimeout)
    && forall i: nat, t :: InForce(conf, es, id, i, t) ==> id in leases && leases[id].timeout == t + conf.nftTimeout
  }

  lemma HeldStep(conf: Config, n: Names, es: seq<Event>, s: State, e: Event, s': State, id: LeaseId)
    requires Held(conf, es, s.leases, id) && Step(conf, n, s, e, s')
    ensures Held(conf, es + [e], s'.leases, id)
  {
    var all := es + [e];
    if id in s'.leases {
      if e.Open? && e.id == id && e.ok {
        InForceSnoc(conf, es, e, id, |es|, e.now);
        assert InForce(conf, all, id, |es|, e.now);
      } else {
        assert id in s.leases && s'.leases[id] == s.leases[id];
        var i: nat, t :| InForce(conf, es, id, i, t) && s.leases[id].timeout == t + conf.nftTimeout;
        InForceSnoc(conf, es, e, id, i, t);
        assert InForce(conf, all, id, i, t);
      }
    }
    forall i: nat, t | InForce(conf, all, id, i, t)
      ensures id in s'.leases && s'.leases[id].timeout == t + conf.nftTimeout
    {
      InForceSnoc(conf, es, e, id, i, t);
      if i < |es| {
        assert id in s.leases && s.leases[id].timeout == t + conf.nftTimeout;
      }
    }
  }

  lemma {:induction false} RunHeld(conf: Config, n: Names, ss: seq<State>, es: seq<Event>, id: LeaseId)
    requires AnyRun(conf, n, ss, es)
    ensures Held(conf, es, ss[|es|].leases, id)
    decreases |es|
  {
    if es != [] {
      var m := |es| - 1;
      assert AnyRun(conf, n, ss[..|es|], es[..m]);
      RunHeld(conf, n, ss[..|es|], es[..m], id);
      assert Step(conf, n, ss[m], es[m], ss[m + 1]);
      HeldStep(conf, n, es[..m], ss[m], es[m], ss[m + 1], id);
      assert es[..m] + [es[m]] == es;
    }
  }

  /**
   * In every run, whatever failed: a lease is in memory if and only if it was opened with success, was
   * not closed since, and no maintenance ran at or after the end of the time-out of its last open. It
   * then ends one time-out after that open.
   */
  lemma LeaseIff(conf: Config, n: Names, ss: seq<State>, es: seq<Event>, id: LeaseId)
    requires AnyRun(conf, n, ss, es)
    ensures id in ss[|es|].leases <==> exists i: nat, t :: InForce(conf, es, id, i, t)
    ensures forall i: nat, t :: InForce(conf, es, id, i, t) ==>
              id in ss[|es|].leases && ss[|es|].leases[id].timeout == t + conf.nftTimeout
  {
    RunHeld(conf, n, ss, es, id);
  }

  /**
   * An open that is in force keeps its port open: in every run with one type for each port, whatever
   * failed, every packet from the host with the lease's address to its port, by one of its protocols,
   * is accepted.
   */
  lemma InForceAccepts(conf: Config, n: Names, ty: Typing, ss: seq<State>, es: seq<Event>, id: LeaseId, i: nat, t: int,
      src: IpAddr, p: SinglePort)
    requires Run(conf, n, ty, ss, es) && InForce(conf, es, id, i, t)
    requires SameHost(id.addr, src) && p.port == id.port.number
    requires match p.proto case Tcp => !id.port.UdpPort? case Udp => !id.port.TcpPort?
    ensures Accepts(n, ss[|es|].rules, Packet(src, p))
  {
    LeaseIff(conf, n, ss, es, id);
    RunKeepsInv(conf, n, ty, ss, es);
    PacketMeaning(conf, n, ty, ss[|es|], DirtyAfter(es), Packet(src, p));
    assert Covers(id, Packet(src, p));
  }

  /**
   * With debug off and no failed close or maintain, a packet is accepted if and only if it goes to an
   * enabled control port in an address family that the table sees, or an open in force covers it.
   */
  lemma AcceptedIffInForce(conf: Config, n: Names, ty: Typing, ss: seq<State>, es: seq<Event>, p: Packet)
    requires Run(conf, n, ty, ss, es) && !conf.debug && NoRemovalError(es)
    ensures Accepts(n, ss[|es|].rules, p) <==>
              || (Sees(n.family, p.src) && ToControl(conf, p))
              || exists id, i: nat, t :: InForce(conf, es, id, i, t) && Covers(id, p)
  {
    RunKeepsInv(conf, n, ty, ss, es);
    NoErrorNotDirty(conf, n, ty, ss, es);
    PacketMeaning(conf, n, ty, ss[|es|], {}, p);
    if id :| id in ss[|es|].leases && Covers(id, p) {
      LeaseIff(conf, n, ss, es, id);
      var i: nat, t :| InForce(conf, es, id, i, t);
    }
    if id, i: nat, t :| InForce(conf, es, id, i, t) && Covers(id, p) {
      LeaseIff(conf, n, ss, es, id);
    }
  }
}
