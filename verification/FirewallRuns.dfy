/** Theorems about whole runs of the lease manager. */
module FirewallRuns {
  import opened Wire
  import opened Addr
  import opened Conf
  import opened Nftables
  import opened Firewall

  /** A run starts right after `NftFirewall::new` and continues with any calls, failing in any pattern. */
  ghost predicate AnyRun(conf: Config, n: Names, ss: seq<State>, es: seq<Event>) {
    && |ss| == |es| + 1
    && ss[0].leases == map[] && Synced(conf, n, ss[0])
    && forall i :: 0 <= i < |es| ==> Step(conf, n, ss[i], es[i], ss[i + 1])
  }

  /** A run in which the calls use one port type for each port number. */
  ghost predicate Run(conf: Config, n: Names, ty: Typing, ss: seq<State>, es: seq<Event>) {
    AnyRun(conf, n, ss, es) && forall i :: 0 <= i < |es| ==> TypedEvent(ty, es[i])
  }

  function DirtyAfter(es: seq<Event>): set<LeaseId> {
    if es == [] then {} else Dirty(DirtyAfter(es[..|es| - 1]), es[|es| - 1])
  }

  lemma RunPrefix(conf: Config, n: Names, ty: Typing, ss: seq<State>, es: seq<Event>)
    requires Run(conf, n, ty, ss, es) && es != []
    ensures Run(conf, n, ty, ss[..|es|], es[..|es| - 1])
  {
  }

  /** The invariant holds at the end of every run. */
  lemma {:induction false} RunKeepsInv(conf: Config, n: Names, ty: Typing, ss: seq<State>, es: seq<Event>)
    requires Run(conf, n, ty, ss, es)
    ensures Inv(conf, n, ty, ss[|es|], DirtyAfter(es))
    decreases |es|
  {
    if es == [] {
      SyncedIffClean(conf, n, ty, ss[0]);
    } else {
      var m := |es| - 1;
      RunPrefix(conf, n, ty, ss, es);
      RunKeepsInv(conf, n, ty, ss[..|es|], es[..m]);
      StepKeeps(conf, n, ty, ss[m], DirtyAfter(es[..m]), es[m], ss[m + 1]);
    }
  }

  /** No close and no maintain has reported an error. */
  ghost predicate NoRemovalError(es: seq<Event>) {
    forall i :: 0 <= i < |es| && !es[i].Open? ==> es[i].ok
  }

  lemma {:induction false} NoErrorNotDirty(conf: Config, n: Names, ty: Typing, ss: seq<State>, es: seq<Event>)
    requires Run(conf, n, ty, ss, es) && !conf.debug && NoRemovalError(es)
    ensures DirtyAfter(es) == {}
    decreases |es|
  {
    if es != [] {
      var m := |es| - 1;
      RunPrefix(conf, n, ty, ss, es);
      NoErrorNotDirty(conf, n, ty, ss[..|es|], es[..m]);
      assert Step(conf, n, ss[m], es[m], ss[m + 1]);
    }
  }

  /**
   * Exactness: with debug off, as long as no close or maintain has returned an error, the chain is
   * exactly the control rules plus the rules of the leases in memory.
   */
  lemma RunStaysSynced(conf: Config, n: Names, ty: Typing, ss: seq<State>, es: seq<Event>)
    requires Run(conf, n, ty, ss, es) && !conf.debug && NoRemovalError(es)
    ensures Synced(conf, n, ss[|es|])
  {
    NoErrorNotDirty(conf, n, ty, ss, es);
    RunKeepsInv(conf, n, ty, ss, es);
    SyncedIffClean(conf, n, ty, ss[|es|]);
  }

  /** Recovery: whatever failed before, a maintain that had to rebuild and did so restores exactness. */
  lemma RebuildRecovers(conf: Config, n: Names, ty: Typing, ss: seq<State>, es: seq<Event>)
    requires Run(conf, n, ty, ss, es) && es != [] && es[|es| - 1].Maintain?
    requires !es[|es| - 1].clean && es[|es| - 1].rebuilt
    ensures Synced(conf, n, ss[|es|])
  {
    RunKeepsInv(conf, n, ty, ss, es);
    SyncedIffClean(conf, n, ty, ss[|es|]);
  }

  /** The leases whose kernel rules a call takes out. */
  function Removed(e: Event): set<LeaseId> {
    match e
    case Open(_, _, _) => {}
    case Close(id, _, _, _) => {id}
    case Maintain(_, pruned, _, _, _, _) => pruned
  }

  /**
   * In every run, also with debug on and after any failures: no delete batch takes out a control rule
   * or a rule of a lease that stays.
   */
  lemma RemovesOnlyItsOwn(conf: Config, n: Names, ty: Typing, ss: seq<State>, es: seq<Event>, k: RuleKey)
    requires Run(conf, n, ty, ss, es) && es != []
    requires var e := es[|es| - 1]; !e.Open? && e.clean && k in e.gone
    ensures k in ss[|es| - 1].rules
    ensures var r := ss[|es| - 1].rules[k];
            RuleOf(n, Removed(es[|es| - 1]), r) && r !in CtrlRules(conf, n) && !RuleOf(n, ss[|es|].leases.Keys, r)
  {
    var m := |es| - 1;
    var s, ids := ss[m], Removed(es[m]);
    RunPrefix(conf, n, ty, ss, es);
    RunKeepsInv(conf, n, ty, ss[..|es|], es[..m]);
    assert Step(conf, n, s, es[m], ss[m + 1]);
    PickedOwner(conf, n, ty, s.rules, s.leases.Keys + DirtyAfter(es[..m]), ids, es[m].gone, k);
    var r := s.rules[k];
    var id :| id in ids && r in LeaseRules(n, id);
    if r in CtrlRules(conf, n) {
      NotControl(conf, n, id, r, r);
    }
    if i :| i in ss[|es|].leases.Keys && r in LeaseRules(n, i) {
      Owner(n, ty, i, id, r, r);
    }
  }

  predicate HasRule(rules: Ruleset, k: RuleKey, r: Rule) {
    k in rules && rules[k] == r
  }

  /** Rules outside our chain are never touched, even if they carry one of our comments. */
  lemma {:induction false} RunKeepsForeign(conf: Config, n: Names, ty: Typing, ss: seq<State>, es: seq<Event>)
    requires Run(conf, n, ty, ss, es)
    ensures Foreign(n, ss[|es|].rules) == Foreign(n, ss[0].rules)
    ensures forall k: RuleKey, r: Rule :: k.family != n.family || k.table != n.table || r.chain != n.chain ==>
              (HasRule(ss[0].rules, k, r) <==> HasRule(ss[|es|].rules, k, r))
    decreases |es|
  {
    if es != [] {
      var m := |es| - 1;
      RunPrefix(conf, n, ty, ss, es);
      RunKeepsForeign(conf, n, ty, ss[..|es|], es[..m]);
      StepKeepsForeign(conf, n, ss[m], es[m], ss[m + 1]);
    }
    SameForeign(n, ss[0].rules, ss[|es|].rules);
  }

  lemma SameForeign(n: Names, rules: Ruleset, rules': Ruleset)
    requires Foreign(n, rules') == Foreign(n, rules)
    ensures forall k: RuleKey, r: Rule :: k.family != n.family || k.table != n.table || r.chain != n.chain ==>
              (HasRule(rules, k, r) <==> HasRule(rules', k, r))
  {
    forall k: RuleKey, r: Rule | k.family != n.family || k.table != n.table || r.chain != n.chain
      ensures HasRule(rules, k, r) <==> HasRule(rules', k, r)
    {
      if HasRule(rules, k, r) {
        assert k in Foreign(n, rules);
      }
      if HasRule(rules', k, r) {
        assert k in Foreign(n, rules');
      }
    }
  }

  lemma StepKeepsForeign(conf: Config, n: Names, s: State, e: Event, s': State)
    requires Step(conf, n, s, e, s')
    ensures Foreign(n, s'.rules) == Foreign(n, s.rules)
  {
  }

  // ---------- Bounded openness ----------

  /** Call `i` opened `id` at time `t` with success, and `id` was not closed since. */
  ghost predicate OpenedAt(es: seq<Event>, id: LeaseId, i: nat, t: int) {
    && i < |es| && es[i] == Open(id, t, true)
    && forall j :: i < j < |es| ==> !(es[j].Close? && es[j].id == id)
  }

  /** Every lease in memory goes back to an open call, and expires one time-out after it. */
  lemma {:induction false} LeaseOrigin(conf: Config, n: Names, ty: Typing, ss: seq<State>, es: seq<Event>, id: LeaseId)
    returns (i: nat, t: int)
    requires Run(conf, n, ty, ss, es) && id in ss[|es|].leases
    ensures OpenedAt(es, id, i, t) && ss[|es|].leases[id].timeout == t + conf.nftTimeout
    decreases |es|
  {
    var m := |es| - 1;
    var e := es[m];
    assert Step(conf, n, ss[m], e, ss[m + 1]);
    if e.Open? && e.id == id && e.ok {
      i, t := m, e.now;
    } else {
      RunPrefix(conf, n, ty, ss, es);
      assert id in ss[m].leases && ss[m + 1].leases[id] == ss[m].leases[id];
      i, t := LeaseOrigin(conf, n, ty, ss[..|es|], es[..m], id);
    }
  }

  /** A rule for `id` is covered by an open call that has not expired at `now`. */
  ghost predicate Justified(conf: Config, es: seq<Event>, id: LeaseId, now: int) {
    exists i: nat, t :: OpenedAt(es, id, i, t) && now < t + conf.nftTimeout
  }

  /**
   * Bounded openness: right after a maintain call that returned Ok, every rule in the chain is a
   * control rule, or opens a port for a lease that was opened less than a time-out ago and not
   * closed since, or was left behind by a removal that failed since the last rebuild.
   */
  lemma OpenOnlyWhileJustified(conf: Config, n: Names, ty: Typing, ss: seq<State>, es: seq<Event>, k: RuleKey)
    returns (id: LeaseId)
    requires Run(conf, n, ty, ss, es) && es != [] && es[|es| - 1].Maintain? && es[|es| - 1].ok
    requires k in Chain(n, ss[|es|].rules) && ss[|es|].rules[k] !in CtrlRules(conf, n)
    ensures ss[|es|].rules[k] in LeaseRules(n, id)
    ensures Justified(conf, es, id, es[|es| - 1].now) || id in DirtyAfter(es)
    ensures !conf.debug && NoRemovalError(es) ==> Justified(conf, es, id, es[|es| - 1].now)
  {
    var s := ss[|es|];
    RunKeepsInv(conf, n, ty, ss, es);
    id :| id in s.leases.Keys + DirtyAfter(es) && s.rules[k] in LeaseRules(n, id);
    if id in s.leases {
      var i, t := LeaseOrigin(conf, n, ty, ss, es, id);
      assert Step(conf, n, ss[|es| - 1], es[|es| - 1], s);
      assert es[|es| - 1].now < t + conf.nftTimeout;
    }
    if !conf.debug && NoRemovalError(es) {
      NoErrorNotDirty(conf, n, ty, ss, es);
    }
  }

  // ---------- Packets ----------

  datatype Packet = Packet(src: IpAddr, dport: SinglePort)

  ghost predicate RuleAccepts(r: Rule, p: Packet) {
    r.body.Accept? && r.body.dport == p.dport && (r.body.saddr.None? || r.body.saddr.value == p.src)
  }

  /** Packets of this address family pass through chains of the table family. */
  predicate Sees(family: Family, src: IpAddr) {
    match src
    case V4(_) => family == INet || family == IP
    case V6(_) => family == INet || family == IP6
  }

  ghost predicate Accepts(n: Names, rules: Ruleset, p: Packet) {
    Sees(n.family, p.src) && exists k <- Chain(n, rules) :: RuleAccepts(rules[k], p)
  }

  /** The packet comes from the host with the address of `id` and goes to its port, by a protocol of the lease. */
  ghost predicate Covers(id: LeaseId, p: Packet) {
    && SameHost(id.addr, p.src) && p.dport.port == id.port.number
    && (if p.dport.proto.Tcp? then id.port.TcpPort? || id.port.TcpUdpPort? else id.port.UdpPort? || id.port.TcpUdpPort?)
  }

  /** A rule that accepts a packet and belongs to a lease shows that the lease covers the packet. */
  lemma RuleCovers(n: Names, id: LeaseId, r: Rule, p: Packet)
    requires r in LeaseRules(n, id) && RuleAccepts(r, p)
    ensures Covers(id, p)
  {
    var q :| q in id.port.Singles() && r == MkRule(n, Some(id.addr), q);
    NormalIff(id.addr, p.src);
  }

  /** The packet goes to the control port, by a protocol that is enabled there. */
  ghost predicate ToControl(conf: Config, p: Packet) {
    p.dport.port == conf.port.port && if p.dport.proto.Tcp? then conf.port.tcp else conf.port.udp
  }

  /** Packet meaning: of the packets it sees, the chain accepts those to the control port and what the leases cover. */
  lemma PacketMeaning(conf: Config, n: Names, ty: Typing, s: State, dirty: set<LeaseId>, p: Packet)
    requires Inv(conf, n, ty, s, dirty)
    ensures (Sees(n.family, p.src) && ToControl(conf, p)) || (exists id <- s.leases :: Covers(id, p)) ==>
              Accepts(n, s.rules, p)
    ensures Accepts(n, s.rules, p) ==>
              Sees(n.family, p.src) && (ToControl(conf, p) || exists id <- s.leases.Keys + dirty :: Covers(id, p))
    ensures dirty == {} ==>
              (Accepts(n, s.rules, p) <==>
               (Sees(n.family, p.src) && ToControl(conf, p)) || exists id <- s.leases :: Covers(id, p))
  {
    if Sees(n.family, p.src) && ToControl(conf, p) {
      ControlAccepted(conf, n, s.rules, p);
    }
    if id :| id in s.leases && Covers(id, p) {
      LeaseAccepted(n, s.rules, id, p);
    }
    if k :| k in Chain(n, s.rules) && RuleAccepts(s.rules[k], p) {
      AcceptedBecause(conf, n, s.rules, s.leases.Keys + dirty, p, k);
    }
  }

  lemma ControlAccepted(conf: Config, n: Names, rules: Ruleset, p: Packet)
    requires (forall r <- CtrlRules(conf, n) :: Present(n, rules, r)) && ToControl(conf, p)
    requires Sees(n.family, p.src)
    ensures Accepts(n, rules, p)
  {
    assert p.dport in CtrlPorts(conf);
    var r := MkRule(n, None, p.dport);
    assert r in CtrlRules(conf, n);
    var k := FindPresent(n, rules, r);
    assert RuleAccepts(rules[k], p);
  }

  lemma LeaseAccepted(n: Names, rules: Ruleset, id: LeaseId, p: Packet)
    requires (forall r <- LeaseRules(n, id) :: Present(n, rules, r)) && Covers(id, p)
    requires FamilyOk(n.family, id.addr)
    ensures Accepts(n, rules, p)
  {
    CoveringRule(n, id, p);
    var k := FindPresent(n, rules, MkRule(n, Some(id.addr), p.dport));
  }

  /** The rule of a lease that accepts a packet it covers. */
  lemma CoveringRule(n: Names, id: LeaseId, p: Packet)
    requires Covers(id, p) && FamilyOk(n.family, id.addr)
    ensures var r := MkRule(n, Some(id.addr), p.dport); r in LeaseRules(n, id) && RuleAccepts(r, p)
    ensures Sees(n.family, p.src)
  {
    NormalIff(id.addr, p.src);
    assert p.dport in id.port.Singles();
  }

  lemma AcceptedBecause(conf: Config, n: Names, rules: Ruleset, ids: set<LeaseId>, p: Packet, k: RuleKey)
    requires Accounted(conf, n, rules, ids) && k in Chain(n, rules) && RuleAccepts(rules[k], p)
    ensures ToControl(conf, p) || exists id <- ids :: Covers(id, p)
  {
    if rules[k] in CtrlRules(conf, n) {
      assert p.dport in CtrlPorts(conf);
    } else {
      var id :| id in ids && rules[k] in LeaseRules(n, id);
      RuleCovers(n, id, rules[k], p);
    }
  }
}
