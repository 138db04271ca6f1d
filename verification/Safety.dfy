/**
 * The promise of the whole system: what the firewall lets through belongs to a recent open call, and
 * each open call to a session of its own that was authenticated before.
 */
module Safety {
  import opened Wire
  import opened Addr
  import opened Conf
  import opened Messages
  import opened FirewallMessages
  import opened Nftables
  import opened Firewall
  import opened FirewallRuns
  import opened Sessions
  import opened Server
  import opened EndToEnd

  /** The session asked the firewall for just this call. */
  ghost predicate Requested(s: Session, e: Event)
    requires !e.Maintain?
  {
    exists j :: 0 <= j < |s.log| && IsRequestFor(s.log[j], e.id) && s.log[j].op == if e.Open? then FwOpen else FwClose
  }

  /** The session was fully authenticated for a Knock on this resource, which its user may use. */
  ghost predicate KnockedBy(conf: Config, mac: Mac, s: Session, r: Resource) {
    && FullPassed(conf, mac, s.nonce, s.log) && s.log[0].msg.operation == Knock
    && Permitted(conf, s.log[0].msg) && r == conf.resources[s.log[0].msg.resource]
  }

  /** A request to open comes from a session that was authenticated for just this lease. */
  lemma OpenWasKnocked(conf: Config, mac: Mac, acts: seq<Act>, sid: nat, e: Event)
    requires sid in After(conf, mac, acts) && e.Open? && Requested(After(conf, mac, acts)[sid], e)
    ensures var s := After(conf, mac, acts)[sid];
            s.log != [] && s.log[0].Got? && s.log[0].msg.resource in conf.resources
            && var r := conf.resources[s.log[0].msg.resource];
            KnockedBy(conf, mac, s, r) && e.id == LeaseFor(conf, s.peer, r)
  {
    SystemInv(conf, mac, acts, sid);
    var s := After(conf, mac, acts)[sid];
    var j :| 0 <= j < |s.log| && IsRequestFor(s.log[j], e.id) && s.log[j].op == FwOpen;
    assert j == 3 && FullPassed(conf, mac, s.nonce, s.log[..3]);
    assert s.log[..3][0] == s.log[0] && s.log[..3][1] == s.log[1] && s.log[..3][2] == s.log[2];
  }

  /** A packet to a lease port of a resource goes to the resource's port, by one of its protocols. */
  ghost predicate ToResource(r: Resource, p: Packet) {
    p.dport.port == r.port && if p.dport.proto.Tcp? then r.tcp else r.udp
  }

  lemma CoversResource(conf: Config, peer: IpAddr, r: Resource, p: Packet)
    requires (r.tcp || r.udp) && Covers(LeaseFor(conf, peer, r), p)
    ensures SameHost(peer, p.src) && ToResource(r, p)
  {
  }

  /**
   * A common history of sessions and firewall: `at[i]` acts of the server came before call `i`, and that
   * call was requested by session `who[i]` by then. A session asks at most once (`Authorised`), and one
   * request causes at most one call, so no two calls have the same session.
   */
  ghost predicate Joint(conf: Config, mac: Mac, acts: seq<Act>, es: seq<Event>, at: seq<nat>, who: seq<nat>) {
    && |at| == |es| == |who|
    && (forall i :: 0 <= i < |es| ==> at[i] <= |acts|)
    && (forall i :: 0 <= i < |es| && !es[i].Maintain? ==>
          who[i] in Before(conf, mac, acts, at, i) && Requested(Before(conf, mac, acts, at, i)[who[i]], es[i]))
    && (forall i, j :: 0 <= i < j < |es| && !es[i].Maintain? && !es[j].Maintain? ==> who[i] != who[j])
  }

  /** The sessions as they were when call `i` was made. */
  ghost function Before(conf: Config, mac: Mac, acts: seq<Act>, at: seq<nat>, i: nat): System
    requires i < |at| && at[i] <= |acts|
  {
    After(conf, mac, acts[..at[i]])
  }

  /** What sessions ask for has one port type for each port number. */
  lemma JointIsTyped(conf: Config, n: Names, mac: Mac, acts: seq<Act>, at: seq<nat>, who: seq<nat>, ss: seq<State>,
      es: seq<Event>)
    requires TablesOk(conf) && AnyRun(conf, n, ss, es) && Joint(conf, mac, acts, es, at, who)
    ensures Run(conf, n, TypingOf(conf), ss, es)
  {
    forall i | 0 <= i < |es| ensures TypedEvent(TypingOf(conf), es[i]) {
      if !es[i].Maintain? {
        RequestedIsTyped(conf, mac, acts[..at[i]], who[i], es[i]);
      }
    }
  }

  lemma RequestedIsTyped(conf: Config, mac: Mac, acts: seq<Act>, sid: nat, e: Event)
    requires TablesOk(conf) && sid in After(conf, mac, acts) && !e.Maintain?
    requires Requested(After(conf, mac, acts)[sid], e)
    ensures TypedEvent(TypingOf(conf), e)
  {
    var s := After(conf, mac, acts)[sid];
    var j :| 0 <= j < |s.log| && IsRequestFor(s.log[j], e.id) && s.log[j].op == if e.Open? then FwOpen else FwClose;
    RequestsAreTyped(conf, mac, acts, sid, j);
  }

  /**
   * Safety of the whole system. Take any interleaving of sessions with any messages, and any run of
   * the firewall that makes only calls that sessions asked for, one for each request, with debug off
   * and no failed close or maintain. Right after maintenance, a packet that is accepted and does not go
   * to the control port belongs to an open call `i` less than a time-out ago and not closed since; and
   * before that call was made its session `who[i]`, from the packet's source address, had been fully
   * authenticated for a Knock on a resource with this port and protocol that its user may use.
   */
  lemma AcceptedMeansAuthenticated(conf: Config, n: Names, mac: Mac, acts: seq<Act>, at: seq<nat>, who: seq<nat>,
      ss: seq<State>, es: seq<Event>, p: Packet)
    returns (i: nat, t: int, r: Resource)
    requires TablesOk(conf) && !conf.debug && NoRemovalError(es)
    requires AnyRun(conf, n, ss, es) && es != [] && es[|es| - 1].Maintain?
    requires Joint(conf, mac, acts, es, at, who)
    requires Accepts(n, ss[|es|].rules, p) && !ToControl(conf, p)
    ensures i < |es| && at[i] <= |acts| && es[|es| - 1].now < t + conf.nftTimeout
    ensures var sys := Before(conf, mac, acts, at, i);
            && who[i] in sys && KnockedBy(conf, mac, sys[who[i]], r)
            && (r.users == [] || sys[who[i]].log[0].msg.user in r.users)
            && SameHost(sys[who[i]].peer, p.src) && ToResource(r, p)
            && OpenedAt(es, LeaseFor(conf, sys[who[i]].peer, r), i, t)
  {
    JointIsTyped(conf, n, mac, acts, at, who, ss, es);
    var id;
    i, t, id := WhichOpen(conf, n, ss, es, p);
    var s := Before(conf, mac, acts, at, i)[who[i]];
    OpenWasKnocked(conf, mac, acts[..at[i]], who[i], es[i]);
    r := conf.resources[s.log[0].msg.resource];
    CoversResource(conf, s.peer, r, p);
  }

  /** The open call that an accepted packet goes back to. */
  lemma WhichOpen(conf: Config, n: Names, ss: seq<State>, es: seq<Event>, p: Packet)
    returns (i: nat, t: int, id: LeaseId)
    requires !conf.debug && NoRemovalError(es)
    requires Run(conf, n, TypingOf(conf), ss, es) && es != [] && es[|es| - 1].Maintain?
    requires Accepts(n, ss[|es|].rules, p) && !ToControl(conf, p)
    ensures OpenedAt(es, id, i, t) && es[|es| - 1].now < t + conf.nftTimeout && Covers(id, p)
  {
    var k :| k in Chain(n, ss[|es|].rules) && RuleAccepts(ss[|es|].rules[k], p);
    ControlRuleAccepts(conf, n, ss[|es|].rules[k], p);
    id := OpenOnlyWhileJustified(conf, n, TypingOf(conf), ss, es, k);
    RuleCovers(n, id, ss[|es|].rules[k], p);
    i, t :| OpenedAt(es, id, i, t) && es[|es| - 1].now < t + conf.nftTimeout;
  }

  lemma ControlRuleAccepts(conf: Config, n: Names, r: Rule, p: Packet)
    requires RuleAccepts(r, p)
    ensures r in CtrlRules(conf, n) ==> ToControl(conf, p)
  {
  }

  // ---------- No more open calls than knocks ----------

  /** History of a session is only added to. */
  lemma {:induction false} HistoryGrows(conf: Config, mac: Mac, acts: seq<Act>, a: nat, sid: nat)
    requires a <= |acts| && sid in After(conf, mac, acts[..a])
    ensures sid in After(conf, mac, acts) && After(conf, mac, acts[..a])[sid].log <= After(conf, mac, acts)[sid].log
    decreases |acts|
  {
    if a == |acts| {
      assert acts[..a] == acts;
    } else {
      var m := |acts| - 1;
      assert acts[..m][..a] == acts[..a];
      HistoryGrows(conf, mac, acts[..m], a, sid);
      SystemInv(conf, mac, acts[..m], sid);
      if acts[m].Receive? && acts[m].sid == sid {
        DeliverGrows(conf, mac, After(conf, mac, acts[..m])[sid], acts[m].input);
      }
    }
  }

  lemma StillRequested(s: Session, s': Session, e: Event)
    requires !e.Maintain? && Requested(s, e) && s.log <= s'.log
    ensures Requested(s', e)
  {
    var j :| 0 <= j < |s.log| && IsRequestFor(s.log[j], e.id) && s.log[j].op == if e.Open? then FwOpen else FwClose;
    assert s'.log[j] == s.log[j];
  }

  /** The sessions that were fully authenticated for a Knock. */
  ghost function Knocked(conf: Config, mac: Mac, sys: System): set<nat> {
    set sid | sid in sys && exists r :: KnockedBy(conf, mac, sys[sid], r)
  }

  function OpenCalls(es: seq<Event>): set<nat> {
    set i: nat | i < |es| && es[i].Open?
  }

  /** Conservation: the firewall never gets more open calls than there were sessions fully authenticated for a Knock. */
  lemma OpensBounded(conf: Config, mac: Mac, acts: seq<Act>, es: seq<Event>, at: seq<nat>, who: seq<nat>)
    requires Joint(conf, mac, acts, es, at, who)
    ensures |OpenCalls(es)| <= |Knocked(conf, mac, After(conf, mac, acts))|
  {
    forall i <- OpenCalls(es) ensures who[i] in Knocked(conf, mac, After(conf, mac, acts)) {
      HistoryGrows(conf, mac, acts, at[i], who[i]);
      StillRequested(Before(conf, mac, acts, at, i)[who[i]], After(conf, mac, acts)[who[i]], es[i]);
      OpenWasKnocked(conf, mac, acts, who[i], es[i]);
    }
    InjectiveCount(OpenCalls(es), who, Knocked(conf, mac, After(conf, mac, acts)));
  }

  lemma {:induction false} InjectiveCount(indices: set<nat>, f: seq<nat>, range: set<nat>)
    requires forall i <- indices :: i < |f| && f[i] in range
    requires forall i <- indices, j <- indices :: i != j ==> f[i] != f[j]
    ensures |indices| <= |range|
    decreases |indices|
  {
    if indices != {} {
      var i :| i in indices;
      InjectiveCount(indices - {i}, f, range - {f[i]});
    }
  }
}
