/** The lease manager as the object it is in the source, proved to make only the steps of `Firewall`. */
module NftFirewalls {
  import opened Wire
  import opened Addr
  import opened Conf
  import opened Nftables
  import opened Firewall
  import opened Kernels
  import opened Listing

  // ---------- Generating rules ----------

  /** Rules to add for one lease; None where the table family cannot match the address. */
  function GenAddLease(n: Names, id: LeaseId): (r: Option<seq<Rule>>)
    ensures r.Some? <==> FamilyOk(n.family, id.addr)
    ensures r.Some? ==> forall q :: q in r.value <==> q in LeaseRules(n, id)
  {
    if !FamilyOk(n.family, id.addr) then None
    else Some(RulesFor(n, id.addr, id.port.Singles()))
  }

  function RulesFor(n: Names, addr: IpAddr, ps: seq<SinglePort>): (rs: seq<Rule>)
    ensures |rs| == |ps| && forall i :: 0 <= i < |rs| ==> rs[i] == MkRule(n, Some(addr), ps[i])
  {
    seq(|ps|, i requires 0 <= i < |ps| => MkRule(n, Some(addr), ps[i]))
  }

  function CtrlRuleSeq(conf: Config, n: Names): (rs: seq<Rule>)
    ensures |rs| == |CtrlPorts(conf)|
    ensures forall i :: 0 <= i < |rs| ==> rs[i] == MkRule(n, None, CtrlPorts(conf)[i])
  {
    seq(|CtrlPorts(conf)|, i requires 0 <= i < |CtrlPorts(conf)| => MkRule(n, None, CtrlPorts(conf)[i]))
  }

  ghost predicate NoRepeat(rs: seq<Rule>) {
    forall i, j :: 0 <= i < j < |rs| ==> rs[i] != rs[j]
  }

  ghost predicate InChain(n: Names, rs: seq<Rule>) {
    forall i :: 0 <= i < |rs| ==> rs[i].chain == n.chain
  }

  lemma LeaseRulesNoRepeat(n: Names, id: LeaseId)
    ensures NoRepeat(RulesFor(n, id.addr, id.port.Singles())) && InChain(n, RulesFor(n, id.addr, id.port.Singles()))
  {
  }

  lemma CtrlRuleSeqIsCtrlRules(conf: Config, n: Names)
    ensures NoRepeat(CtrlRuleSeq(conf, n)) && InChain(n, CtrlRuleSeq(conf, n))
    ensures forall r :: r in CtrlRuleSeq(conf, n) <==> r in CtrlRules(conf, n)
  {
    var ps := CtrlPorts(conf);
    var rs := CtrlRuleSeq(conf, n);
    forall r | r in CtrlRules(conf, n) ensures r in rs {
      var p :| p in ps && r == MkRule(n, None, p);
      var i :| 0 <= i < |ps| && ps[i] == p;
      assert rs[i] == r;
    }
  }

  // ---------- Effect of the batches ----------

  ghost predicate Holds(m: Ruleset, r: Rule) {
    exists k <- m :: m[k] == r
  }

  /** `m` has one entry in our chain for each of the rules `rs`, and nothing else. */
  ghost predicate Entries(n: Names, m: Ruleset, rs: seq<Rule>) {
    && (forall k <- m :: Ours(n, k, m[k]) && m[k] in rs)
    && (forall r <- rs :: Holds(m, r))
    && (NoRepeat(rs) ==> Injective(m))
  }

  lemma AddedEntries(n: Names, first: nat, rs: seq<Rule>)
    requires InChain(n, rs)
    ensures Entries(n, Added(n, first, rs), rs)
  {
    var m := Added(n, first, rs);
    forall r <- rs ensures Holds(m, r) {
      var i :| 0 <= i < |rs| && rs[i] == r;
      var k := RuleKey(n.family, n.table, first + i);
      assert k in m && m[k] == r;
    }
    if NoRepeat(rs) {
      forall k <- m, l <- m | m[k] == m[l] ensures k == l {
        var i, j := k.handle - first, l.handle - first;
        assert rs[i] == rs[j];
        assert i == j;
      }
    }
  }

  lemma AddsExtend(n: Names, rules: Ruleset, m: Ruleset, rs: seq<Rule>, all: set<Rule>)
    requires Entries(n, m, rs) && rules.Keys !! m.Keys && NoRepeat(rs) && forall r :: r in rs <==> r in all
    ensures Extended(n, rules, all, rules + m)
  {
    forall r <- all ensures exists k <- rules + m :: k !in rules && (rules + m)[k] == r {
      assert Holds(m, r);
      var k :| k in m && m[k] == r;
      assert k in rules + m;
    }
  }

  lemma NewHandles(n: Names, s: KernelState, rs: seq<Rule>)
    requires s.Valid()
    ensures s.rules.Keys !! Added(n, s.next, rs).Keys
  {
  }

  /** Flush and re-add in one batch always executes. */
  lemma RebuildEffect(n: Names, s: KernelState, rs: seq<Rule>)
    ensures Exec(n, s, [Flush] + Adds(rs))
         == Some(KernelState(Foreign(n, s.rules) + Added(n, s.next, rs), s.next + |rs|))
  {
    var batch, s' := [Flush] + Adds(rs), KernelState(Foreign(n, s.rules), s.next);
    assert batch[1..] == Adds(rs);
    assert Exec(n, s, batch) == Exec(n, s', Adds(rs));
    AddsEffect(n, s', rs);
  }

  /** Replacing the chain by `m` leaves everything else as it was. */
  lemma ChainReplaced(n: Names, rules: Ruleset, m: Ruleset, rs: seq<Rule>)
    requires Entries(n, m, rs) && rules.Keys !! m.Keys
    ensures Chain(n, Foreign(n, rules) + m) == m && Foreign(n, Foreign(n, rules) + m) == Foreign(n, rules)
  {
  }

  /** Rules generated so far in a rebuild: control rules, then the rules of the leases `done`. */
  ghost predicate Generated(conf: Config, n: Names, done: set<LeaseId>, rs: seq<Rule>) {
    && InChain(n, rs)
    && (forall r <- rs :: r in CtrlRules(conf, n) || RuleOf(n, done, r))
    && (forall r <- CtrlRules(conf, n) :: r in rs)
    && (forall id <- done, r <- LeaseRules(n, id) :: r in rs)
    && (NoClash(done) ==> NoRepeat(rs))
  }

  lemma GeneratedStart(conf: Config, n: Names)
    ensures Generated(conf, n, {}, CtrlRuleSeq(conf, n))
  {
    CtrlRuleSeqIsCtrlRules(conf, n);
  }

  /** Leases that do not clash have no rule in common. */
  lemma SharedRuleClash(n: Names, a: LeaseId, b: LeaseId, r: Rule)
    requires r in LeaseRules(n, a) && r in LeaseRules(n, b)
    ensures Clash(a, b)
  {
    var p :| p in a.port.Singles() && r == MkRule(n, Some(a.addr), p);
    var q :| q in b.port.Singles() && r == MkRule(n, Some(b.addr), q);
    MkRuleInjective(n, Some(a.addr), p, Some(b.addr), q);
  }

  lemma GeneratedStep(conf: Config, n: Names, done: set<LeaseId>, rs: seq<Rule>, id: LeaseId)
    requires Generated(conf, n, done, rs) && id !in done
    ensures Generated(conf, n, done + {id}, rs + RulesFor(n, id.addr, id.port.Singles()))
  {
    var more := RulesFor(n, id.addr, id.port.Singles());
    LeaseRulesNoRepeat(n, id);
    assert forall r :: r in more <==> r in LeaseRules(n, id);
    forall r <- rs + more ensures r in CtrlRules(conf, n) || RuleOf(n, done + {id}, r) {
      if r in rs && RuleOf(n, done, r) {
        var i :| i in done && r in LeaseRules(n, i);
        assert i in done + {id};
      } else if r in more {
        assert id in done + {id};
      }
    }
    if NoClash(done + {id}) {
      assert forall i <- done :: i in done + {id};
      assert id in done + {id};
      forall r <- rs ensures r !in more {
        if r in more {
          if r in CtrlRules(conf, n) {
            NotControl(conf, n, id, r, r);
          } else {
            var i :| i in done && r in LeaseRules(n, i);
            SharedRuleClash(n, i, id, r);
          }
        }
      }
      NoRepeatConcat(rs, more);
    }
  }

  lemma NoRepeatConcat(a: seq<Rule>, b: seq<Rule>)
    requires NoRepeat(a) && NoRepeat(b) && forall r <- a :: r !in b
    ensures NoRepeat(a + b)
  {
    var c := a + b;
    forall i, j | 0 <= i < j < |c| ensures c[i] != c[j] {
      if i < |a| <= j {
        assert c[i] in a && c[j] in b;
      }
    }
  }

  /** The ruleset after the rebuild batch is a rebuilt state. */
  lemma GeneratedRebuilds(conf: Config, n: Names, leases: LeaseMap, rules: Ruleset, m: Ruleset, rs: seq<Rule>)
    requires Entries(n, m, rs) && rules.Keys !! m.Keys && Generated(conf, n, leases.Keys, rs)
    ensures Rebuilt(conf, n, State(leases, Foreign(n, rules) + m))
  {
    ChainReplaced(n, rules, m, rs);
    forall r <- rs ensures Present(n, Foreign(n, rules) + m, r) {
      assert Holds(m, r);
      var k :| k in m && m[k] == r;
      assert k in Chain(n, Foreign(n, rules) + m);
    }
  }

  // ---------- The object ----------

  class NftFirewall {
    const conf: Config
    const kernel: Kernel
    var leases: LeaseMap
    var shutdown: bool
    var numCtrlRules: nat

    /** Every lease was accepted by the family check when it was added, and sits under its own key. */
    ghost predicate LeasesValid()
      reads this, kernel
    {
      && kernel.Valid()
      && NamesOf(conf).Some?
      && forall id <- leases ::
           IdOf(leases[id]) == id && FamilyOk(N().family, id.addr)
    }

    /** The number of control rules is the one that the last rebuild has to write. */
    ghost predicate Valid()
      reads this, kernel
    {
      LeasesValid() && numCtrlRules == if shutdown then 0 else |CtrlPorts(conf)|
    }

    ghost function N(): Names
      requires NamesOf(conf).Some?
    {
      NamesOf(conf).value
    }

    ghost function St(): State
      reads this, kernel
    {
      State(leases, kernel.st.rules)
    }

    constructor (conf: Config, kernel: Kernel)
      ensures this.conf == conf && this.kernel == kernel && leases == map[] && !shutdown && numCtrlRules == 0
    {
      this.conf, this.kernel := conf, kernel;
      leases, shutdown, numCtrlRules := map[], false, 0;
    }

    /** `NftFirewall::new`: on success the chain holds exactly the control rules. */
    static method New(conf: Config, kernel: Kernel) returns (ok: bool, fw: NftFirewall)
      requires kernel.Valid()
      modifies kernel`st
      ensures fresh(fw) && fw.conf == conf && fw.kernel == kernel && kernel.Valid()
      ensures ok ==> fw.Valid() && !fw.shutdown && fw.leases == map[]
      ensures ok ==> Synced(conf, fw.N(), fw.St())
      ensures ok ==> Foreign(fw.N(), kernel.st.rules) == Foreign(fw.N(), old(kernel.st.rules))
      ensures !ok ==> kernel.st == old(kernel.st)
      ensures !kernel.faulty ==> (ok <==> NamesOf(conf).Some?)
    {
      fw := new NftFirewall(conf, kernel);
      if NamesOf(conf).None? {
        return false, fw;
      }
      ok := fw.FullRebuild();
    }

    /** Flush the chain and write all rules again. Generating the rules cannot fail. */
    method FullRebuild() returns (ok: bool)
      requires LeasesValid()
      modifies kernel`st, `numCtrlRules
      ensures Valid()
      ensures Foreign(N(), kernel.st.rules) == Foreign(N(), old(kernel.st.rules))
      ensures ok && !shutdown ==> Rebuilt(conf, N(), St())
      ensures ok && shutdown ==> Chain(N(), kernel.st.rules) == map[]
      ensures !ok ==> kernel.st == old(kernel.st)
      ensures !kernel.faulty ==> ok
    {
      var n := NamesOf(conf).value;
      var rs: seq<Rule> := [];
      numCtrlRules := 0;
      if !shutdown {
        rs := GenerateRules();
        numCtrlRules := |CtrlPorts(conf)|;
      }
      ghost var m := Added(n, kernel.st.next, rs);
      AddedEntries(n, kernel.st.next, rs);
      NewHandles(n, kernel.st, rs);
      RebuildEffect(n, kernel.st, rs);
      ChainReplaced(n, kernel.st.rules, m, rs);
      if !shutdown {
        GeneratedRebuilds(conf, n, leases, kernel.st.rules, m, rs);
      }
      ok := kernel.Apply(n, [Flush] + Adds(rs));
    }

    /** All rules of a rebuild: the control port, then the leases in any order. */
    method GenerateRules() returns (rs: seq<Rule>)
      requires LeasesValid()
      ensures Generated(conf, N(), leases.Keys, rs)
    {
      var n := NamesOf(conf).value;
      rs := CtrlRuleSeq(conf, n);
      GeneratedStart(conf, n);
      var todo := leases.Keys;
      ghost var done: set<LeaseId> := {};
      while todo != {}
        invariant todo <= leases.Keys && done == leases.Keys - todo
        invariant Generated(conf, n, done, rs)
        decreases todo
      {
        var id :| id in todo;
        var more := GenAddLease(n, id);
        GeneratedStep(conf, n, done, rs, id);
        rs := rs + more.value;
        todo, done := todo - {id}, done + {id};
      }
      assert done == leases.Keys;
    }

    /** Add the rules of one lease. */
    method AddLease(id: LeaseId) returns (ok: bool)
      requires Valid()
      modifies kernel`st
      ensures Valid()
      ensures ok ==> FamilyOk(N().family, id.addr)
                     && Extended(N(), old(kernel.st.rules), LeaseRules(N(), id), kernel.st.rules)
      ensures !ok ==> kernel.st == old(kernel.st)
      ensures !kernel.faulty && FamilyOk(N().family, id.addr) ==> ok
    {
      var n := NamesOf(conf).value;
      var rs := GenAddLease(n, id);
      if rs.None? {
        return false;
      }
      LeaseRulesNoRepeat(n, id);
      AddsEffect(n, kernel.st, rs.value);
      AddedEntries(n, kernel.st.next, rs.value);
      NewHandles(n, kernel.st, rs.value);
      AddsExtend(n, kernel.st.rules, Added(n, kernel.st.next, rs.value), rs.value, LeaseRules(n, id));
      ok := kernel.Apply(n, Adds(rs.value));
    }

    /**
     * Remove the kernel rules of some leases. With debug on, kernel failures are not reported. A
     * working kernel refuses the batch exactly if two of the leases share an entry of the chain.
     */
    method RemoveLeases(removed: seq<Lease>) returns (ok: bool, ghost clean: bool, ghost gone: set<RuleKey>)
      requires Valid() && removed != []
      modifies kernel`st
      ensures Valid()
      ensures Removal(N(), old(kernel.st.rules), IdsOf(removed), clean, gone, kernel.st.rules)
      ensures ok == (clean || conf.debug)
      ensures DistinctLeases(removed) && clean ==> Separate(N(), old(kernel.st.rules), IdsOf(removed))
      ensures DistinctLeases(removed) && Separate(N(), old(kernel.st.rules), IdsOf(removed)) && !kernel.faulty ==> clean
    {
      var n := NamesOf(conf).value;
      clean, gone := false, {};
      var objs := kernel.List();
      if objs.None? {
        return conf.debug, clean, gone;
      }
      var hs := GenDeletes(n, objs.value, removed);
      DeleteBatch(n, kernel.st, objs.value, removed);
      gone := KeysOf(n, hs);
      ok := kernel.Apply(n, Deletes(hs));
      clean := ok;
      if !ok {
        ok := conf.debug;
      }
    }

    /** Drop all timed-out leases from memory and return them. */
    method PruneTimeouts(now: int) returns (pruned: seq<Lease>)
      requires Valid()
      modifies `leases
      ensures Valid()
      ensures leases == old(leases) - TimedOutIds(old(leases), now)
      ensures IdsOf(pruned) == TimedOutIds(old(leases), now) && DistinctLeases(pruned)
    {
      pruned := [];
      var todo := leases.Keys;
      ghost var seen: set<LeaseId> := {};
      while todo != {}
        invariant todo <= old(leases).Keys && seen == old(leases).Keys - todo
        invariant leases == old(leases) - (TimedOutIds(old(leases), now) * seen)
        invariant IdsOf(pruned) == TimedOutIds(old(leases), now) * seen && DistinctLeases(pruned)
        decreases todo
      {
        var id :| id in todo;
        var lease := leases[id];
        assert forall l <- pruned :: IdOf(l) in IdsOf(pruned);
        todo, seen := todo - {id}, seen + {id};
        if lease.TimedOut(now) {
          IdsOfSnoc(pruned, lease);
          pruned := pruned + [lease];
          leases := leases - {id};
        }
      }
      assert TimedOutIds(old(leases), now) * seen == TimedOutIds(old(leases), now);
    }

    method OpenPort(id: LeaseId, now: int) returns (ok: bool)
      requires Valid() && !shutdown && id.port.number != conf.port.port
      modifies kernel`st, `leases
      ensures Valid()
      ensures OpenStep(conf, N(), old(St()), id, now, ok, St())
      ensures ok && id !in old(leases) ==> CanServe(conf, id.addr)
      ensures !kernel.faulty && CanServe(conf, id.addr) ==> ok
    {
      FamilyIff(conf, id.addr);
      if id in leases {
        leases := leases[id := leases[id].(timeout := now + conf.nftTimeout)];
        return true;
      }
      var lease := Lease(id.addr, id.port, now + conf.nftTimeout);
      ok := AddLease(id);
      if ok {
        leases := leases[id := lease];
      }
    }

    method ClosePort(id: LeaseId, now: int) returns (ok: bool, ghost clean: bool, ghost gone: set<RuleKey>)
      requires Valid() && !shutdown && id.port.number != conf.port.port
      modifies kernel`st, `leases
      ensures Valid()
      ensures CloseStep(conf, N(), old(St()), id, ok, clean, gone, St())
      ensures !kernel.faulty ==> ok && clean
    {
      var lease;
      if id in leases {
        lease := leases[id];
        leases := leases - {id};
      } else {
        lease := Lease(id.addr, id.port, now + conf.nftTimeout);
        assert leases - {id} == leases;
      }
      assert IdsOf([lease]) == {id} by {
        IdsOfSnoc([], lease);
        assert [] + [lease] == [lease] && IdOf(lease) == id;
      }
      ok, clean, gone := RemoveLeases([lease]);
    }

    method Maintain(now: int) returns (ok: bool, ghost e: Event)
      requires Valid() && !shutdown
      modifies kernel`st, `leases, `numCtrlRules
      ensures Valid()
      ensures e.Maintain? && e.now == now && e.ok == ok && MaintainStep(conf, N(), old(St()), e, St())
      ensures !kernel.faulty ==> ok && (e.clean <==> Separate(N(), old(kernel.st.rules), e.pruned))
      ensures !kernel.faulty && NoClash(old(leases).Keys) ==> e.clean
    {
      var pruned := PruneTimeouts(now);
      if pruned == [] {
        assert leases == old(leases) && kernel.st.rules - {} == kernel.st.rules;
        assert TimedOutIds(old(leases), now) == {};
        return true, Event.Maintain(now, {}, true, true, {}, false);
      }
      ghost var ids := IdsOf(pruned);
      assert IdOf(pruned[0]) in ids;
      ghost var clean, gone;
      ok, clean, gone := RemoveLeases(pruned);
      if NoClash(old(leases).Keys) {
        NoClashSeparate(N(), old(kernel.st.rules), ids);
      }
      if ok {
        return true, Event.Maintain(now, ids, true, clean, gone, false);
      }
      ok := FullRebuild();
      return ok, Event.Maintain(now, ids, ok, false, gone, ok);
    }

    /** Drop all leases and remove all rules from the chain. */
    method Shutdown() returns (ok: bool)
      requires Valid() && !shutdown
      modifies kernel`st, `leases, `shutdown, `numCtrlRules
      ensures Valid() && shutdown && leases == map[]
      ensures ok ==> Chain(N(), kernel.st.rules) == map[]
      ensures !ok ==> kernel.st == old(kernel.st)
      ensures Foreign(N(), kernel.st.rules) == Foreign(N(), old(kernel.st.rules))
    {
      shutdown := true;
      leases := map[];
      ok := FullRebuild();
    }

    /**
     * The total that `print_total_rule_count` reports. Whatever failed before, it is never more than the
     * number of rules in the chain; with nothing dirty it is that number.
     */
    method TotalRuleCount(ghost ty: Typing, ghost dirty: set<LeaseId>) returns (count: nat)
      requires Valid() && !shutdown && Inv(conf, N(), ty, St(), dirty)
      ensures count <= |Chain(N(), kernel.st.rules)|
      ensures dirty == {} ==> count == |Chain(N(), kernel.st.rules)|
    {
      count := CountRules(numCtrlRules, leases);
      RuleTotal(conf, N(), leases.Keys);
      ChainSize(conf, N(), ty, St(), dirty);
    }
  }

  // ---------- Counting rules ----------

  ghost function AllRules(n: Names, ids: set<LeaseId>): set<Rule> {
    set id, r | id in ids && r in LeaseRules(n, id) :: r
  }

  /** Number of protocol/port pairs of all leases `ids`. */
  ghost function PortSum(ids: set<LeaseId>): nat {
    if ids == {} then 0
    else
      var id :| id in ids;
      |id.port.Singles()| + PortSum(ids - {id})
  }

  lemma {:induction false} PortSumRemove(ids: set<LeaseId>, id: LeaseId)
    requires id in ids
    ensures PortSum(ids) == |id.port.Singles()| + PortSum(ids - {id})
  {
    var i :| i in ids && PortSum(ids) == |i.port.Singles()| + PortSum(ids - {i});
    if i != id {
      PortSumRemove(ids - {i}, id);
      PortSumRemove(ids - {id}, i);
      assert ids - {i} - {id} == ids - {id} - {i};
    }
  }

  /** The loop of `print_total_rule_count`. */
  method CountRules(numCtrlRules: nat, leases: LeaseMap) returns (count: nat)
    requires forall id <- leases :: leases[id].port == id.port
    ensures count == numCtrlRules + PortSum(leases.Keys)
  {
    count := numCtrlRules;
    var todo := leases.Keys;
    ghost var done: set<LeaseId> := {};
    while todo != {}
      invariant todo <= leases.Keys && done == leases.Keys - todo
      invariant count == numCtrlRules + PortSum(done)
      decreases todo
    {
      var id :| id in todo;
      PortSumRemove(done + {id}, id);
      assert done + {id} - {id} == done;
      match leases[id].port {
        case TcpPort(_) => count := count + 1;
        case UdpPort(_) => count := count + 1;
        case TcpUdpPort(_) => count := count + 2;
      }
      todo, done := todo - {id}, done + {id};
    }
    assert done == leases.Keys;
  }

  /** Without clashes, every protocol/port pair has a rule of its own. */
  lemma {:induction false} RuleTotal(conf: Config, n: Names, ids: set<LeaseId>)
    requires NoClash(ids)
    ensures |CtrlRules(conf, n) + AllRules(n, ids)| == |CtrlPorts(conf)| + PortSum(ids)
  {
    if ids == {} {
      CtrlCount(conf, n);
    } else {
      var id :| id in ids;
      var rest := ids - {id};
      PortSumRemove(ids, id);
      RuleTotal(conf, n, rest);
      CountStep(conf, n, rest, id);
      assert rest + {id} == ids;
    }
  }

  lemma CtrlCount(conf: Config, n: Names)
    ensures |CtrlRules(conf, n) + AllRules(n, {})| == |CtrlPorts(conf)|
  {
    CtrlRuleSeqIsCtrlRules(conf, n);
    var rs := CtrlRuleSeq(conf, n);
    assert CtrlRules(conf, n) + AllRules(n, {}) == CtrlRules(conf, n);
    assert CtrlRules(conf, n) == set r | r in rs;
    SetSize(rs);
  }

  lemma {:induction false} SetSize(rs: seq<Rule>)
    requires NoRepeat(rs)
    ensures |set r | r in rs| == |rs|
  {
    if rs != [] {
      var m := |rs| - 1;
      SetSize(rs[..m]);
      assert (set r | r in rs) == (set r | r in rs[..m]) + {rs[m]};
    }
  }

  lemma AllRulesAdd(n: Names, ids: set<LeaseId>, id: LeaseId)
    ensures AllRules(n, ids + {id}) == AllRules(n, ids) + LeaseRules(n, id)
  {
    forall r <- LeaseRules(n, id) ensures r in AllRules(n, ids + {id}) {
      assert id in ids + {id};
    }
    forall r <- AllRules(n, ids) ensures r in AllRules(n, ids + {id}) {
      var i :| i in ids && r in LeaseRules(n, i);
      assert i in ids + {id};
    }
  }

  lemma LeaseRuleCount(n: Names, id: LeaseId)
    ensures |LeaseRules(n, id)| == |id.port.Singles()|
  {
    var rs := RulesFor(n, id.addr, id.port.Singles());
    LeaseRulesNoRepeat(n, id);
    SetSize(rs);
    assert LeaseRules(n, id) == set r | r in rs;
  }

  lemma CountStep(conf: Config, n: Names, done: set<LeaseId>, id: LeaseId)
    requires forall i <- done :: !Clash(i, id)
    ensures |CtrlRules(conf, n) + AllRules(n, done + {id})|
         == |CtrlRules(conf, n) + AllRules(n, done)| + |id.port.Singles()|
  {
    var before, more := CtrlRules(conf, n) + AllRules(n, done), LeaseRules(n, id);
    AllRulesAdd(n, done, id);
    assert CtrlRules(conf, n) + AllRules(n, done + {id}) == before + more;
    forall r <- more ensures r !in before {
      if r in CtrlRules(conf, n) {
        NotControl(conf, n, id, r, r);
      } else if r in AllRules(n, done) {
        var i :| i in done && r in LeaseRules(n, i);
        SharedRuleClash(n, i, id, r);
      }
    }
    assert before !! more;
    LeaseRuleCount(n, id);
  }

  lemma ValuesComplete(conf: Config, n: Names, ty: Typing, s: State, dirty: set<LeaseId>)
    requires Inv(conf, n, ty, s, dirty)
    ensures CtrlRules(conf, n) + AllRules(n, s.leases.Keys) <= Chain(n, s.rules).Values
  {
    forall r <- CtrlRules(conf, n) + AllRules(n, s.leases.Keys) ensures r in Chain(n, s.rules).Values {
      var k := FindPresent(n, s.rules, r);
      assert Chain(n, s.rules)[k] == r;
    }
  }

  lemma ValuesExact(conf: Config, n: Names, s: State)
    requires Synced(conf, n, s)
    ensures Chain(n, s.rules).Values <= CtrlRules(conf, n) + AllRules(n, s.leases.Keys)
  {
    forall k <- Chain(n, s.rules) ensures s.rules[k] in CtrlRules(conf, n) + AllRules(n, s.leases.Keys) {
    }
  }

  /** The chain has at least the rules it should have, and no others if nothing is dirty. */
  lemma ChainSize(conf: Config, n: Names, ty: Typing, s: State, dirty: set<LeaseId>)
    requires Inv(conf, n, ty, s, dirty)
    ensures |CtrlRules(conf, n) + AllRules(n, s.leases.Keys)| <= |Chain(n, s.rules)|
    ensures dirty == {} ==> |CtrlRules(conf, n) + AllRules(n, s.leases.Keys)| == |Chain(n, s.rules)|
  {
    ValuesComplete(conf, n, ty, s, dirty);
    RangeSize(Chain(n, s.rules), CtrlRules(conf, n) + AllRules(n, s.leases.Keys));
    if dirty == {} {
      assert Synced(conf, n, s) by { SyncedIffClean(conf, n, ty, s); }
      ValuesExact(conf, n, s);
    }
  }

  lemma RangeSize(c: Ruleset, all: set<Rule>)
    requires all <= c.Values
    ensures |all| <= |c|
    ensures c.Values <= all && Injective(c) ==> |all| == |c|
  {
    SubsetSize(all, c.Values);
    ValuesSize(c);
    if c.Values <= all && Injective(c) {
      assert c.Values == all;
      InjectiveSize(c);
    }
  }

  lemma {:induction false} SubsetSize<T>(a: set<T>, b: set<T>)
    requires a <= b
    ensures |a| <= |b|
  {
    assert |b| == |a| + |b - a| by {
      assert b == a + (b - a);
    }
  }

  lemma {:induction false} ValuesSize(m: Ruleset)
    ensures |m.Values| <= |m|
    decreases |m|
  {
    if m != map[] {
      var k :| k in m;
      ValuesSize(m - {k});
      forall v | v in m.Values ensures v in (m - {k}).Values + {m[k]} {
        var l :| l in m && m[l] == v;
        assert l != k ==> l in m - {k} && (m - {k})[l] == v;
      }
      SubsetSize(m.Values, (m - {k}).Values + {m[k]});
    }
  }

  lemma {:induction false} InjectiveSize(m: Ruleset)
    requires Injective(m)
    ensures |m.Values| == |m|
    decreases |m|
  {
    if m != map[] {
      var k :| k in m;
      var m' := m - {k};
      InjectiveSize(m');
      forall v | v in m.Values ensures v in m'.Values + {m[k]} {
        var l :| l in m && m[l] == v;
        assert l != k ==> l in m' && m'[l] == v;
      }
      forall v | v in m'.Values ensures v in m.Values && v != m[k] {
        var l :| l in m' && m'[l] == v;
        assert l in m && m[l] == v;
      }
      assert m.Values == m'.Values + {m[k]};
    }
  }
}
