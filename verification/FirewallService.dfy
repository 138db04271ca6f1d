/** Executions of the lease manager object are runs, so every theorem about runs applies to it. */
module FirewallService {
  import opened Wire
  import opened Conf
  import opened Nftables
  import opened Firewall
  import opened FirewallRuns
  import opened Kernels
  import opened NftFirewalls

  datatype Call = OpenCall(id: LeaseId, now: int) | CloseCall(id: LeaseId, now: int) | MaintainCall(now: int)

  /** The upper layers ask only for ports with a fixed type, and never for the control port. */
  ghost predicate AdmissibleCall(conf: Config, ty: Typing, c: Call) {
    !c.MaintainCall? ==> Typed(ty, c.id) && c.id.port.number != conf.port.port
  }

  ghost predicate Admissible(conf: Config, ty: Typing, calls: seq<Call>) {
    forall i :: 0 <= i < |calls| ==> AdmissibleCall(conf, ty, calls[i])
  }

  lemma RunExtend(conf: Config, n: Names, ty: Typing, ss: seq<State>, es: seq<Event>, e: Event, s': State)
    requires Run(conf, n, ty, ss, es) && Step(conf, n, ss[|es|], e, s') && TypedEvent(ty, e)
    ensures Run(conf, n, ty, ss + [s'], es + [e])
  {
  }

  /** Every removal went through in the kernel. */
  ghost predicate AllClean(es: seq<Event>) {
    forall i :: 0 <= i < |es| && !es[i].Open? ==> es[i].clean
  }

  lemma {:induction false} CleanNotDirty(es: seq<Event>)
    requires AllClean(es)
    ensures DirtyAfter(es) == {}
  {
    if es != [] {
      CleanNotDirty(es[..|es| - 1]);
    }
  }

  lemma TypedNoClash(n: Names, ty: Typing, leases: LeaseMap)
    requires LeasesOk(n, ty, leases)
    ensures NoClash(leases.Keys)
  {
  }

  /** The event that a call leads to. */
  ghost predicate EventOf(c: Call, e: Event) {
    match c
    case OpenCall(id, now) => e.Open? && e.id == id && e.now == now
    case CloseCall(id, _) => e.Close? && e.id == id
    case MaintainCall(now) => e.Maintain? && e.now == now
  }

  /** One call, and the number of rules reported after it. */
  method ServeOne(fw: NftFirewall, c: Call, ghost ty: Typing, ghost dirty: set<LeaseId>)
    returns (count: nat, ghost e: Event)
    requires fw.Valid() && !fw.shutdown && AdmissibleCall(fw.conf, ty, c)
    requires Inv(fw.conf, fw.N(), ty, fw.St(), dirty)
    modifies fw.kernel`st, fw`leases, fw`numCtrlRules
    ensures fw.Valid() && EventOf(c, e)
    ensures Step(fw.conf, fw.N(), old(fw.St()), e, fw.St()) && TypedEvent(ty, e)
    ensures count <= |Chain(fw.N(), fw.kernel.st.rules)|
    ensures Dirty(dirty, e) == {} ==> count == |Chain(fw.N(), fw.kernel.st.rules)|
    ensures !fw.kernel.faulty ==> e.Open? || e.clean
  {
    ghost var s := fw.St();
    match c {
      case OpenCall(id, now) =>
        var ok := fw.OpenPort(id, now);
        e := Open(id, now, ok);
      case CloseCall(id, now) =>
        ghost var clean, gone;
        var ok;
        ok, clean, gone := fw.ClosePort(id, now);
        e := Close(id, ok, clean, gone);
      case MaintainCall(now) =>
        TypedNoClash(fw.N(), ty, fw.leases);
        var ok;
        ok, e := fw.Maintain(now);
    }
    StepKeeps(fw.conf, fw.N(), ty, s, dirty, e, fw.St());
    count := fw.TotalRuleCount(ty, Dirty(dirty, e));
  }

  /** The reported numbers never exceed the size of the chain, and are its size where nothing was dirty. */
  ghost predicate Counted(n: Names, ss: seq<State>, es: seq<Event>, counts: seq<nat>) {
    && |counts| == |es| == |ss| - 1
    && forall i :: 0 <= i < |es| ==> CountOk(n, ss[i + 1], DirtyAfter(es[..i + 1]), counts[i])
  }

  ghost predicate CountOk(n: Names, s: State, dirty: set<LeaseId>, count: nat) {
    count <= |Chain(n, s.rules)| && (dirty == {} ==> count == |Chain(n, s.rules)|)
  }

  lemma CountedExtend(n: Names, ss: seq<State>, es: seq<Event>, counts: seq<nat>, s': State, e: Event, count: nat)
    requires Counted(n, ss, es, counts) && CountOk(n, s', Dirty(DirtyAfter(es), e), count)
    ensures Counted(n, ss + [s'], es + [e], counts + [count])
  {
    var es' := es + [e];
    forall i | 0 <= i < |es'| ensures CountOk(n, (ss + [s'])[i + 1], DirtyAfter(es'[..i + 1]), (counts + [count])[i]) {
      if i < |es| {
        assert es'[..i + 1] == es[..i + 1];
      } else {
        assert es'[..i + 1] == es' && es'[..|es|] == es;
      }
    }
  }

  /**
   * Serve any calls, with kernel failures at any point, and report the number of rules after each.
   * The chain is in line with the leases up to those left dirty. It is exactly in line, and every
   * reported number is the size of the chain, if debug is off and no close or maintain failed, and
   * with a working kernel always.
   */
  method Serve(fw: NftFirewall, calls: seq<Call>, ghost ty: Typing)
    returns (counts: seq<nat>, ghost ss: seq<State>, ghost es: seq<Event>)
    requires fw.Valid() && !fw.shutdown && fw.leases == map[] && Synced(fw.conf, fw.N(), fw.St())
    requires Admissible(fw.conf, ty, calls)
    modifies fw.kernel`st, fw`leases, fw`numCtrlRules
    ensures fw.Valid() && |es| == |calls| && forall i :: 0 <= i < |calls| ==> EventOf(calls[i], es[i])
    ensures Run(fw.conf, fw.N(), ty, ss, es) && ss[0] == old(fw.St()) && ss[|es|] == fw.St()
    ensures Inv(fw.conf, fw.N(), ty, fw.St(), DirtyAfter(es)) && Counted(fw.N(), ss, es, counts)
    ensures !fw.kernel.faulty ==> AllClean(es)
    ensures !fw.kernel.faulty || (!fw.conf.debug && NoRemovalError(es)) ==>
              && Synced(fw.conf, fw.N(), fw.St())
              && forall i :: 0 <= i < |calls| ==> counts[i] == |Chain(fw.N(), ss[i + 1].rules)|
  {
    counts, ss, es := ServeAll(fw, calls, ty);
    RunKeepsInv(fw.conf, fw.N(), ty, ss, es);
    if !fw.kernel.faulty || (!fw.conf.debug && NoRemovalError(es)) {
      ExactWithout(fw.conf, fw.N(), ty, ss, es, counts);
    }
  }

  /** A run from `s0` to `s` with the events of these calls, and the numbers reported on the way. */
  ghost predicate History(conf: Config, n: Names, ty: Typing, calls: seq<Call>, s0: State, s: State, ss: seq<State>,
      es: seq<Event>, counts: seq<nat>) {
    && Run(conf, n, ty, ss, es) && ss[0] == s0 && ss[|es|] == s && Counted(n, ss, es, counts)
    && |es| <= |calls| && forall i :: 0 <= i < |es| ==> EventOf(calls[i], es[i])
  }

  lemma HistoryExtend(conf: Config, n: Names, ty: Typing, calls: seq<Call>, s0: State, s: State, ss: seq<State>,
      es: seq<Event>, counts: seq<nat>, s': State, e: Event, count: nat)
    requires History(conf, n, ty, calls, s0, s, ss, es, counts) && |es| < |calls| && EventOf(calls[|es|], e)
    requires Step(conf, n, s, e, s') && TypedEvent(ty, e) && CountOk(n, s', Dirty(DirtyAfter(es), e), count)
    ensures History(conf, n, ty, calls, s0, s', ss + [s'], es + [e], counts + [count])
    ensures AllClean(es) && (e.Open? || e.clean) ==> AllClean(es + [e])
  {
    RunExtend(conf, n, ty, ss, es, e, s');
    CountedExtend(n, ss, es, counts, s', e, count);
  }

  lemma HistoryInv(conf: Config, n: Names, ty: Typing, calls: seq<Call>, s0: State, s: State, ss: seq<State>,
      es: seq<Event>, counts: seq<nat>)
    requires History(conf, n, ty, calls, s0, s, ss, es, counts)
    ensures Inv(conf, n, ty, s, DirtyAfter(es))
  {
    RunKeepsInv(conf, n, ty, ss, es);
  }

  method ServeAll(fw: NftFirewall, calls: seq<Call>, ghost ty: Typing)
    returns (counts: seq<nat>, ghost ss: seq<State>, ghost es: seq<Event>)
    requires fw.Valid() && !fw.shutdown && fw.leases == map[] && Synced(fw.conf, fw.N(), fw.St())
    requires Admissible(fw.conf, ty, calls)
    modifies fw.kernel`st, fw`leases, fw`numCtrlRules
    ensures fw.Valid() && |es| == |calls|
    ensures History(fw.conf, fw.N(), ty, calls, old(fw.St()), fw.St(), ss, es, counts)
    ensures !fw.kernel.faulty ==> AllClean(es)
  {
    ghost var s0 := fw.St();
    counts, ss, es := [], [s0], [];
    for i := 0 to |calls|
      invariant fw.Valid() && |es| == i && History(fw.conf, fw.N(), ty, calls, s0, fw.St(), ss, es, counts)
      invariant !fw.kernel.faulty ==> AllClean(es)
    {
      ghost var e;
      ghost var s := fw.St();
      HistoryInv(fw.conf, fw.N(), ty, calls, s0, s, ss, es, counts);
      var count;
      count, e := ServeOne(fw, calls[i], ty, DirtyAfter(es));
      HistoryExtend(fw.conf, fw.N(), ty, calls, s0, s, ss, es, counts, fw.St(), e, count);
      counts, ss, es := counts + [count], ss + [fw.St()], es + [e];
    }
  }

  /** Without failed removals a run is exact all the way. */
  lemma ExactWithout(conf: Config, n: Names, ty: Typing, ss: seq<State>, es: seq<Event>, counts: seq<nat>)
    requires Run(conf, n, ty, ss, es) && Counted(n, ss, es, counts)
    requires AllClean(es) || (!conf.debug && NoRemovalError(es))
    ensures Synced(conf, n, ss[|es|])
    ensures forall i :: 0 <= i < |es| ==> counts[i] == |Chain(n, ss[i + 1].rules)|
  {
    forall m | 0 <= m <= |es| ensures DirtyAfter(es[..m]) == {} {
      PrefixNotDirty(conf, n, ty, ss, es, m);
    }
    assert es[..|es|] == es;
    RunKeepsInv(conf, n, ty, ss, es);
    SyncedIffClean(conf, n, ty, ss[|es|]);
    forall i | 0 <= i < |es| ensures counts[i] == |Chain(n, ss[i + 1].rules)| {
      assert CountOk(n, ss[i + 1], DirtyAfter(es[..i + 1]), counts[i]);
    }
  }

  lemma PrefixNotDirty(conf: Config, n: Names, ty: Typing, ss: seq<State>, es: seq<Event>, m: nat)
    requires Run(conf, n, ty, ss, es) && m <= |es|
    requires AllClean(es) || (!conf.debug && NoRemovalError(es))
    ensures DirtyAfter(es[..m]) == {}
  {
    if AllClean(es) {
      CleanNotDirty(es[..m]);
    } else {
      assert Run(conf, n, ty, ss[..m + 1], es[..m]);
      NoErrorNotDirty(conf, n, ty, ss[..m + 1], es[..m]);
    }
  }
}
