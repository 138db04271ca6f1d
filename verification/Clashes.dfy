/**
 * What happens without port typing, when leases for 80/TCP and 80/TCP+UDP of one address share a rule
 * comment: exactly when closing one lease takes a rule away from the other.
 */
module Clashes {
  import opened Wire
  import opened Addr
  import opened Conf
  import opened Nftables
  import opened Firewall
  import opened FirewallRuns
  import opened Kernels
  import opened Listing
  import opened NftFirewalls

  /** Leases that were opened with success at some time. */
  function EverOpened(es: seq<Event>): set<LeaseId> {
    if es == [] then {}
    else
      var e := es[|es| - 1];
      EverOpened(es[..|es| - 1]) + if e.Open? && e.ok then {e.id} else {}
  }

  lemma AccountedMore(conf: Config, n: Names, rules: Ruleset, ids: set<LeaseId>, more: set<LeaseId>)
    requires Accounted(conf, n, rules, ids) && ids <= more
    ensures Accounted(conf, n, rules, more)
  {
    forall k <- Chain(n, rules) ensures rules[k] in CtrlRules(conf, n) || RuleOf(n, more, rules[k]) {
      if rules[k] !in CtrlRules(conf, n) {
        var id :| id in ids && rules[k] in LeaseRules(n, id);
        assert id in more;
      }
    }
  }

  lemma OpenAccounted(conf: Config, n: Names, s: State, ids: set<LeaseId>, id: LeaseId, now: int, s': State)
    requires Accounted(conf, n, s.rules, ids) && OpenStep(conf, n, s, id, now, true, s')
    ensures Accounted(conf, n, s'.rules, ids + {id})
  {
    AccountedMore(conf, n, s.rules, ids, ids + {id});
    forall k <- Chain(n, s'.rules) ensures s'.rules[k] in CtrlRules(conf, n) || RuleOf(n, ids + {id}, s'.rules[k]) {
      if k in s.rules {
        assert k in Chain(n, s.rules);
      } else {
        assert id in ids + {id};
      }
    }
  }

  /** In every run, with any mix of port types, each rule in the chain was written by this program. */
  lemma {:induction false} AnyRunAccounted(conf: Config, n: Names, ss: seq<State>, es: seq<Event>)
    requires AnyRun(conf, n, ss, es)
    ensures Accounted(conf, n, ss[|es|].rules, EverOpened(es)) && ss[|es|].leases.Keys <= EverOpened(es)
    decreases |es|
  {
    if es == [] {
      AccountedMore(conf, n, ss[0].rules, ss[0].leases.Keys, {});
    } else {
      var m := |es| - 1;
      var e, ids := es[m], EverOpened(es[..m]);
      assert AnyRun(conf, n, ss[..|es|], es[..m]);
      AnyRunAccounted(conf, n, ss[..|es|], es[..m]);
      assert Step(conf, n, ss[m], e, ss[m + 1]);
      if e.Open? && e.ok {
        OpenAccounted(conf, n, ss[m], ids, e.id, e.now, ss[m + 1]);
      } else if e.Maintain? && e.rebuilt {
        AccountedMore(conf, n, ss[m + 1].rules, ss[m + 1].leases.Keys, ids);
      } else {
        var c, c' := Chain(n, ss[m].rules), Chain(n, ss[m + 1].rules);
        assert forall k <- c' :: k in c && c'[k] == c[k];
      }
    }
  }

  // ---------- The exact condition ----------

  /** A comment in such a chain determines the rule. */
  lemma CommentRule(conf: Config, n: Names, rules: Ruleset, ids: set<LeaseId>, addr: IpAddr, p: SinglePort, k: RuleKey)
    requires Accounted(conf, n, rules, ids) && Matches(n, rules, addr, p, k)
    ensures rules[k] == MkRule(n, Some(addr), p)
  {
    assert k in Chain(n, rules);
    if rules[k] in CtrlRules(conf, n) {
      var q :| q in CtrlPorts(conf) && rules[k] == MkRule(n, None, q);
      MkRuleInjective(n, None, q, Some(addr), p);
    } else {
      var i :| i in ids && rules[k] in LeaseRules(n, i);
      var q :| q in i.port.Singles() && rules[k] == MkRule(n, Some(i.addr), q);
      MkRuleInjective(n, Some(i.addr), q, Some(addr), p);
    }
  }

  /** The chain has more than one entry for the rule. */
  ghost predicate Twice(n: Names, rules: Ruleset, r: Rule) {
    exists k <- Chain(n, rules), l <- Chain(n, rules) :: k != l && rules[k] == r && rules[l] == r
  }

  /** The entry that a clean removal takes out for one rule of the leases `removed`; there is no other. */
  lemma OneGoes(conf: Config, n: Names, rules: Ruleset, ids: set<LeaseId>, removed: set<LeaseId>, gone: set<RuleKey>,
      r: Rule)
    returns (l: RuleKey)
    requires Accounted(conf, n, rules, ids) && Picked(n, rules, removed, gone)
    requires RuleOf(n, removed, r) && Present(n, rules, r)
    ensures l in gone && l in Chain(n, rules) && rules[l] == r
    ensures forall k <- gone :: k in rules && rules[k] == r ==> k == l
  {
    var id :| id in removed && r in LeaseRules(n, id);
    var p :| p in id.port.Singles() && r == MkRule(n, Some(id.addr), p);
    var k := FindPresent(n, rules, r);
    l := PickedFor(n, rules, removed, gone, id, p, k);
    CommentRule(conf, n, rules, ids, id.addr, p, l);
    assert l in Chain(n, rules);
  }

  lemma OthersStay(conf: Config, n: Names, rules: Ruleset, ids: set<LeaseId>, removed: set<LeaseId>,
      gone: set<RuleKey>, k: RuleKey)
    requires Accounted(conf, n, rules, ids) && Picked(n, rules, removed, gone)
    requires k in rules && !RuleOf(n, removed, rules[k])
    ensures k !in gone
  {
    if k in gone {
      var id, p :| id in removed && p in id.port.Singles() && Matches(n, rules, id.addr, p, k);
      CommentRule(conf, n, rules, ids, id.addr, p, k);
    }
  }

  /** A rule survives a clean removal iff it is no rule of the leases removed or the chain had it more than once. */
  lemma SurvivesIff(conf: Config, n: Names, rules: Ruleset, ids: set<LeaseId>, removed: set<LeaseId>,
      gone: set<RuleKey>, r: Rule)
    requires Accounted(conf, n, rules, ids) && Picked(n, rules, removed, gone) && Present(n, rules, r)
    ensures Present(n, rules - gone, r) <==> !RuleOf(n, removed, r) || Twice(n, rules, r)
  {
    if RuleOf(n, removed, r) {
      var l := OneGoes(conf, n, rules, ids, removed, gone, r);
      OwnSurvivesIff(n, rules, gone, r, l);
    } else {
      var k := FindPresent(n, rules, r);
      OthersStay(conf, n, rules, ids, removed, gone, k);
      assert k in Chain(n, rules - gone);
    }
  }

  lemma OwnSurvivesIff(n: Names, rules: Ruleset, gone: set<RuleKey>, r: Rule, l: RuleKey)
    requires l in gone && l in Chain(n, rules) && rules[l] == r
    requires forall k <- gone :: k in rules && rules[k] == r ==> k == l
    ensures Present(n, rules - gone, r) <==> Twice(n, rules, r)
  {
    if Twice(n, rules, r) {
      var a, b :| a in Chain(n, rules) && b in Chain(n, rules) && a != b && rules[a] == r && rules[b] == r;
      var k := if a == l then b else a;
      assert k in Chain(n, rules - gone);
    }
    if Present(n, rules - gone, r) {
      var k := FindPresent(n, rules - gone, r);
      assert k in Chain(n, rules) && k != l;
    }
  }

  /**
   * In every run, with any mix of port types: a close or maintain that removes leases cleanly leaves all
   * rules of another lease in place if and only if each of its rules that belongs to a removed lease as
   * well was in the chain more than once.
   */
  lemma RemovalSparesIff(conf: Config, n: Names, ss: seq<State>, es: seq<Event>, other: LeaseId)
    requires AnyRun(conf, n, ss, es) && es != [] && !es[|es| - 1].Open? && es[|es| - 1].clean
    requires forall r <- LeaseRules(n, other) :: Present(n, ss[|es| - 1].rules, r)
    ensures (forall r <- LeaseRules(n, other) :: Present(n, ss[|es|].rules, r)) <==>
            (forall r <- LeaseRules(n, other) ::
               RuleOf(n, Removed(es[|es| - 1]), r) ==> Twice(n, ss[|es| - 1].rules, r))
  {
    var m := |es| - 1;
    var e, s := es[m], ss[m];
    assert AnyRun(conf, n, ss[..|es|], es[..m]);
    AnyRunAccounted(conf, n, ss[..|es|], es[..m]);
    assert Step(conf, n, s, e, ss[m + 1]);
    forall r <- LeaseRules(n, other)
      ensures Present(n, ss[|es|].rules, r) <==> !RuleOf(n, Removed(e), r) || Twice(n, s.rules, r)
    {
      SurvivesIff(conf, n, s.rules, EverOpened(es[..m]), Removed(e), e.gone, r);
    }
  }

  /** Two leases have a rule in common iff they clash. */
  lemma CommonRuleIff(n: Names, a: LeaseId, b: LeaseId)
    ensures Clash(a, b) <==> exists r :: r in LeaseRules(n, a) && r in LeaseRules(n, b)
  {
    if Clash(a, b) {
      var p := SinglePort(if a.port.UdpPort? || b.port.UdpPort? then Udp else Tcp, a.port.number);
      assert p in a.port.Singles() && p in b.port.Singles();
      assert MkRule(n, Some(a.addr), p) in LeaseRules(n, a) && MkRule(n, Some(a.addr), p) in LeaseRules(n, b);
    }
    if r :| r in LeaseRules(n, a) && r in LeaseRules(n, b) {
      SharedRuleClash(n, a, b, r);
    }
  }

  // ---------- Runs that show both cases ----------

  lemma {:induction false} HandleBound(rules: Ruleset) returns (next: nat)
    ensures forall k <- rules :: k.handle < next
    decreases |rules|
  {
    next := 0;
    if rules != map[] {
      var k :| k in rules;
      next := HandleBound(rules - {k});
      assert forall l <- rules :: l == k || l in rules - {k};
      next := if next > k.handle then next else k.handle + 1;
    }
  }

  /** Opening a new lease can succeed in every state. */
  lemma CanOpen(conf: Config, n: Names, s: State, id: LeaseId, now: int) returns (s': State)
    requires FamilyOk(n.family, id.addr) && id !in s.leases
    ensures OpenStep(conf, n, s, id, now, true, s')
  {
    var next := HandleBound(s.rules);
    var rs := RulesFor(n, id.addr, id.port.Singles());
    var m := Added(n, next, rs);
    LeaseRulesNoRepeat(n, id);
    AddedEntries(n, next, rs);
    assert forall r :: r in rs <==> r in LeaseRules(n, id);
    AddsExtend(n, s.rules, m, rs, LeaseRules(n, id));
    s' := State(s.leases[id := Lease(id.addr, id.port, now + conf.nftTimeout)], s.rules + m);
  }

  lemma {:induction false} CanList(rules: Ruleset) returns (objs: seq<ListObject>)
    ensures Lists(objs, rules)
    decreases |rules|
  {
    objs := [];
    if rules != map[] {
      var k :| k in rules;
      var rest := CanList(rules - {k});
      objs := rest + [RuleObject(k, rules[k])];
      forall l <- rules ensures RuleObject(l, rules[l]) in objs {
        assert l == k || RuleObject(l, (rules - {k})[l]) in rest;
      }
    }
  }

  /** So can closing a lease. */
  lemma CanClose(conf: Config, n: Names, s: State, id: LeaseId) returns (gone: set<RuleKey>, s': State)
    ensures CloseStep(conf, n, s, id, true, true, gone, s')
  {
    var lease := Lease(id.addr, id.port, 0);
    var objs := CanList(s.rules);
    HandlesArePicked(n, s.rules, objs, [lease]);
    assert IdsOf([lease]) == {id} by {
      IdsOfSnoc([], lease);
      assert [] + [lease] == [lease];
    }
    gone := KeysOf(n, AllHandles(n, objs, [lease]));
    s' := State(s.leases - {id}, s.rules - gone);
  }

  lemma NotThereAtStart(conf: Config, n: Names, s: State, id: LeaseId, r: Rule)
    requires s.leases == map[] && Synced(conf, n, s) && r in LeaseRules(n, id)
    ensures !Present(n, s.rules, r)
  {
    if Present(n, s.rules, r) {
      var k := FindPresent(n, s.rules, r);
      NotControl(conf, n, id, r, r);
    }
  }

  lemma OpenedOnce(conf: Config, n: Names, s: State, id: LeaseId, now: int, s': State, r: Rule)
    requires OpenStep(conf, n, s, id, now, true, s') && id !in s.leases && r in LeaseRules(n, id)
    ensures Present(n, s'.rules, r) && (Twice(n, s'.rules, r) <==> Present(n, s.rules, r))
  {
    var k :| k in s'.rules && k !in s.rules && s'.rules[k] == r;
    assert k in Chain(n, s'.rules);
    if Present(n, s.rules, r) {
      var l := FindPresent(n, s.rules, r);
      assert l in Chain(n, s'.rules);
    }
    if Twice(n, s'.rules, r) {
      var a, b :| a in Chain(n, s'.rules) && b in Chain(n, s'.rules) && a != b && s'.rules[a] == r && s'.rules[b] == r;
      var o := if a in s.rules then a else b;
      assert o in Chain(n, s.rules);
    }
  }

  lemma TwoCalls(conf: Config, n: Names, ss: seq<State>, es: seq<Event>)
    requires |ss| == 3 && |es| == 2 && ss[0].leases == map[] && Synced(conf, n, ss[0])
    requires Step(conf, n, ss[0], es[0], ss[1]) && Step(conf, n, ss[1], es[1], ss[2])
    ensures AnyRun(conf, n, ss, es)
  {
  }

  lemma CutByClose(conf: Config, n: Names, s0: State, id: LeaseId, now: int, s1: State, closed: LeaseId,
      gone: set<RuleKey>, r: Rule)
    requires s0.leases == map[] && Synced(conf, n, s0) && OpenStep(conf, n, s0, id, now, true, s1)
    requires Picked(n, s1.rules, {closed}, gone) && r in LeaseRules(n, id) && r in LeaseRules(n, closed)
    ensures !Present(n, s1.rules - gone, r)
  {
    OpenAccounted(conf, n, s0, {}, id, now, s1);
    NotThereAtStart(conf, n, s0, id, r);
    OpenedOnce(conf, n, s0, id, now, s1, r);
    SurvivesIff(conf, n, s1.rules, {} + {id}, {closed}, gone, r);
  }

  /**
   * For any two leases that clash, such as 80/TCP+UDP and 80/TCP of one address: after opening the first,
   * closing the second, which has no lease, cuts a rule out of the first, and memory still holds it.
   */
  lemma CutRun(conf: Config, n: Names, s0: State, id: LeaseId, closed: LeaseId, now: int)
    returns (ss: seq<State>, es: seq<Event>, r: Rule)
    requires s0.leases == map[] && Synced(conf, n, s0) && FamilyOk(n.family, id.addr)
    requires id != closed && Clash(id, closed)
    ensures AnyRun(conf, n, ss, es) && ss[0] == s0 && |es| == 2
    ensures es[0] == Open(id, now, true) && es[1].Close? && es[1].id == closed && es[1].ok && es[1].clean
    ensures id in ss[2].leases && r in LeaseRules(n, id) && !Present(n, ss[2].rules, r)
  {
    CommonRuleIff(n, id, closed);
    r :| r in LeaseRules(n, id) && r in LeaseRules(n, closed);
    var s1 := CanOpen(conf, n, s0, id, now);
    var gone, s2 := CanClose(conf, n, s1, closed);
    CutByClose(conf, n, s0, id, now, s1, closed, gone, r);
    ss, es := [s0, s1, s2], [Open(id, now, true), Close(closed, true, true, gone)];
    TwoCalls(conf, n, ss, es);
  }

  /** If both were opened, the first close of one spares the other, because the shared rules are there twice. */
  lemma SparedRun(conf: Config, n: Names, s0: State, id: LeaseId, closed: LeaseId, now: int)
    returns (ss: seq<State>, es: seq<Event>)
    requires s0.leases == map[] && Synced(conf, n, s0) && FamilyOk(n.family, id.addr)
    requires id != closed && Clash(id, closed)
    ensures AnyRun(conf, n, ss, es) && ss[0] == s0 && |es| == 3
    ensures es[0] == Open(closed, now, true) && es[1] == Open(id, now, true)
    ensures es[2].Close? && es[2].id == closed && es[2].ok && es[2].clean
    ensures forall r <- LeaseRules(n, id) :: Present(n, ss[3].rules, r)
  {
    var s1 := CanOpen(conf, n, s0, closed, now);
    var s2 := CanOpen(conf, n, s1, id, now);
    var gone, s3 := CanClose(conf, n, s2, closed);
    ss := [s0, s1, s2, s3];
    es := [Open(closed, now, true), Open(id, now, true), Close(closed, true, true, gone)];
    assert AnyRun(conf, n, ss, es);
    forall r <- LeaseRules(n, id) ensures Present(n, s2.rules, r) {
      OpenedOnce(conf, n, s1, id, now, s2, r);
    }
    forall r <- LeaseRules(n, id) | RuleOf(n, {closed}, r) ensures Twice(n, s2.rules, r) {
      OpenedOnce(conf, n, s0, closed, now, s1, r);
      OpenedOnce(conf, n, s1, id, now, s2, r);
    }
    RemovalSparesIff(conf, n, ss, es, id);
  }
}
