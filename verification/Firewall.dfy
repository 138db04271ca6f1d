/** The lease manager as a state machine: what each locked call may do, and what holds over whole runs. */
module Firewall {
  import opened Wire
  import opened Addr
  import opened Conf
  import opened Nftables

  datatype Lease = Lease(addr: IpAddr, port: LeasePort, timeout: int) {
    predicate TimedOut(now: int) { now >= timeout }
  }

  type LeaseMap = map<LeaseId, Lease>

  /** Leases in memory, and the ruleset in the kernel. */
  datatype State = State(leases: LeaseMap, rules: Ruleset)

  // ---------- What the kernel should contain ----------

  function LeaseRules(n: Names, id: LeaseId): set<Rule> {
    set p | p in id.port.Singles() :: MkRule(n, Some(id.addr), p)
  }

  /** The enabled protocols of the control port. */
  function CtrlPorts(conf: Config): seq<SinglePort> {
    (if conf.port.tcp then [SinglePort(Tcp, conf.port.port)] else [])
    + (if conf.port.udp then [SinglePort(Udp, conf.port.port)] else [])
  }

  function CtrlRules(conf: Config, n: Names): set<Rule> {
    set p | p in CtrlPorts(conf) :: MkRule(n, None, p)
  }

  /** `r` is a rule of one of the leases `ids`. */
  ghost predicate RuleOf(n: Names, ids: set<LeaseId>, r: Rule) {
    exists id <- ids :: r in LeaseRules(n, id)
  }

  ghost predicate Present(n: Names, rules: Ruleset, r: Rule) {
    exists k <- Chain(n, rules) :: rules[k] == r
  }

  ghost predicate Injective(m: Ruleset) {
    forall k <- m, l <- m :: m[k] == m[l] ==> k == l
  }

  /** Every rule in the chain is a control rule or a rule of one of `ids`. */
  ghost predicate Accounted(conf: Config, n: Names, rules: Ruleset, ids: set<LeaseId>) {
    forall k <- Chain(n, rules) :: rules[k] in CtrlRules(conf, n) || RuleOf(n, ids, rules[k])
  }

  /**
   * The chain is, as a multiset, the control rules plus the rules of the leases: every rule there is
   * one of these, every one of these is there, and none is there twice.
   */
  ghost predicate Synced(conf: Config, n: Names, s: State) {
    && Accounted(conf, n, s.rules, s.leases.Keys)
    && (forall r <- CtrlRules(conf, n) :: Present(n, s.rules, r))
    && (forall id <- s.leases, r <- LeaseRules(n, id) :: Present(n, s.rules, r))
    && Injective(Chain(n, s.rules))
  }

  // ---------- Steps ----------

  /** `rules'` is `rules` plus exactly one new entry in our chain for each rule in `extra`. */
  ghost predicate Extended(n: Names, rules: Ruleset, extra: set<Rule>, rules': Ruleset) {
    && (forall k <- rules :: k in rules' && rules'[k] == rules[k])
    && (forall k <- rules' :: k !in rules ==> Ours(n, k, rules'[k]) && rules'[k] in extra)
    && (forall r <- extra :: exists k <- rules' :: k !in rules && rules'[k] == r)
    && (forall k <- rules', l <- rules' :: k !in rules && l !in rules && rules'[k] == rules'[l] ==> k == l)
  }

  /** `k` is an entry of our chain that carries the comment of a rule for `addr` and `p`. */
  predicate Matches(n: Names, rules: Ruleset, addr: IpAddr, p: SinglePort, k: RuleKey) {
    k in rules && Ours(n, k, rules[k]) && rules[k].comment == Some(Comment(Some(addr), p))
  }

  /** `gone` holds one matching entry for each rule of the leases `ids` that has any, and nothing else. */
  ghost predicate Picked(n: Names, rules: Ruleset, ids: set<LeaseId>, gone: set<RuleKey>) {
    && (forall k <- gone :: exists id <- ids, p <- id.port.Singles() :: Matches(n, rules, id.addr, p, k))
    && (forall id <- ids, p <- id.port.Singles(), k <- rules ::
          Matches(n, rules, id.addr, p, k) ==> exists l <- gone :: Matches(n, rules, id.addr, p, l))
    && (forall k <- gone, l <- gone :: rules[k].comment == rules[l].comment ==> k == l)
  }

  /** One locked call on the firewall, with what the caller and the kernel saw. */
  datatype Event =
    | Open(id: LeaseId, now: int, ok: bool)
    | Close(id: LeaseId, ok: bool, clean: bool, gone: set<RuleKey>)
    | Maintain(now: int, pruned: set<LeaseId>, ok: bool, clean: bool, gone: set<RuleKey>, rebuilt: bool)

  ghost predicate OpenStep(conf: Config, n: Names, s: State, id: LeaseId, now: int, ok: bool, s': State) {
    var lease := Lease(id.addr, id.port, now + conf.nftTimeout);
    if id in s.leases then
      ok && s' == s.(leases := s.leases[id := lease])
    else if ok then
      && FamilyOk(n.family, id.addr)
      && s'.leases == s.leases[id := lease]
      && Extended(n, s.rules, LeaseRules(n, id), s'.rules)
    else
      s' == s
  }

  /** Removing the kernel rules of `ids`: a clean removal takes out one entry per rule, a failed one nothing. */
  ghost predicate Removal(n: Names, rules: Ruleset, ids: set<LeaseId>, clean: bool, gone: set<RuleKey>,
      rules': Ruleset) {
    if clean then Picked(n, rules, ids, gone) && rules' == rules - gone
    else rules' == rules
  }

  ghost predicate CloseStep(conf: Config, n: Names, s: State, id: LeaseId, ok: bool, clean: bool,
      gone: set<RuleKey>, s': State) {
    && s'.leases == s.leases - {id}
    && Removal(n, s.rules, {id}, clean, gone, s'.rules)
    && ok == (clean || conf.debug)
  }

  ghost function TimedOutIds(leases: LeaseMap, now: int): set<LeaseId> {
    set id | id in leases && leases[id].timeout <= now
  }

  /** Two leases that generate a rule with the same comment. */
  predicate Clash(a: LeaseId, b: LeaseId) {
    && a.addr == b.addr && a.port.number == b.port.number
    && (a.port.TcpUdpPort? || b.port.TcpUdpPort? || a.port == b.port)
  }

  ghost predicate NoClash(ids: set<LeaseId>) {
    forall a <- ids, b <- ids :: a != b ==> !Clash(a, b)
  }

  /** The chain after a complete rebuild; it has no duplicates unless leases clash. */
  ghost predicate Rebuilt(conf: Config, n: Names, s: State) {
    && Accounted(conf, n, s.rules, s.leases.Keys)
    && (forall r <- CtrlRules(conf, n) :: Present(n, s.rules, r))
    && (forall id <- s.leases, r <- LeaseRules(n, id) :: Present(n, s.rules, r))
    && (NoClash(s.leases.Keys) ==> Injective(Chain(n, s.rules)))
  }

  ghost predicate MaintainStep(conf: Config, n: Names, s: State, e: Event, s': State)
    requires e.Maintain?
  {
    && e.pruned == TimedOutIds(s.leases, e.now)
    && s'.leases == s.leases - e.pruned
    && (e.pruned == {} ==> e.clean && e.gone == {})
    && if e.clean || conf.debug then
         e.ok && !e.rebuilt && Removal(n, s.rules, e.pruned, e.clean, e.gone, s'.rules)
       else
         && e.ok == e.rebuilt
         && Foreign(n, s'.rules) == Foreign(n, s.rules)
         && (e.rebuilt ==> Rebuilt(conf, n, s'))
         && (!e.rebuilt ==> s'.rules == s.rules)
  }

  ghost predicate Step(conf: Config, n: Names, s: State, e: Event, s': State) {
    match e
    case Open(id, now, ok) => OpenStep(conf, n, s, id, now, ok, s')
    case Close(id, ok, clean, gone) => CloseStep(conf, n, s, id, ok, clean, gone, s')
    case Maintain(_, _, _, _, _, _) => MaintainStep(conf, n, s, e, s')
  }

  // ---------- The invariant of all runs ----------

  /** A choice of port type for each port number. */
  type Typing = u16 -> LeasePort

  predicate Typed(ty: Typing, id: LeaseId) {
    id.port == ty(id.port.number)
  }

  /** All leases that a call is about have the type that belongs to their port number. */
  ghost predicate TypedEvent(ty: Typing, e: Event) {
    match e
    case Open(id, _, _) => Typed(ty, id)
    case Close(id, _, _, _) => Typed(ty, id)
    case Maintain(_, _, _, _, _, _) => true
  }

  ghost predicate LeasesOk(n: Names, ty: Typing, leases: LeaseMap) {
    forall id <- leases ::
      && leases[id].addr == id.addr && leases[id].port == id.port
      && FamilyOk(n.family, id.addr) && Typed(ty, id)
  }

  /**
   * What holds however the kernel calls fail. `dirty` names the leases that were dropped from memory
   * while their removal from the kernel failed, since the last complete rebuild.
   *  - no rule of a lease in memory and no control rule is missing from the chain;
   *  - every rule in the chain belongs to the control port, to a lease, or to a dirty lease;
   *  - only rules of dirty leases can be there more than once.
   */
  ghost predicate Inv(conf: Config, n: Names, ty: Typing, s: State, dirty: set<LeaseId>) {
    && LeasesOk(n, ty, s.leases)
    && (forall id <- dirty :: Typed(ty, id))
    && (forall r <- CtrlRules(conf, n) :: Present(n, s.rules, r))
    && (forall id <- s.leases, r <- LeaseRules(n, id) :: Present(n, s.rules, r))
    && Accounted(conf, n, s.rules, s.leases.Keys + dirty)
    && Duplicates(n, s.rules, dirty)
  }

  ghost predicate Duplicates(n: Names, rules: Ruleset, dirty: set<LeaseId>) {
    forall k <- Chain(n, rules), l <- Chain(n, rules) ::
      rules[k] == rules[l] && k != l ==> RuleOf(n, dirty, rules[k])
  }

  /** How a call changes the set of dirty leases. */
  function Dirty(dirty: set<LeaseId>, e: Event): set<LeaseId> {
    match e
    case Open(_, _, _) => dirty
    case Close(id, _, clean, _) => if clean then dirty else dirty + {id}
    case Maintain(_, pruned, _, clean, _, rebuilt) =>
      if clean then dirty else if rebuilt then {} else dirty + pruned
  }

  // ---------- Rules identify their lease ----------

  /** A rule with the comment of another lease's rule belongs to the same lease, given port typing. */
  lemma Owner(n: Names, ty: Typing, a: LeaseId, b: LeaseId, r: Rule, q: Rule)
    requires Typed(ty, a) && Typed(ty, b)
    requires r in LeaseRules(n, a) && q in LeaseRules(n, b) && r.comment == q.comment
    ensures a == b && r == q
  {
    var p :| p in a.port.Singles() && r == MkRule(n, Some(a.addr), p);
    var p' :| p' in b.port.Singles() && q == MkRule(n, Some(b.addr), p');
    MkRuleInjective(n, Some(a.addr), p, Some(b.addr), p');
  }

  lemma NotControl(conf: Config, n: Names, id: LeaseId, r: Rule, q: Rule)
    requires r in LeaseRules(n, id) && q in CtrlRules(conf, n)
    ensures r.comment != q.comment
  {
    var p :| p in id.port.Singles() && r == MkRule(n, Some(id.addr), p);
    var p' :| p' in CtrlPorts(conf) && q == MkRule(n, None, p');
    if r.comment == q.comment {
      MkRuleInjective(n, Some(id.addr), p, None, p');
    }
  }

  /** In an accounted chain, a comment of `id` occurs only on rules of `id`. */
  lemma CommentOwner(conf: Config, n: Names, ty: Typing, rules: Ruleset, ids: set<LeaseId>, id: LeaseId,
      p: SinglePort, k: RuleKey)
    requires Accounted(conf, n, rules, ids) && (forall i <- ids :: Typed(ty, i)) && Typed(ty, id)
    requires p in id.port.Singles() && Matches(n, rules, id.addr, p, k)
    ensures id in ids && rules[k] == MkRule(n, Some(id.addr), p)
  {
    var r := MkRule(n, Some(id.addr), p);
    assert r in LeaseRules(n, id);
    assert k in Chain(n, rules);
    if rules[k] in CtrlRules(conf, n) {
      NotControl(conf, n, id, r, rules[k]);
    }
    var i :| i in ids && rules[k] in LeaseRules(n, i);
    Owner(n, ty, i, id, rules[k], r);
  }

  // ---------- Preservation ----------

  lemma OpenKeeps(conf: Config, n: Names, ty: Typing, s: State, dirty: set<LeaseId>, id: LeaseId, now: int,
      ok: bool, s': State)
    requires Inv(conf, n, ty, s, dirty) && Typed(ty, id) && OpenStep(conf, n, s, id, now, ok, s')
    ensures Inv(conf, n, ty, s', dirty)
  {
    if id in s.leases {
      assert s'.leases.Keys == s.leases.Keys;
    } else if ok {
      assert s'.leases.Keys == s.leases.Keys + {id};
      ExtendedKeeps(conf, n, ty, s.rules, s.leases.Keys, dirty, id, s'.rules);
      forall i <- s'.leases, r <- LeaseRules(n, i) ensures Present(n, s'.rules, r) {
        if i == id {
          var k :| k in s'.rules && k !in s.rules && s'.rules[k] == r;
          assert k in Chain(n, s'.rules);
        } else {
          StillPresent(n, s.rules, LeaseRules(n, id), s'.rules, r);
        }
      }
      forall r <- CtrlRules(conf, n) ensures Present(n, s'.rules, r) {
        StillPresent(n, s.rules, LeaseRules(n, id), s'.rules, r);
      }
    }
  }

  lemma StillPresent(n: Names, rules: Ruleset, extra: set<Rule>, rules': Ruleset, r: Rule)
    requires Extended(n, rules, extra, rules') && Present(n, rules, r)
    ensures Present(n, rules', r)
  {
    var k :| k in Chain(n, rules) && rules[k] == r;
    assert k in Chain(n, rules');
  }

  /** Adding the rules of a new lease accounts for every rule and duplicates none of a clean lease. */
  lemma ExtendedKeeps(conf: Config, n: Names, ty: Typing, rules: Ruleset, live: set<LeaseId>, dirty: set<LeaseId>,
      id: LeaseId, rules': Ruleset)
    requires Extended(n, rules, LeaseRules(n, id), rules')
    requires Accounted(conf, n, rules, live + dirty) && Duplicates(n, rules, dirty)
    requires id !in live && Typed(ty, id) && forall i <- live + dirty :: Typed(ty, i)
    ensures Accounted(conf, n, rules', live + {id} + dirty) && Duplicates(n, rules', dirty)
  {
    forall k <- Chain(n, rules')
      ensures rules'[k] in CtrlRules(conf, n) || RuleOf(n, live + {id} + dirty, rules'[k])
    {
      if k in rules {
        assert k in Chain(n, rules);
        if !(rules[k] in CtrlRules(conf, n)) {
          var i :| i in live + dirty && rules[k] in LeaseRules(n, i);
          assert i in live + {id} + dirty;
        }
      } else {
        assert id in live + {id} + dirty;
      }
    }
    forall k <- Chain(n, rules'), l <- Chain(n, rules') | rules'[k] == rules'[l] && k != l
      ensures RuleOf(n, dirty, rules'[k])
    {
      if k in rules && l in rules {
        assert k in Chain(n, rules) && l in Chain(n, rules);
      } else {
        FreshDuplicate(conf, n, ty, rules, live, dirty, id, rules', k, l);
      }
    }
  }

  lemma FreshDuplicate(conf: Config, n: Names, ty: Typing, rules: Ruleset, live: set<LeaseId>, dirty: set<LeaseId>,
      id: LeaseId, rules': Ruleset, k: RuleKey, l: RuleKey)
    requires Extended(n, rules, LeaseRules(n, id), rules') && Accounted(conf, n, rules, live + dirty)
    requires id !in live && Typed(ty, id) && forall i <- live + dirty :: Typed(ty, i)
    requires k in Chain(n, rules') && l in Chain(n, rules') && rules'[k] == rules'[l] && k != l
    requires k !in rules || l !in rules
    ensures RuleOf(n, dirty, rules'[k])
  {
    var o := if k in rules then k else l;
    assert o in rules && rules'[k] in LeaseRules(n, id);
    var p :| p in id.port.Singles() && rules'[k] == MkRule(n, Some(id.addr), p);
    CommentOwner(conf, n, ty, rules, live + dirty, id, p, o);
    assert id in dirty;
  }

  /** A clean removal: what is picked belongs to `ids`; nothing of another lease goes. */
  lemma PickedOwner(conf: Config, n: Names, ty: Typing, rules: Ruleset, all: set<LeaseId>, ids: set<LeaseId>,
      gone: set<RuleKey>, k: RuleKey)
    requires Accounted(conf, n, rules, all) && (forall i <- all :: Typed(ty, i)) && forall i <- ids :: Typed(ty, i)
    requires Picked(n, rules, ids, gone) && k in gone
    ensures RuleOf(n, ids, rules[k])
  {
    var id, p :| id in ids && p in id.port.Singles() && Matches(n, rules, id.addr, p, k);
    CommentOwner(conf, n, ty, rules, all, id, p, k);
    assert rules[k] in LeaseRules(n, id);
  }

  lemma KeptPresent(conf: Config, n: Names, ty: Typing, rules: Ruleset, all: set<LeaseId>, ids: set<LeaseId>,
      gone: set<RuleKey>, r: Rule)
    requires Accounted(conf, n, rules, all) && (forall i <- all :: Typed(ty, i)) && forall i <- ids :: Typed(ty, i)
    requires Picked(n, rules, ids, gone) && Present(n, rules, r) && !RuleOf(n, ids, r)
    ensures Present(n, rules - gone, r)
  {
    var k :| k in Chain(n, rules) && rules[k] == r;
    if k in gone {
      PickedOwner(conf, n, ty, rules, all, ids, gone, k);
    }
    assert k in Chain(n, rules - gone);
  }

  lemma FindPresent(n: Names, rules: Ruleset, r: Rule) returns (k: RuleKey)
    requires Present(n, rules, r)
    ensures k in Chain(n, rules) && rules[k] == r
  {
    k :| k in Chain(n, rules) && rules[k] == r;
  }

  lemma LeftOver(conf: Config, n: Names, ty: Typing, rules: Ruleset, all: set<LeaseId>, dirty: set<LeaseId>,
      ids: set<LeaseId>, gone: set<RuleKey>, id: LeaseId, k: RuleKey)
    requires Accounted(conf, n, rules, all) && Duplicates(n, rules, dirty)
    requires (forall i <- all :: Typed(ty, i)) && Typed(ty, id)
    requires Picked(n, rules, ids, gone) && id in ids
    requires k in Chain(n, rules) && k !in gone && rules[k] in LeaseRules(n, id)
    ensures RuleOf(n, dirty, rules[k])
  {
    var p :| p in id.port.Singles() && rules[k] == MkRule(n, Some(id.addr), p);
    var l := PickedFor(n, rules, ids, gone, id, p, k);
    CommentOwner(conf, n, ty, rules, all, id, p, l);
    assert l in Chain(n, rules) && k != l && rules[k] == rules[l];
  }

  lemma PickedFor(n: Names, rules: Ruleset, ids: set<LeaseId>, gone: set<RuleKey>, id: LeaseId, p: SinglePort,
      k: RuleKey)
    returns (l: RuleKey)
    requires Picked(n, rules, ids, gone) && id in ids && p in id.port.Singles()
    requires Matches(n, rules, id.addr, p, k)
    ensures l in gone && Matches(n, rules, id.addr, p, l)
  {
    l :| l in gone && Matches(n, rules, id.addr, p, l);
  }

  /** After a clean removal, a rule of a removed lease can only be left over from a dirty one. */
  lemma RemovedAccounted(conf: Config, n: Names, ty: Typing, rules: Ruleset, live: set<LeaseId>,
      dirty: set<LeaseId>, ids: set<LeaseId>, gone: set<RuleKey>)
    requires Accounted(conf, n, rules, live + dirty) && Duplicates(n, rules, dirty)
    requires (forall i <- live + dirty :: Typed(ty, i)) && forall i <- ids :: Typed(ty, i)
    requires Picked(n, rules, ids, gone)
    ensures Accounted(conf, n, rules - gone, (live - ids) + dirty)
  {
    forall k <- Chain(n, rules - gone)
      ensures rules[k] in CtrlRules(conf, n) || RuleOf(n, (live - ids) + dirty, rules[k])
    {
      assert k in Chain(n, rules);
      if rules[k] !in CtrlRules(conf, n) {
        var i :| i in live + dirty && rules[k] in LeaseRules(n, i);
        if i in ids {
          LeftOver(conf, n, ty, rules, live + dirty, dirty, ids, gone, i, k);
          var d :| d in dirty && rules[k] in LeaseRules(n, d);
          assert d in (live - ids) + dirty;
        } else {
          assert i in (live - ids) + dirty;
        }
      }
    }
  }

  lemma RemovalKeeps(conf: Config, n: Names, ty: Typing, s: State, dirty: set<LeaseId>, ids: set<LeaseId>,
      gone: set<RuleKey>, s': State)
    requires Inv(conf, n, ty, s, dirty) && forall i <- ids :: Typed(ty, i)
    requires Picked(n, s.rules, ids, gone) && s' == State(s.leases - ids, s.rules - gone)
    ensures Inv(conf, n, ty, s', dirty)
  {
    var live := s.leases.Keys;
    assert s'.leases.Keys == live - ids;
    RemovedAccounted(conf, n, ty, s.rules, live, dirty, ids, gone);
    forall r <- CtrlRules(conf, n) ensures Present(n, s'.rules, r) {
      if RuleOf(n, ids, r) {
        var i :| i in ids && r in LeaseRules(n, i);
        NotControl(conf, n, i, r, r);
      }
      KeptPresent(conf, n, ty, s.rules, live + dirty, ids, gone, r);
    }
    forall id <- s'.leases, r <- LeaseRules(n, id) ensures Present(n, s'.rules, r) {
      if RuleOf(n, ids, r) {
        var i :| i in ids && r in LeaseRules(n, i);
        Owner(n, ty, i, id, r, r);
      }
      KeptPresent(conf, n, ty, s.rules, live + dirty, ids, gone, r);
    }
    assert Duplicates(n, s'.rules, dirty) by {
      assert forall k <- Chain(n, s'.rules) :: k in Chain(n, s.rules);
    }
  }

  /** A failed removal leaves the rules; the dropped leases become dirty. */
  lemma FailureKeeps(conf: Config, n: Names, ty: Typing, s: State, dirty: set<LeaseId>, ids: set<LeaseId>)
    requires Inv(conf, n, ty, s, dirty) && forall i <- ids :: Typed(ty, i)
    ensures Inv(conf, n, ty, State(s.leases - ids, s.rules), dirty + ids)
  {
    var live := (s.leases - ids).Keys;
    forall k <- Chain(n, s.rules)
      ensures s.rules[k] in CtrlRules(conf, n) || RuleOf(n, live + (dirty + ids), s.rules[k])
    {
      if s.rules[k] !in CtrlRules(conf, n) {
        var i :| i in s.leases.Keys + dirty && s.rules[k] in LeaseRules(n, i);
        assert i in live + (dirty + ids);
      }
    }
    forall k <- Chain(n, s.rules), l <- Chain(n, s.rules) | s.rules[k] == s.rules[l] && k != l
      ensures RuleOf(n, dirty + ids, s.rules[k])
    {
      var i :| i in dirty && s.rules[k] in LeaseRules(n, i);
      assert i in dirty + ids;
    }
  }

  /** A synced state satisfies the invariant with nothing dirty, and the other way round. */
  lemma SyncedIffClean(conf: Config, n: Names, ty: Typing, s: State)
    requires LeasesOk(n, ty, s.leases)
    ensures Synced(conf, n, s) <==> Inv(conf, n, ty, s, {})
  {
    assert s.leases.Keys + {} == s.leases.Keys;
    if Inv(conf, n, ty, s, {}) {
      forall k <- Chain(n, s.rules), l <- Chain(n, s.rules) | s.rules[k] == s.rules[l] ensures k == l {
      }
    }
  }

  lemma StepKeeps(conf: Config, n: Names, ty: Typing, s: State, dirty: set<LeaseId>, e: Event, s': State)
    requires Inv(conf, n, ty, s, dirty) && TypedEvent(ty, e) && Step(conf, n, s, e, s')
    ensures Inv(conf, n, ty, s', Dirty(dirty, e))
  {
    match e
    case Open(id, now, ok) => OpenKeeps(conf, n, ty, s, dirty, id, now, ok, s');
    case Close(id, ok, clean, gone) =>
      if clean {
        RemovalKeeps(conf, n, ty, s, dirty, {id}, gone, s');
      } else {
        FailureKeeps(conf, n, ty, s, dirty, {id});
      }
    case Maintain(now, pruned, ok, clean, gone, rebuilt) =>
      if clean {
        RemovalKeeps(conf, n, ty, s, dirty, pruned, gone, s');
      } else if rebuilt {
        assert NoClash(s'.leases.Keys);
        SyncedIffClean(conf, n, ty, s');
      } else {
        FailureKeeps(conf, n, ty, s, dirty, pruned);
      }
  }
}
