/** Choosing the handles to delete from a listing. */
module Listing {
  import opened Wire
  import opened Addr
  import opened Conf
  import opened Nftables
  import opened Firewall
  import opened Kernels

  predicate IsMatch(n: Names, o: ListObject, comment: string) {
    o.RuleObject? && Ours(n, o.key, o.rule) && o.rule.comment == Some(comment)
  }

  /** Handle of the first rule of our chain with this comment. */
  function FirstMatch(n: Names, objs: seq<ListObject>, comment: string): Option<nat> {
    if objs == [] then None
    else if IsMatch(n, objs[0], comment) then Some(objs[0].key.handle)
    else FirstMatch(n, objs[1..], comment)
  }

  method FindHandle(n: Names, objs: seq<ListObject>, addr: IpAddr, p: SinglePort) returns (h: Option<nat>)
    ensures h == FirstMatch(n, objs, Comment(Some(addr), p))
  {
    var comment := Comment(Some(addr), p);
    for i := 0 to |objs|
      invariant FirstMatch(n, objs, comment) == FirstMatch(n, objs[i..], comment)
    {
      assert objs[i..][0] == objs[i] && objs[i..][1..] == objs[i + 1..];
      if IsMatch(n, objs[i], comment) {
        return Some(objs[i].key.handle);
      }
    }
    return None;
  }

  /** The handle found is that of a matching rule; none is found only if there is none. */
  lemma {:induction false} FirstMatchSound(n: Names, objs: seq<ListObject>, comment: string)
    ensures FirstMatch(n, objs, comment).Some? <==> exists i :: 0 <= i < |objs| && IsMatch(n, objs[i], comment)
    ensures FirstMatch(n, objs, comment).Some? ==>
              exists i :: 0 <= i < |objs| && IsMatch(n, objs[i], comment)
                          && objs[i].key.handle == FirstMatch(n, objs, comment).value
  {
    if objs != [] {
      var t := objs[1..];
      FirstMatchSound(n, t, comment);
      assert forall i :: 0 <= i < |t| ==> t[i] == objs[i + 1];
      assert forall i :: 0 < i < |objs| ==> objs[i] == t[i - 1];
    }
  }

  lemma FoundMatches(n: Names, rules: Ruleset, objs: seq<ListObject>, addr: IpAddr, p: SinglePort)
    requires Lists(objs, rules)
    ensures var h := FirstMatch(n, objs, Comment(Some(addr), p));
            if h.Some? then Matches(n, rules, addr, p, RuleKey(n.family, n.table, h.value))
            else forall k <- rules :: !Matches(n, rules, addr, p, k)
  {
    var c := Comment(Some(addr), p);
    FirstMatchSound(n, objs, c);
    forall k <- rules | Matches(n, rules, addr, p, k) ensures FirstMatch(n, objs, c).Some? {
      var i :| 0 <= i < |objs| && objs[i] == RuleObject(k, rules[k]);
      assert IsMatch(n, objs[i], c);
    }
  }

  /** Handles found for the given ports, in order; ports without a rule are skipped. */
  function HandlesFor(n: Names, objs: seq<ListObject>, addr: IpAddr, ps: seq<SinglePort>): seq<nat> {
    if ps == [] then []
    else
      Found(FirstMatch(n, objs, Comment(Some(addr), ps[0]))) + HandlesFor(n, objs, addr, ps[1..])
  }

  function Found(h: Option<nat>): seq<nat> {
    if h.Some? then [h.value] else []
  }

  lemma HandlesForFew(n: Names, objs: seq<ListObject>, addr: IpAddr, p: SinglePort, q: SinglePort)
    ensures HandlesFor(n, objs, addr, [p]) == Found(FirstMatch(n, objs, Comment(Some(addr), p)))
    ensures HandlesFor(n, objs, addr, [p, q])
         == Found(FirstMatch(n, objs, Comment(Some(addr), p))) + Found(FirstMatch(n, objs, Comment(Some(addr), q)))
  {
    assert [p][1..] == [] && [p, q][1..] == [q] && [q][1..] == [];
    assert HandlesFor(n, objs, addr, []) == [];
    assert HandlesFor(n, objs, addr, [q]) == Found(FirstMatch(n, objs, Comment(Some(addr), q)));
  }

  /** Delete commands for one lease. */
  method GenDeleteLease(n: Names, objs: seq<ListObject>, lease: Lease) returns (hs: seq<nat>)
    ensures hs == HandlesFor(n, objs, lease.addr, lease.port.Singles())
  {
    var tcp, udp := SinglePort(Tcp, lease.port.number), SinglePort(Udp, lease.port.number);
    HandlesForFew(n, objs, lease.addr, tcp, udp);
    HandlesForFew(n, objs, lease.addr, udp, tcp);
    match lease.port
    case TcpPort(_) =>
      var h := FindHandle(n, objs, lease.addr, tcp);
      hs := Found(h);
    case UdpPort(_) =>
      var h := FindHandle(n, objs, lease.addr, udp);
      hs := Found(h);
    case TcpUdpPort(_) =>
      var h := FindHandle(n, objs, lease.addr, tcp);
      hs := Found(h);
      h := FindHandle(n, objs, lease.addr, udp);
      hs := hs + Found(h);
  }

  function AllHandles(n: Names, objs: seq<ListObject>, leases: seq<Lease>): seq<nat> {
    if leases == [] then []
    else AllHandles(n, objs, leases[..|leases| - 1])
         + HandlesFor(n, objs, leases[|leases| - 1].addr, leases[|leases| - 1].port.Singles())
  }

  /** Delete commands for several leases. */
  method GenDeletes(n: Names, objs: seq<ListObject>, leases: seq<Lease>) returns (hs: seq<nat>)
    ensures hs == AllHandles(n, objs, leases)
  {
    hs := [];
    for i := 0 to |leases|
      invariant hs == AllHandles(n, objs, leases[..i])
    {
      var more := GenDeleteLease(n, objs, leases[i]);
      assert leases[..i + 1][..i] == leases[..i];
      hs := hs + more;
    }
    assert leases[..|leases|] == leases;
  }

  /** `h` is the handle found for one of the rules of `id`. */
  ghost predicate FoundFor(n: Names, objs: seq<ListObject>, id: LeaseId, h: nat) {
    exists p <- id.port.Singles() :: FirstMatch(n, objs, Comment(Some(id.addr), p)) == Some(h)
  }

  lemma {:induction false} HandlesForMember(n: Names, objs: seq<ListObject>, addr: IpAddr, ps: seq<SinglePort>, h: nat)
    ensures h in HandlesFor(n, objs, addr, ps) <==>
              exists p <- ps :: FirstMatch(n, objs, Comment(Some(addr), p)) == Some(h)
  {
    if ps != [] {
      HandlesForMember(n, objs, addr, ps[1..], h);
      assert forall p :: p in ps <==> p == ps[0] || p in ps[1..];
    }
  }

  function IdOf(lease: Lease): LeaseId { LeaseId(lease.addr, lease.port) }

  ghost function IdsOf(leases: seq<Lease>): set<LeaseId> {
    set lease | lease in leases :: IdOf(lease)
  }

  lemma {:induction false} AllHandlesMember(n: Names, objs: seq<ListObject>, leases: seq<Lease>, h: nat)
    ensures h in AllHandles(n, objs, leases) <==>
              exists id <- IdsOf(leases) :: FoundFor(n, objs, id, h)
    decreases |leases|
  {
    if leases != [] {
      var m := |leases| - 1;
      var init, last := leases[..m], leases[m];
      var a, b := AllHandles(n, objs, init), HandlesFor(n, objs, last.addr, last.port.Singles());
      calc {
        h in AllHandles(n, objs, leases);
        h in a + b;
        h in a || h in b;
        { HandlesForMember(n, objs, last.addr, last.port.Singles(), h); }
        h in a || FoundFor(n, objs, IdOf(last), h);
        { AllHandlesMember(n, objs, init, h); }
        (exists id <- IdsOf(init) :: FoundFor(n, objs, id, h)) || FoundFor(n, objs, IdOf(last), h);
        { FoundInEither(n, objs, IdsOf(init), IdOf(last), h); }
        exists id <- IdsOf(init) + {IdOf(last)} :: FoundFor(n, objs, id, h);
        { IdsOfSnoc(init, last); assert leases == init + [last]; }
        exists id <- IdsOf(leases) :: FoundFor(n, objs, id, h);
      }
    }
  }

  lemma FoundInEither(n: Names, objs: seq<ListObject>, ids: set<LeaseId>, id: LeaseId, h: nat)
    ensures (exists i <- ids + {id} :: FoundFor(n, objs, i, h))
         <==> (exists i <- ids :: FoundFor(n, objs, i, h)) || FoundFor(n, objs, id, h)
  {
    if FoundFor(n, objs, id, h) {
      assert id in ids + {id};
    }
    if i :| i in ids && FoundFor(n, objs, i, h) {
      assert i in ids + {id};
    }
  }

  lemma IdsOfSnoc(init: seq<Lease>, last: Lease)
    ensures IdsOf(init + [last]) == IdsOf(init) + {IdOf(last)}
  {
    var all := init + [last];
    assert forall l :: l in all <==> l in init || l == last;
  }

  /** The keys of all handles found are one entry for each rule of these leases that is in the kernel. */
  lemma HandlesArePicked(n: Names, rules: Ruleset, objs: seq<ListObject>, leases: seq<Lease>)
    requires Lists(objs, rules)
    ensures Picked(n, rules, IdsOf(leases), KeysOf(n, AllHandles(n, objs, leases)))
  {
    var ids, hs := IdsOf(leases), AllHandles(n, objs, leases);
    var gone := KeysOf(n, hs);
    forall k <- gone ensures exists id <- ids, p <- id.port.Singles() :: Matches(n, rules, id.addr, p, k) {
      var id, p := PickedBecause(n, rules, objs, leases, k);
    }
    forall id <- ids, p <- id.port.Singles(), k <- rules | Matches(n, rules, id.addr, p, k)
      ensures exists l <- gone :: Matches(n, rules, id.addr, p, l)
    {
      FoundMatches(n, rules, objs, id.addr, p);
      var h := FirstMatch(n, objs, Comment(Some(id.addr), p)).value;
      assert FoundFor(n, objs, id, h);
      AllHandlesMember(n, objs, leases, h);
      assert RuleKey(n.family, n.table, h) in gone;
    }
    forall k <- gone, l <- gone | rules[k].comment == rules[l].comment ensures k == l {
      var id, p := PickedBecause(n, rules, objs, leases, k);
      var id', p' := PickedBecause(n, rules, objs, leases, l);
    }
  }

  lemma PickedBecause(n: Names, rules: Ruleset, objs: seq<ListObject>, leases: seq<Lease>, k: RuleKey)
    returns (id: LeaseId, p: SinglePort)
    requires Lists(objs, rules) && k in KeysOf(n, AllHandles(n, objs, leases))
    ensures id in IdsOf(leases) && p in id.port.Singles() && Matches(n, rules, id.addr, p, k)
    ensures FirstMatch(n, objs, Comment(Some(id.addr), p)) == Some(k.handle)
  {
    AllHandlesMember(n, objs, leases, k.handle);
    id :| id in IdsOf(leases) && FoundFor(n, objs, id, k.handle);
    p :| p in id.port.Singles() && FirstMatch(n, objs, Comment(Some(id.addr), p)) == Some(k.handle);
    FoundMatches(n, rules, objs, id.addr, p);
  }

  /** For one lease no handle is found twice, so the kernel has no reason to refuse the batch. */
  lemma OneLeaseDistinct(n: Names, rules: Ruleset, objs: seq<ListObject>, lease: Lease)
    requires Lists(objs, rules)
    ensures Distinct(HandlesFor(n, objs, lease.addr, lease.port.Singles()))
  {
    var t, u := SinglePort(Tcp, lease.port.number), SinglePort(Udp, lease.port.number);
    HandlesForFew(n, objs, lease.addr, t, u);
    HandlesForFew(n, objs, lease.addr, u, t);
    if lease.port.TcpUdpPort? {
      FoundMatches(n, rules, objs, lease.addr, t);
      FoundMatches(n, rules, objs, lease.addr, u);
      if Comment(Some(lease.addr), t) == Comment(Some(lease.addr), u) {
        CommentInjective(Some(lease.addr), t, Some(lease.addr), u);
      }
    }
  }

  // ---------- When the kernel accepts the batch ----------

  ghost predicate DistinctLeases(leases: seq<Lease>) {
    forall i, j :: 0 <= i < j < |leases| ==> IdOf(leases[i]) != IdOf(leases[j])
  }

  /** Both leases have a rule with the same comment, and the chain has an entry for it. */
  ghost predicate ShareEntry(n: Names, rules: Ruleset, a: LeaseId, b: LeaseId) {
    a.addr == b.addr && exists p <- a.port.Singles(), k <- rules ::
                          p in b.port.Singles() && Matches(n, rules, a.addr, p, k)
  }

  ghost predicate Separate(n: Names, rules: Ruleset, ids: set<LeaseId>) {
    forall a <- ids, b <- ids :: a != b ==> !ShareEntry(n, rules, a, b)
  }

  lemma SharersClash(n: Names, rules: Ruleset, a: LeaseId, b: LeaseId)
    requires ShareEntry(n, rules, a, b)
    ensures Clash(a, b)
  {
    var p, k :| p in a.port.Singles() && k in rules && p in b.port.Singles() && Matches(n, rules, a.addr, p, k);
    assert p.port == a.port.number == b.port.number;
  }

  lemma NoClashSeparate(n: Names, rules: Ruleset, ids: set<LeaseId>)
    requires NoClash(ids)
    ensures Separate(n, rules, ids)
  {
    forall a <- ids, b <- ids | a != b && ShareEntry(n, rules, a, b) ensures Clash(a, b) {
      SharersClash(n, rules, a, b);
    }
  }

  /** Two leases are given a common handle iff they share an entry. */
  lemma CommonHandleIff(n: Names, rules: Ruleset, objs: seq<ListObject>, a: LeaseId, b: LeaseId)
    requires Lists(objs, rules)
    ensures (exists h :: FoundFor(n, objs, a, h) && FoundFor(n, objs, b, h)) <==> ShareEntry(n, rules, a, b)
  {
    if h: nat :| FoundFor(n, objs, a, h) && FoundFor(n, objs, b, h) {
      var p :| p in a.port.Singles() && FirstMatch(n, objs, Comment(Some(a.addr), p)) == Some(h);
      var q :| q in b.port.Singles() && FirstMatch(n, objs, Comment(Some(b.addr), q)) == Some(h);
      FoundMatches(n, rules, objs, a.addr, p);
      FoundMatches(n, rules, objs, b.addr, q);
      CommentInjective(Some(a.addr), p, Some(b.addr), q);
    }
    if ShareEntry(n, rules, a, b) {
      var p, k :| p in a.port.Singles() && k in rules && p in b.port.Singles() && Matches(n, rules, a.addr, p, k);
      FoundMatches(n, rules, objs, a.addr, p);
      var h := FirstMatch(n, objs, Comment(Some(a.addr), p)).value;
      assert FoundFor(n, objs, a, h) && FoundFor(n, objs, b, h);
    }
  }

  lemma DistinctConcat(a: seq<nat>, b: seq<nat>)
    ensures Distinct(a + b) <==> Distinct(a) && Distinct(b) && forall h <- a :: h !in b
  {
    var c := a + b;
    assert forall i :: 0 <= i < |a| ==> c[i] == a[i];
    assert forall j :: 0 <= j < |b| ==> c[|a| + j] == b[j];
    if Distinct(c) {
      forall i, j | 0 <= i < |a| && 0 <= j < |b| ensures a[i] != b[j] {
        assert c[i] != c[|a| + j];
      }
      forall i, j | 0 <= i < j < |b| ensures b[i] != b[j] {
        assert c[|a| + i] != c[|a| + j];
      }
    }
    if Distinct(a) && Distinct(b) && forall h <- a :: h !in b {
      forall i, j | 0 <= i < j < |c| ensures c[i] != c[j] {
        if i < |a| <= j {
          assert c[i] in a && c[j] in b;
        }
      }
    }
  }

  /** Handles are named twice iff two of the leases share an entry of the chain. */
  lemma {:induction false} HandlesDistinctIff(n: Names, rules: Ruleset, objs: seq<ListObject>, leases: seq<Lease>)
    requires Lists(objs, rules) && DistinctLeases(leases)
    ensures Distinct(AllHandles(n, objs, leases)) <==> Separate(n, rules, IdsOf(leases))
    decreases |leases|
  {
    if leases != [] {
      var m := |leases| - 1;
      var init, last := leases[..m], leases[m];
      var a, b := AllHandles(n, objs, init), HandlesFor(n, objs, last.addr, last.port.Singles());
      assert init + [last] == leases;
      calc {
        Distinct(AllHandles(n, objs, leases));
        Distinct(a + b);
        { DistinctConcat(a, b); OneLeaseDistinct(n, rules, objs, last); }
        Distinct(a) && forall h <- a :: h !in b;
        { HandlesDistinctIff(n, rules, objs, init); LastDisjointIff(n, rules, objs, init, last); }
        Separate(n, rules, IdsOf(init)) && forall i <- IdsOf(init) :: !ShareEntry(n, rules, i, IdOf(last));
        { SeparateSnoc(n, rules, init, last); }
        Separate(n, rules, IdsOf(leases));
      }
    }
  }

  lemma LastDisjointIff(n: Names, rules: Ruleset, objs: seq<ListObject>, init: seq<Lease>, last: Lease)
    requires Lists(objs, rules)
    ensures (forall h <- AllHandles(n, objs, init) :: h !in HandlesFor(n, objs, last.addr, last.port.Singles()))
       <==> (forall i <- IdsOf(init) :: !ShareEntry(n, rules, i, IdOf(last)))
  {
    var a, b := AllHandles(n, objs, init), HandlesFor(n, objs, last.addr, last.port.Singles());
    forall h: nat ensures h in a <==> exists i <- IdsOf(init) :: FoundFor(n, objs, i, h) {
      AllHandlesMember(n, objs, init, h);
    }
    forall h: nat ensures h in b <==> FoundFor(n, objs, IdOf(last), h) {
      HandlesForMember(n, objs, last.addr, last.port.Singles(), h);
    }
    forall i <- IdsOf(init)
      ensures ShareEntry(n, rules, i, IdOf(last)) <==>
                exists h :: FoundFor(n, objs, i, h) && FoundFor(n, objs, IdOf(last), h)
    {
      CommonHandleIff(n, rules, objs, i, IdOf(last));
    }
  }

  lemma SeparateSnoc(n: Names, rules: Ruleset, init: seq<Lease>, last: Lease)
    requires DistinctLeases(init + [last])
    ensures Separate(n, rules, IdsOf(init + [last])) <==>
              Separate(n, rules, IdsOf(init)) && forall i <- IdsOf(init) :: !ShareEntry(n, rules, i, IdOf(last))
  {
    var all := init + [last];
    IdsOfSnoc(init, last);
    assert all[|init|] == last && forall i :: 0 <= i < |init| ==> all[i] == init[i];
    assert IdOf(last) !in IdsOf(init);
    assert forall i :: ShareEntry(n, rules, IdOf(last), i) <==> ShareEntry(n, rules, i, IdOf(last));
  }

  /** The batch that deletes the handles found: its effect, and when the kernel accepts it. */
  lemma DeleteBatch(n: Names, st: KernelState, objs: seq<ListObject>, leases: seq<Lease>)
    requires Lists(objs, st.rules)
    ensures var hs := AllHandles(n, objs, leases);
            var st' := Exec(n, st, Deletes(hs));
            && Picked(n, st.rules, IdsOf(leases), KeysOf(n, hs))
            && (st'.Some? ==> st'.value == st.(rules := st.rules - KeysOf(n, hs)))
            && (DistinctLeases(leases) ==> (st'.Some? <==> Separate(n, st.rules, IdsOf(leases))))
  {
    var hs := AllHandles(n, objs, leases);
    HandlesArePicked(n, st.rules, objs, leases);
    DeletesEffect(n, st, hs);
    assert KeysOf(n, hs) <= Chain(n, st.rules).Keys by {
      forall k <- KeysOf(n, hs) ensures k in Chain(n, st.rules) {
        var id, p := PickedBecause(n, st.rules, objs, leases, k);
      }
    }
    if DistinctLeases(leases) {
      HandlesDistinctIff(n, st.rules, objs, leases);
    }
  }
}
