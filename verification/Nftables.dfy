/** nftables rules, batches of commands, and the effect of a batch on the kernel's ruleset. */
module Nftables {
  import opened Wire
  import opened Text
  import opened Addr
  import opened Conf

  datatype Family = INet | IP | IP6

  datatype Names = Names(family: Family, table: string, chain: string)

  /** Family, table and chain from the configuration, or None where reading them is an error. */
  function NamesOf(conf: Config): Option<Names> {
    var family := if conf.nftFamily == "inet" then Some(INet)
                  else if conf.nftFamily == "ip" then Some(IP)
                  else if conf.nftFamily == "ip6" then Some(IP6)
                  else None;
    if family.None? || conf.nftTable == "" || conf.nftChainInput == "" then None
    else Some(Names(family.value, conf.nftTable, conf.nftChainInput))
  }

  // ---------- Ports and leases ----------

  datatype Proto = Tcp | Udp

  datatype SinglePort = SinglePort(proto: Proto, port: u16)

  datatype LeasePort = TcpPort(number: u16) | UdpPort(number: u16) | TcpUdpPort(number: u16) {
    /** The protocol/port pairs that this lease port stands for, in the order rules are generated. */
    function Singles(): seq<SinglePort> {
      match this
      case TcpPort(p) => [SinglePort(Tcp, p)]
      case UdpPort(p) => [SinglePort(Udp, p)]
      case TcpUdpPort(p) => [SinglePort(Tcp, p), SinglePort(Udp, p)]
    }
  }

  datatype LeaseId = LeaseId(addr: IpAddr, port: LeasePort)

  // ---------- Rules ----------

  /** What a rule does. Rules of other programs are opaque. */
  datatype Body =
    | Accept(saddr: Option<IpAddr>, dport: SinglePort)
    | Opaque(id: nat)

  datatype Rule = Rule(chain: string, body: Body, comment: Option<string>)

  function ProtoText(p: Proto): string {
    match p case Tcp => "TCP" case Udp => "UDP"
  }

  /** The comment that identifies a lease rule in the kernel. */
  function Comment(addr: Option<IpAddr>, port: SinglePort): string {
    (if addr.Some? then AddrText(addr.value) else "any") + ['/']
    + (Print(port.port, 10) + ['/'] + (ProtoText(port.proto) + "/accept/letmein/GENERATED"))
  }

  /** The comment of the rule that opens the default control port. */
  lemma ControlComment()
    ensures Comment(None, SinglePort(Tcp, 5800)) == "any/5800/TCP" + "/accept/letmein/GENERATED"
  {
    PrintExamples();
    Reassociate("any", "5800", "TCP", "/accept/letmein/GENERATED");
    assert "any" + ['/'] + "5800" + ['/'] + "TCP" == "any/5800/TCP";
  }

  lemma Reassociate(a: string, b: string, c: string, t: string)
    ensures a + ['/'] + (b + ['/'] + (c + t)) == (a + ['/'] + b + ['/'] + c) + t
  {
  }

  /** Address texts contain no '/' and are never the text "any". */
  lemma AddrTextPlain(a: IpAddr)
    ensures '/' !in AddrText(a) && AddrText(a) != "any"
  {
    if '/' in AddrText(a) {
      AddrTextChars(a, '/');
    }
    if AddrText(a) == "any" {
      assert AddrText(a)[1] == 'n';
      AddrTextChars(a, 'n');
    }
  }

  /** The comment determines address, protocol and port. */
  lemma CommentInjective(a: Option<IpAddr>, p: SinglePort, b: Option<IpAddr>, q: SinglePort)
    requires Comment(a, p) == Comment(b, q)
    ensures a == b && p == q
  {
    if a.Some? { AddrTextPlain(a.value); }
    if b.Some? { AddrTextPlain(b.value); }
    var x := if a.Some? then AddrText(a.value) else "any";
    var y := if b.Some? then AddrText(b.value) else "any";
    var t := "/accept/letmein/GENERATED";
    var x' := Print(p.port, 10) + ['/'] + (ProtoText(p.proto) + t);
    var y' := Print(q.port, 10) + ['/'] + (ProtoText(q.proto) + t);
    SplitUnique('/', x, x', y, y');
    if a.Some? && b.Some? {
      AddrTextInjective(a.value, b.value);
    }
    SplitUnique('/', Print(p.port, 10), ProtoText(p.proto) + t, Print(q.port, 10), ProtoText(q.proto) + t);
    PrintInjective(p.port, q.port, 10);
    assert (ProtoText(p.proto) + t)[0] == (ProtoText(q.proto) + t)[0];
  }

  /** Whether the table family can match on the address: `statement_match_saddr` fails otherwise. */
  predicate FamilyOk(family: Family, addr: IpAddr) {
    match Normal(addr)
    case V4(_) => family == INet || family == IP
    case V6(_) => family == INet || family == IP6
  }

  /**
   * The configured table can hold rules for the address: "inet" for every address, "ip" for IPv4 and
   * IPv4-mapped IPv6 addresses, "ip6" for all other IPv6 addresses.
   */
  ghost predicate CanServe(conf: Config, a: IpAddr) {
    var mapped := a.V6? && a.o6[..12] == [0, 0, 0, 0, 0, 0, 0, 0, 0, 0, 0xFF, 0xFF];
    match conf.nftFamily
    case "inet" => true
    case "ip" => a.V4? || mapped
    case "ip6" => a.V6? && !mapped
    case _ => false
  }

  /** The family check passes exactly for these addresses. */
  lemma FamilyIff(conf: Config, a: IpAddr)
    requires NamesOf(conf).Some?
    ensures FamilyOk(NamesOf(conf).value.family, a) <==> CanServe(conf, a)
  {
    assert "inet" != "ip" && "inet" != "ip6" && "ip" != "ip6";
  }

  /** The accept rule for a port, restricted to one source address if there is one. */
  function MkRule(n: Names, addr: Option<IpAddr>, port: SinglePort): Rule {
    var saddr := if addr.Some? then Some(Normal(addr.value)) else None;
    Rule(n.chain, Accept(saddr, port), Some(Comment(addr, port)))
  }

  lemma MkRuleInjective(n: Names, a: Option<IpAddr>, p: SinglePort, b: Option<IpAddr>, q: SinglePort)
    requires MkRule(n, a, p).comment == MkRule(n, b, q).comment
    ensures a == b && p == q
  {
    CommentInjective(a, p, b, q);
  }

  // ---------- The kernel's ruleset ----------

  /** Handles are unique within a table. */
  datatype RuleKey = RuleKey(family: Family, table: string, handle: nat)

  type Ruleset = map<RuleKey, Rule>

  predicate Ours(n: Names, k: RuleKey, r: Rule) {
    k.family == n.family && k.table == n.table && r.chain == n.chain
  }

  /** The rules of our input chain. */
  function Chain(n: Names, rules: Ruleset): Ruleset {
    map k | k in rules && Ours(n, k, rules[k]) :: rules[k]
  }

  /** Everything else in the kernel. */
  function Foreign(n: Names, rules: Ruleset): Ruleset {
    map k | k in rules && !Ours(n, k, rules[k]) :: rules[k]
  }

  datatype Cmd =
    | Flush
    | Add(rule: Rule)
    | Delete(handle: nat)

  /** Ruleset plus the counter from which the kernel takes the next handle. */
  datatype KernelState = KernelState(rules: Ruleset, next: nat) {
    ghost predicate Valid() {
      forall k <- rules :: k.handle < next
    }
  }

  /** One command on the chain `n`; None when the kernel refuses it. */
  function Exec1(n: Names, s: KernelState, c: Cmd): Option<KernelState> {
    match c
    case Flush => Some(s.(rules := Foreign(n, s.rules)))
    case Add(r) => Some(KernelState(s.rules[RuleKey(n.family, n.table, s.next) := r.(chain := n.chain)], s.next + 1))
    case Delete(h) =>
      var k := RuleKey(n.family, n.table, h);
      if k in s.rules && s.rules[k].chain == n.chain then Some(s.(rules := s.rules - {k})) else None
  }

  /** A batch is applied as a whole: one refused command refuses all of it. */
  function Exec(n: Names, s: KernelState, batch: seq<Cmd>): Option<KernelState>
    decreases |batch|
  {
    if batch == [] then Some(s)
    else
      match Exec1(n, s, batch[0])
      case None => None
      case Some(s') => Exec(n, s', batch[1..])
  }

  // ---------- Batches that only add ----------

  function Adds(rules: seq<Rule>): seq<Cmd> {
    if rules == [] then [] else [Add(rules[0])] + Adds(rules[1..])
  }

  /** The keys and rules that `Adds(rules)` puts into the kernel. */
  function Added(n: Names, first: nat, rules: seq<Rule>): (m: Ruleset)
    ensures forall k :: k in m <==> k.family == n.family && k.table == n.table && first <= k.handle < first + |rules|
    ensures forall k <- m :: m[k] == rules[k.handle - first].(chain := n.chain)
    decreases |rules|
  {
    if rules == [] then map[]
    else Added(n, first + 1, rules[1..])[RuleKey(n.family, n.table, first) := rules[0].(chain := n.chain)]
  }

  /** A batch of adds always executes; the new rules sit under new handles, all else stays. */
  lemma {:induction false} AddsEffect(n: Names, s: KernelState, rules: seq<Rule>)
    ensures Exec(n, s, Adds(rules)) == Some(KernelState(s.rules + Added(n, s.next, rules), s.next + |rules|))
    decreases |rules|
  {
    if rules == [] {
      assert s.rules + Added(n, s.next, rules) == s.rules;
    } else {
      var s' := KernelState(s.rules[RuleKey(n.family, n.table, s.next) := rules[0].(chain := n.chain)], s.next + 1);
      calc {
        Exec(n, s, Adds(rules));
        { ExecAdd(n, s, rules, s'); }
        Exec(n, s', Adds(rules[1..]));
        { AddsEffect(n, s', rules[1..]); }
        Some(KernelState(s'.rules + Added(n, s'.next, rules[1..]), s.next + |rules|));
        { AddedStep(n, s.rules, s.next, rules); }
        Some(KernelState(s.rules + Added(n, s.next, rules), s.next + |rules|));
      }
    }
  }

  lemma ExecAdd(n: Names, s: KernelState, rules: seq<Rule>, s': KernelState)
    requires rules != [] && Exec1(n, s, Add(rules[0])) == Some(s')
    ensures Exec(n, s, Adds(rules)) == Exec(n, s', Adds(rules[1..]))
  {
    assert Adds(rules)[1..] == Adds(rules[1..]);
  }

  lemma {:induction false} AddedStep(n: Names, m: Ruleset, first: nat, rules: seq<Rule>)
    requires rules != []
    ensures m + Added(n, first, rules)
         == m[RuleKey(n.family, n.table, first) := rules[0].(chain := n.chain)] + Added(n, first + 1, rules[1..])
  {
  }

  // ---------- Batches that only delete ----------

  function Deletes(handles: seq<nat>): (b: seq<Cmd>)
    ensures |b| == |handles| && forall i :: 0 <= i < |b| ==> b[i] == Delete(handles[i])
  {
    seq(|handles|, i requires 0 <= i < |handles| => Delete(handles[i]))
  }

  ghost function KeysOf(n: Names, handles: seq<nat>): set<RuleKey> {
    set h | h in handles :: RuleKey(n.family, n.table, h)
  }

  ghost predicate Distinct(handles: seq<nat>) {
    forall i, j :: 0 <= i < j < |handles| ==> handles[i] != handles[j]
  }

  /** A batch of deletes executes iff it names existing rules of the chain, none twice. */
  lemma {:induction false} DeletesEffect(n: Names, s: KernelState, hs: seq<nat>)
    ensures Exec(n, s, Deletes(hs)).Some? <==> KeysOf(n, hs) <= Chain(n, s.rules).Keys && Distinct(hs)
    ensures Exec(n, s, Deletes(hs)).Some? ==>
              Exec(n, s, Deletes(hs)).value == s.(rules := s.rules - KeysOf(n, hs))
    decreases |hs|
  {
    if hs == [] {
      assert s.rules - KeysOf(n, hs) == s.rules;
    } else {
      var k := RuleKey(n.family, n.table, hs[0]);
      assert Deletes(hs)[1..] == Deletes(hs[1..]);
      assert KeysOf(n, hs) == {k} + KeysOf(n, hs[1..]);
      if k in Chain(n, s.rules) {
        var s' := s.(rules := s.rules - {k});
        DeletesEffect(n, s', hs[1..]);
        assert Chain(n, s'.rules).Keys == Chain(n, s.rules).Keys - {k};
        assert k in KeysOf(n, hs[1..]) <==> hs[0] in hs[1..];
        DistinctCons(hs);
        assert s'.rules - KeysOf(n, hs[1..]) == s.rules - KeysOf(n, hs);
      }
    }
  }

  lemma DistinctCons(hs: seq<nat>)
    requires hs != []
    ensures Distinct(hs) <==> hs[0] !in hs[1..] && Distinct(hs[1..])
  {
    var t := hs[1..];
    assert forall j :: 0 < j < |hs| ==> hs[j] == t[j - 1];
    if hs[0] !in t && Distinct(t) {
      forall i, j | 0 <= i < j < |hs| ensures hs[i] != hs[j] {
        assert hs[j] == t[j - 1] && (i > 0 ==> hs[i] == t[i - 1]);
      }
    }
    if Distinct(hs) {
      forall i, j | 0 <= i < j < |t| ensures t[i] != t[j] {
        assert t[i] == hs[i + 1] && t[j] == hs[j + 1];
      }
    }
  }
}
