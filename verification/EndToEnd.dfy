/** Client, server and firewall daemon together. */
module EndToEnd {
  import opened Wire
  import opened Addr
  import opened Conf
  import opened Messages
  import opened FirewallMessages
  import opened Nftables
  import opened Firewall
  import opened NftFirewalls
  import opened Sessions
  import opened Server
  import opened FirewallServer
  import opened Client
  import opened ProtocolRun
  import FS = FirewallService
  import FR = FirewallRuns

  /** Client and server share the key, and the server's configuration allows what the client asks for. */
  ghost predicate Entitled(conf: Config, k: Knocker) {
    && TablesOk(conf)
    && k.user in conf.keys && conf.keys[k.user] == k.key
    && k.resource in conf.resources
    && (conf.resources[k.resource].users == [] || k.user in conf.resources[k.resource].users)
    && conf.resources[k.resource].port != conf.port.port
  }

  function LeaseFor(conf: Config, peer: IpAddr, r: Resource): LeaseId {
    LeaseId(peer, LeasePortOf(PortTypeFor(r), r.port))
  }

  // ---------- Client and server ----------

  /** Message number `i` after it went through its wire format; None if there is none. */
  function Over(ms: seq<Message>, i: nat): Option<Message> {
    if i < |ms| then Parse(Bytes(ms[i])) else None
  }

  /** The messages that a session sent. */
  function Said(log: seq<Ev>): seq<Message> {
    if log == [] then []
    else Said(log[..|log| - 1]) + if log[|log| - 1].Sent? then [log[|log| - 1].msg] else []
  }

  /** Each side receives what the other sent, as bytes on the wire, and nothing is lost. */
  ghost predicate Connected(env: Env, log: seq<Ev>, c: ClientEnv, sent: seq<Message>) {
    && env.tx1 && env.tx2 && env.up && c.tx1 && c.tx2
    && env.rx1 == Over(sent, 0) && env.rx2 == Over(sent, 1)
    && c.rx1 == Over(Said(log), 0) && c.rx2 == Over(Said(log), 1)
  }

  /** The same without the wire formats. */
  ghost predicate Wired(env: Env, said: seq<Message>, c: ClientEnv, sent: seq<Message>) {
    && env.tx1 && env.tx2 && env.up && c.tx1 && c.tx2
    && env.rx1 == At(sent, 0) && env.rx2 == At(sent, 1) && c.rx1 == At(said, 0) && c.rx2 == At(said, 1)
  }

  function At(ms: seq<Message>, i: nat): Option<Message> {
    if i < |ms| then Some(ms[i]) else None
  }

  lemma OverIsAt(ms: seq<Message>, i: nat)
    ensures Over(ms, i) == At(ms, i)
  {
    if i < |ms| {
      ParseBytes(ms[i]);
    }
  }

  /** The wire formats lose nothing. */
  lemma ConnectedIff(env: Env, log: seq<Ev>, c: ClientEnv, sent: seq<Message>)
    ensures Connected(env, log, c, sent) <==> Wired(env, Said(log), c, sent)
  {
    OverIsAt(sent, 0);
    OverIsAt(sent, 1);
    OverIsAt(Said(log), 0);
    OverIsAt(Said(log), 1);
  }

  lemma SaidSnoc(log: seq<Ev>, e: Ev)
    ensures Said(log + [e]) == Said(log) + if e.Sent? then [e.msg] else []
  {
    assert (log + [e])[..|log|] == log;
  }

  lemma {:induction false} SaidPrefix(log: seq<Ev>, more: seq<Ev>)
    requires log <= more
    ensures Said(log) <= Said(more)
    decreases |more|
  {
    if |log| < |more| {
      SaidPrefix(log, more[..|more| - 1]);
    } else {
      assert log == more;
    }
  }

  lemma {:induction false} StageLogs(conf: Config, mac: Mac, env: Env, i: nat, j: nat)
    requires i <= j <= 6
    ensures Stage(conf, mac, env, i).log <= Stage(conf, mac, env, j).log
    decreases j
  {
    if i < j {
      StageLogs(conf, mac, env, i, j - 1);
      StageInv(conf, mac, env, j - 1);
      DeliverGrows(conf, mac, Stage(conf, mac, env, j - 1), Inputs(env)[j - 1]);
    }
  }

  /** The server answers an entitled initial message with a challenge. */
  lemma ServerChallenges(conf: Config, mac: Mac, env: Env, k: Knocker, op: Operation, salt: Salt)
    requires Entitled(conf, k) && (op == Knock || op == Operation.Close)
    requires env.rx1 == Some(InitialMsg(mac, k, op, salt)) && env.tx1
    ensures var m := InitialMsg(mac, k, op, salt);
            Stage(conf, mac, env, 2) == Challenged(env, m)
  {
    var m := InitialMsg(mac, k, op, salt);
    var s := Stage(conf, mac, env, 0);
    assert Stage(conf, mac, env, 1) == Deliver(conf, mac, s, Rx(Some(m)));
    assert s.log + [Got(m)] == [Got(m)];
    assert [Got(m)] + [Sent(ChallengeMsg(s, m))] == [Got(m), Sent(ChallengeMsg(s, m))];
    StageTwo(conf, mac, env);
  }

  /** The session after it challenged an accepted initial message. */
  function Challenged(env: Env, m: Message): Session {
    Session(env.peer, env.nonce, env.salt, env.endSalt, AwaitResponse, Some(m.user), Some(m.resource), BasicAuth,
            [Got(m), Sent(ChallengeMsg(Fresh(env), m))])
  }

  /** The session after it asked the firewall. */
  function AskedFw(conf: Config, env: Env, m: Message, response: Message): Session
    requires m.resource in conf.resources
  {
    Challenged(env, m).(phase := AwaitFirewall, auth := ChallengeResponseAuth,
                        log := Challenged(env, m).log + [Got(response), RequestFor(conf, env.peer, m)])
  }

  /** The server passes the response and asks the firewall for the lease. */
  lemma ServerAsks(conf: Config, mac: Mac, env: Env, k: Knocker, m: Message, salt: Salt)
    requires Entitled(conf, k) && m.user == k.user && m.resource == k.resource
    requires Stage(conf, mac, env, 2) == Challenged(env, m) && env.up
    requires env.rx2 == Some(ResponseMsg(mac, k, ChallengeMsg(Fresh(env), m), salt))
    ensures Stage(conf, mac, env, 4) == AskedFw(conf, env, m, env.rx2.value)
  {
    var s2, s3 := Stage(conf, mac, env, 2), Stage(conf, mac, env, 3);
    assert Inputs(env)[2] == Rx(env.rx2) && Inputs(env)[3] == Up(true);
    assert s3 == Deliver(conf, mac, s2, Rx(env.rx2));
    assert s3.log == s2.log + [Got(env.rx2.value)] && s3.log[0] == Got(m);
    assert s2.log + [Got(env.rx2.value)] + [RequestFor(conf, env.peer, m)]
        == s2.log + [Got(env.rx2.value), RequestFor(conf, env.peer, m)];
  }

  /** The client answers the challenge that it received. */
  lemma ClientAnswers(mac: Mac, k: Knocker, op: Operation, salt1: Salt, salt2: Salt, c: ClientEnv, sent: seq<Message>,
      ok: bool, challenge: Message)
    requires Plays(mac, k, op, salt1, salt2, c, sent, ok)
    requires c.tx1 && c.rx1 == Some(challenge) && challenge.operation == Challenge
    ensures sent == [InitialMsg(mac, k, op, salt1), ResponseMsg(mac, k, challenge, salt2)]
    ensures ok <==> c.tx2 && c.rx2.Some? && c.rx2.value.operation == ComeIn
  {
  }

  /** What the server said after the challenge begins with the challenge. */
  lemma ChallengeFirst(conf: Config, mac: Mac, env: Env, m: Message)
    requires Stage(conf, mac, env, 2) == Challenged(env, m)
    ensures At(Said(Stage(conf, mac, env, 6).log), 0) == Some(ChallengeMsg(Fresh(env), m))
  {
    var challenge := ChallengeMsg(Fresh(env), m);
    StageLogs(conf, mac, env, 2, 6);
    SaidPrefix(Challenged(env, m).log, Stage(conf, mac, env, 6).log);
    SaidTwo(m, challenge);
  }

  lemma SaidTwo(m: Message, challenge: Message)
    ensures Said([Got(m), Sent(challenge)]) == [challenge]
  {
    SaidSnoc([Got(m)], Sent(challenge));
    SaidSnoc([], Got(m));
    assert [Got(m)] + [Sent(challenge)] == [Got(m), Sent(challenge)] && [] + [Got(m)] == [Got(m)];
  }

  /**
   * Handshake: connected to an entitled client, the server always gets as far as asking the firewall
   * for the client's resource and address, and the client has then sent both its messages.
   */
  lemma Handshake(conf: Config, mac: Mac, k: Knocker, op: Operation, salt1: Salt, salt2: Salt, env: Env, c: ClientEnv,
      sent: seq<Message>, ok: bool)
    requires Entitled(conf, k) && (op == Knock || op == Operation.Close)
    requires Plays(mac, k, op, salt1, salt2, c, sent, ok)
    requires Connected(env, Stage(conf, mac, env, 6).log, c, sent)
    ensures |sent| == 2 && sent[0] == InitialMsg(mac, k, op, salt1)
    ensures sent[1] == ResponseMsg(mac, k, ChallengeMsg(Fresh(env), sent[0]), salt2)
    ensures Stage(conf, mac, env, 4) == AskedFw(conf, env, sent[0], sent[1])
  {
    ConnectedIff(env, Stage(conf, mac, env, 6).log, c, sent);
    ServerChallenges(conf, mac, env, k, op, salt1);
    ChallengeFirst(conf, mac, env, sent[0]);
    ClientAnswers(mac, k, op, salt1, salt2, c, sent, ok, ChallengeMsg(Fresh(env), sent[0]));
    ServerAsks(conf, mac, env, k, sent[0], salt2);
  }

  /** The last message of a session: ComeIn after an Ack, GoAway otherwise. */
  function LastMsg(env: Env, m: Message, ack: bool): Message {
    NewMessage(if ack then ComeIn else GoAway, m.user, m.resource, env.endSalt)
  }

  lemma ServerEnds(conf: Config, mac: Mac, env: Env, m: Message, response: Message)
    requires m.resource in conf.resources && Stage(conf, mac, env, 4) == AskedFw(conf, env, m, response) && env.tx2
    ensures var ack := ReplyOk(env.reply);
            Stage(conf, mac, env, 6) == AskedFw(conf, env, m, response).(
              phase := Finished(ack),
              log := AskedFw(conf, env, m, response).log + [Answered(ack), Sent(LastMsg(env, m, ack))])
  {
    var ack := ReplyOk(env.reply);
    var s4, s5 := Stage(conf, mac, env, 4), Stage(conf, mac, env, 5);
    assert Inputs(env)[4] == Fw(ack) && s5 == Deliver(conf, mac, s4, Fw(ack));
    var last := Sent(LastMsg(env, m, ack));
    assert s4.log + [Answered(ack)] + [last] == s4.log + [Answered(ack), last];
    if ack {
      StageSix(conf, mac, env);
    } else {
      StageFinished(conf, mac, env, 5);
    }
  }

  /** Everything that happens in a session with an entitled client. */
  function FullLog(conf: Config, env: Env, sent: seq<Message>): seq<Ev>
    requires |sent| == 2 && sent[0].resource in conf.resources
  {
    var ack := ReplyOk(env.reply);
    [Got(sent[0]), Sent(ChallengeMsg(Fresh(env), sent[0])), Got(sent[1]), RequestFor(conf, env.peer, sent[0]),
     Answered(ack), Sent(LastMsg(env, sent[0], ack))]
  }

  /**
   * Completeness: whenever an entitled client and a server are connected, the server asks the firewall
   * for the client's resource, the session ends with success, and the client gets its ComeIn, if and
   * only if the firewall answers with Ack. Every message passes through its wire format.
   */
  lemma Completeness(conf: Config, mac: Mac, k: Knocker, op: Operation, salt1: Salt, salt2: Salt, env: Env,
      c: ClientEnv, sent: seq<Message>, ok: bool)
    requires Entitled(conf, k) && (op == Knock || op == Operation.Close)
    requires Plays(mac, k, op, salt1, salt2, c, sent, ok)
    requires Connected(env, Feed(conf, mac, Fresh(env), Inputs(env)).log, c, sent)
    ensures |sent| == 2 && sent[0] == InitialMsg(mac, k, op, salt1)
    ensures sent[1] == ResponseMsg(mac, k, ChallengeMsg(Fresh(env), sent[0]), salt2)
    ensures Feed(conf, mac, Fresh(env), Inputs(env)).phase
         == Finished(env.reply.Some? && env.reply.value.operation == FwAck)
    ensures Feed(conf, mac, Fresh(env), Inputs(env)).log == FullLog(conf, env, sent)
    ensures ok <==> env.reply.Some? && env.reply.value.operation == FwAck
  {
    FeedFrom(conf, mac, env, 0);
    assert Inputs(env)[0..] == Inputs(env);
    Handshake(conf, mac, k, op, salt1, salt2, env, c, sent, ok);
    ServerEnds(conf, mac, env, sent[0], sent[1]);
    LogIsFull(conf, env, sent, Stage(conf, mac, env, 6).log);
    ConnectedIff(env, FullLog(conf, env, sent), c, sent);
    ClientEnds(mac, k, op, salt1, salt2, conf, env, c, sent, ok);
  }

  lemma LogIsFull(conf: Config, env: Env, sent: seq<Message>, log: seq<Ev>)
    requires |sent| == 2 && sent[0].resource in conf.resources
    requires log == AskedFw(conf, env, sent[0], sent[1]).log
                    + [Answered(ReplyOk(env.reply)), Sent(LastMsg(env, sent[0], ReplyOk(env.reply)))]
    ensures log == FullLog(conf, env, sent)
  {
  }

  lemma ClientEnds(mac: Mac, k: Knocker, op: Operation, salt1: Salt, salt2: Salt, conf: Config, env: Env,
      c: ClientEnv, sent: seq<Message>, ok: bool)
    requires Plays(mac, k, op, salt1, salt2, c, sent, ok)
    requires |sent| == 2 && sent[0].resource in conf.resources && Wired(env, Said(FullLog(conf, env, sent)), c, sent)
    ensures ok <==> ReplyOk(env.reply)
  {
    SaidFull(conf, env, sent);
    ClientAnswers(mac, k, op, salt1, salt2, c, sent, ok, ChallengeMsg(Fresh(env), sent[0]));
  }

  lemma SaidFull(conf: Config, env: Env, sent: seq<Message>)
    requires |sent| == 2 && sent[0].resource in conf.resources
    ensures Said(FullLog(conf, env, sent))
         == [ChallengeMsg(Fresh(env), sent[0]), LastMsg(env, sent[0], ReplyOk(env.reply))]
  {
    var log := FullLog(conf, env, sent);
    assert log[..6] == log && Said(log[..0]) == [];
    for i := 0 to 6
      invariant Said(log[..i]) == (if i >= 2 then [log[1].msg] else []) + if i >= 6 then [log[5].msg] else []
    {
      SaidSnoc(log[..i], log[i]);
      assert log[..i] + [log[i]] == log[..i + 1];
    }
  }

  // ---------- The firewall ----------

  /** All packets from the host to the resource are accepted. */
  ghost predicate AcceptsFrom(n: Names, s: State, host: IpAddr, r: Resource) {
    forall src, proto :: SameHost(host, src) && (if proto == Tcp then r.tcp else r.udp) ==>
      FR.Accepts(n, s.rules, FR.Packet(src, SinglePort(proto, r.port)))
  }

  /** With a lease for the resource, packets from its address to the resource are accepted. */
  lemma LeaseAccepts(conf: Config, n: Names, ty: Typing, s: State, dirty: set<LeaseId>, peer: IpAddr, r: Resource)
    requires Inv(conf, n, ty, s, dirty) && (r.tcp || r.udp) && LeaseFor(conf, peer, r) in s.leases
    ensures AcceptsFrom(n, s, peer, r)
  {
    forall src, proto: Proto | SameHost(peer, src) && if proto == Tcp then r.tcp else r.udp
      ensures FR.Accepts(n, s.rules, FR.Packet(src, SinglePort(proto, r.port)))
    {
      var p := FR.Packet(src, SinglePort(proto, r.port));
      LeaseCoversResource(r, proto);
      assert FR.Covers(LeaseFor(conf, peer, r), p);
      FR.PacketMeaning(conf, n, ty, s, dirty, p);
    }
  }

  /** Without a lease, and without a failed removal of one, the chain has no rule of it. */
  lemma NoLeaseNoRule(conf: Config, n: Names, ty: Typing, s: State, dirty: set<LeaseId>, id: LeaseId)
    requires Inv(conf, n, ty, s, dirty) && Typed(ty, id) && id !in s.leases && id !in dirty
    ensures forall k <- Chain(n, s.rules) :: s.rules[k] !in LeaseRules(n, id)
  {
    forall k <- Chain(n, s.rules) | s.rules[k] in LeaseRules(n, id) ensures false {
      if s.rules[k] in CtrlRules(conf, n) {
        NotControl(conf, n, id, s.rules[k], s.rules[k]);
      } else {
        var i :| i in s.leases.Keys + dirty && s.rules[k] in LeaseRules(n, i);
        Owner(n, ty, i, id, s.rules[k], s.rules[k]);
      }
    }
  }

  /** The frame that the server sends to the firewall daemon on behalf of `peer`. */
  function RequestFrame(op: Operation, peer: IpAddr, r: Resource): seq<byte> {
    FwBytes(Request(RequestOp(op), peer, PortTypeFor(r), r.port))
  }

  /** The firewall decodes the frame as an acceptable request and makes the step that it stands for, with success. */
  ghost predicate FrameServed(conf: Config, n: Names, s: State, frame: seq<byte>, now: int, e: Event, s': State) {
    && FwParse(frame).Some? && Acceptable(conf, FwParse(frame).value)
    && Served(conf, n, s, FwParse(frame).value, now, true, e, s')
  }

  /**
   * One request over the Unix socket, and its reply, with a kernel that works: a permitted request is
   * acknowledged, and has the effect of a successful open, or of a close that leaves nothing behind.
   */
  method AskFirewall(fw: NftFirewall, op: Operation, peer: IpAddr, r: Resource, now: int)
    returns (reply: Option<FwMessage>, ghost event: Event)
    requires fw.Valid() && !fw.shutdown && !fw.kernel.faulty
    requires AddrOk(peer) && CanServe(fw.conf, peer) && r.port != fw.conf.port.port
    requires exists id <- fw.conf.resources :: fw.conf.resources[id].port == r.port
    requires op == Knock || op == Operation.Close
    modifies fw.kernel`st, fw`leases
    ensures fw.Valid() && ReplyOk(reply) && reply == FwParse(FwBytes(Reply(FwAck)))
    ensures FrameServed(fw.conf, fw.N(), old(fw.St()), RequestFrame(op, peer, r), now, event, fw.St())
    ensures EventFor(fw.conf, op, peer, r, now, event)
  {
    var fwOp, portType := RequestOp(op), PortTypeFor(r);
    RequestArrives(fwOp, peer, portType, r.port);
    ghost var ev;
    var done, answer;
    done, answer, ev := HandleMessage(fw, Some(RequestFrame(op, peer, r)), now);
    FwParseBytes(Request(fwOp, peer, portType, r.port));
    RequestFields(fwOp, peer, portType, r.port);
    FwParseBytes(answer.value);
    reply, event := FwParse(FwBytes(answer.value)), ev.value;
  }

  /** The call on the lease manager that a Knock or Close of a session leads to. */
  ghost predicate EventFor(conf: Config, op: Operation, peer: IpAddr, r: Resource, now: int, e: Event) {
    var id := LeaseFor(conf, peer, r);
    if op == Knock then e == Open(id, now, true) else e.Close? && e.id == id && e.ok && e.clean
  }

  /** What the firewall has for a resource after a successful Knock or Close from `peer`. */
  ghost predicate Granted(conf: Config, n: Names, s: State, dirty: set<LeaseId>, op: Operation, peer: IpAddr,
      r: Resource, now: int) {
    var id := LeaseFor(conf, peer, r);
    if op == Knock then
      && id in s.leases && s.leases[id].timeout == now + conf.nftTimeout
      && AcceptsFrom(n, s, peer, r)
    else
      id !in s.leases && (id !in dirty ==> forall k <- Chain(n, s.rules) :: s.rules[k] !in LeaseRules(n, id))
  }

  lemma GrantedAfter(conf: Config, n: Names, s: State, dirty: set<LeaseId>, op: Operation, peer: IpAddr,
      id: ResourceId, now: int, e: Event, s': State)
    requires TablesOk(conf) && id in conf.resources && Inv(conf, n, TypingOf(conf), s, dirty)
    requires Step(conf, n, s, e, s')
    requires EventFor(conf, op, peer, conf.resources[id], now, e)
    ensures Inv(conf, n, TypingOf(conf), s', dirty) && Granted(conf, n, s', dirty, op, peer, conf.resources[id], now)
  {
    var r := conf.resources[id];
    TypingDetermined(conf, id);
    StepKeeps(conf, n, TypingOf(conf), s, dirty, e, s');
    if op == Knock {
      LeaseAccepts(conf, n, TypingOf(conf), s', dirty, peer, r);
    } else if LeaseFor(conf, peer, r) !in dirty {
      NoLeaseNoRule(conf, n, TypingOf(conf), s', dirty, LeaseFor(conf, peer, r));
    }
  }

  // ---------- All parts together ----------

  /**
   * An entitled client with a usable address, the server and a firewall with a working kernel, each
   * executing its own program on what the others sent through the wire formats: the client always
   * gets its ComeIn, and then the lease is there and its packets are accepted, also when it was only
   * refreshed (Knock), or the lease and its rules are gone (Close).
   */
  method HonestExchange(fw: NftFirewall, server: Protocol, k: Knocker, op: Operation, salt1: Salt, salt2: Salt,
      peer: IpAddr, nonce: Auth, salt: Salt, endSalt: Salt, now: int, ghost dirty: set<LeaseId>)
    returns (ok: bool, sent: seq<Message>, env: Env, c: ClientEnv, ghost event: Event)
    requires fw.Valid() && !fw.shutdown && !fw.kernel.faulty && server.conf == fw.conf
    requires Inv(fw.conf, fw.N(), TypingOf(fw.conf), fw.St(), dirty)
    requires Entitled(fw.conf, k) && (op == Knock || op == Operation.Close)
    requires AddrOk(peer) && CanServe(fw.conf, peer)
    modifies fw.kernel`st, fw`leases, server
    ensures env.peer == peer && env.nonce == nonce && env.salt == salt && env.endSalt == endSalt
    ensures Plays(server.mac, k, op, salt1, salt2, c, sent, ok) && Connected(env, server.log, c, sent)
    ensures server.View(env, Finished(true)) == Feed(fw.conf, server.mac, Fresh(env), Inputs(env))
    ensures |sent| == 2 && server.log == FullLog(fw.conf, env, sent)
    ensures env.reply == FwParse(FwBytes(Reply(FwAck)))
    ensures FrameServed(fw.conf, fw.N(), old(fw.St()), RequestFrame(op, peer, fw.conf.resources[k.resource]), now,
                        event, fw.St())
    ensures EventFor(fw.conf, op, peer, fw.conf.resources[k.resource], now, event)
    ensures ok && fw.Valid() && Inv(fw.conf, fw.N(), TypingOf(fw.conf), fw.St(), dirty)
    ensures Granted(fw.conf, fw.N(), fw.St(), dirty, op, peer, fw.conf.resources[k.resource], now)
  {
    var reply;
    reply, event := Grant(fw, k, op, peer, now, dirty);
    ghost var after := fw.St();
    ok, sent, env, c := Converse(server, k, op, salt1, salt2, peer, nonce, salt, endSalt, reply);
    assert fw.St() == after;
  }

  /** The request that belongs to an entitled initial message, served by the firewall. */
  method Grant(fw: NftFirewall, k: Knocker, op: Operation, peer: IpAddr, now: int, ghost dirty: set<LeaseId>)
    returns (reply: Option<FwMessage>, ghost event: Event)
    requires fw.Valid() && !fw.shutdown && !fw.kernel.faulty
    requires Inv(fw.conf, fw.N(), TypingOf(fw.conf), fw.St(), dirty)
    requires Entitled(fw.conf, k) && (op == Knock || op == Operation.Close)
    requires AddrOk(peer) && CanServe(fw.conf, peer)
    modifies fw.kernel`st, fw`leases
    ensures fw.Valid() && ReplyOk(reply) && reply == FwParse(FwBytes(Reply(FwAck)))
    ensures FrameServed(fw.conf, fw.N(), old(fw.St()), RequestFrame(op, peer, fw.conf.resources[k.resource]), now,
                        event, fw.St())
    ensures Inv(fw.conf, fw.N(), TypingOf(fw.conf), fw.St(), dirty)
    ensures EventFor(fw.conf, op, peer, fw.conf.resources[k.resource], now, event)
    ensures Granted(fw.conf, fw.N(), fw.St(), dirty, op, peer, fw.conf.resources[k.resource], now)
  {
    ghost var before := fw.St();
    var r := fw.conf.resources[k.resource];
    reply, event := AskFirewall(fw, op, peer, r, now);
    GrantedAfter(fw.conf, fw.N(), before, dirty, op, peer, k.resource, now, event, fw.St());
  }

  /** Client and server execute their programs on each other's messages, and the firewall answered with Ack. */
  method Converse(server: Protocol, k: Knocker, op: Operation, salt1: Salt, salt2: Salt, peer: IpAddr, nonce: Auth,
      salt: Salt, endSalt: Salt, reply: Option<FwMessage>)
    returns (ok: bool, sent: seq<Message>, env: Env, c: ClientEnv)
    requires Entitled(server.conf, k) && (op == Knock || op == Operation.Close) && ReplyOk(reply)
    modifies server
    ensures ok && Plays(server.mac, k, op, salt1, salt2, c, sent, ok) && Connected(env, server.log, c, sent)
    ensures env.peer == peer && env.nonce == nonce && env.salt == salt && env.endSalt == endSalt && env.reply == reply
    ensures server.View(env, Finished(true)) == Feed(server.conf, server.mac, Fresh(env), Inputs(env))
    ensures |sent| == 2 && sent[0] == InitialMsg(server.mac, k, op, salt1)
    ensures server.log == FullLog(server.conf, env, sent)
  {
    var mac, conf := server.mac, server.conf;
    var initial := InitialMsg(mac, k, op, salt1);
    var challenge := Message(Challenge, k.user, k.resource, salt, nonce);
    var response := ResponseMsg(mac, k, challenge, salt2);
    var last := NewMessage(ComeIn, k.user, k.resource, endSalt);
    env := Env(peer, nonce, salt, endSalt, Over([initial, response], 0), true, Over([initial, response], 1), true,
               reply, true);
    c := ClientEnv(true, Over([challenge, last], 0), true, Over([challenge, last], 1));
    MessagesFit(conf, mac, k, op, salt1, salt2, env, c, challenge, last);
    ok, sent := Sequence(mac, k, op, salt1, salt2, c);
    OverIsAt([challenge, last], 0);
    ClientAnswers(mac, k, op, salt1, salt2, c, sent, ok, challenge);
    var served := server.Run(env);
    Completeness(conf, mac, k, op, salt1, salt2, env, c, sent, ok);
  }

  /** The messages that client and server exchange fit together. */
  lemma MessagesFit(conf: Config, mac: Mac, k: Knocker, op: Operation, salt1: Salt, salt2: Salt, env: Env,
      c: ClientEnv, challenge: Message, last: Message)
    requires Entitled(conf, k) && (op == Knock || op == Operation.Close)
    requires env.tx1 && env.tx2 && env.up && c.tx1 && c.tx2 && ReplyOk(env.reply)
    requires challenge == Message(Challenge, k.user, k.resource, env.salt, env.nonce)
    requires last == NewMessage(ComeIn, k.user, k.resource, env.endSalt)
    requires c.rx1 == Over([challenge, last], 0) && c.rx2 == Over([challenge, last], 1)
    requires var sent := [InitialMsg(mac, k, op, salt1), ResponseMsg(mac, k, challenge, salt2)];
             env.rx1 == Over(sent, 0) && env.rx2 == Over(sent, 1)
    ensures var sent := [InitialMsg(mac, k, op, salt1), ResponseMsg(mac, k, challenge, salt2)];
            Connected(env, Feed(conf, mac, Fresh(env), Inputs(env)).log, c, sent)
  {
    var sent := [InitialMsg(mac, k, op, salt1), ResponseMsg(mac, k, challenge, salt2)];
    OverIsAt(sent, 0);
    OverIsAt(sent, 1);
    ServerSays(conf, mac, k, op, salt1, salt2, env, sent);
    assert Said(Feed(conf, mac, Fresh(env), Inputs(env)).log) == [challenge, last];
  }

  lemma ServerSays(conf: Config, mac: Mac, k: Knocker, op: Operation, salt1: Salt, salt2: Salt, env: Env,
      sent: seq<Message>)
    requires Entitled(conf, k) && (op == Knock || op == Operation.Close)
    requires |sent| == 2 && sent[0] == InitialMsg(mac, k, op, salt1)
    requires sent[1] == ResponseMsg(mac, k, ChallengeMsg(Fresh(env), sent[0]), salt2)
    requires env.tx1 && env.tx2 && env.up && env.rx1 == Some(sent[0]) && env.rx2 == Some(sent[1])
    ensures Said(Feed(conf, mac, Fresh(env), Inputs(env)).log)
         == [ChallengeMsg(Fresh(env), sent[0]), LastMsg(env, sent[0], ReplyOk(env.reply))]
  {
    FeedFrom(conf, mac, env, 0);
    assert Inputs(env)[0..] == Inputs(env);
    ServerChallenges(conf, mac, env, k, op, salt1);
    ServerAsks(conf, mac, env, k, sent[0], salt2);
    ServerEnds(conf, mac, env, sent[0], sent[1]);
    LogIsFull(conf, env, sent, Stage(conf, mac, env, 6).log);
    SaidFull(conf, env, sent);
  }

  // ---------- Server and firewall together ----------

  /** Some session asked the firewall for this lease. */
  ghost predicate AskedFor(sys: System, id: LeaseId) {
    exists sid <- sys, j :: 0 <= j < |sys[sid].log| && IsRequestFor(sys[sid].log[j], id)
  }

  predicate IsRequestFor(e: Ev, id: LeaseId) {
    e.Asked? && id == LeaseId(e.addr, LeasePortOf(e.portType, e.port))
  }

  /**
   * Whatever clients send and however sessions interleave: if the firewall is called only for what
   * sessions ask, and for maintenance, then its calls have one port type for each port number and
   * never name the control port. So everything proved of `FirewallService.Serve` holds.
   */
  lemma ServerCallsAdmissible(conf: Config, mac: Mac, acts: seq<Act>, calls: seq<FS.Call>)
    requires TablesOk(conf)
    requires forall i :: 0 <= i < |calls| && !calls[i].MaintainCall? ==> AskedFor(After(conf, mac, acts), calls[i].id)
    ensures FS.Admissible(conf, TypingOf(conf), calls)
  {
    forall i | 0 <= i < |calls| && !calls[i].MaintainCall? ensures FS.AdmissibleCall(conf, TypingOf(conf), calls[i]) {
      var sys := After(conf, mac, acts);
      var sid, j :| sid in sys && 0 <= j < |sys[sid].log| && IsRequestFor(sys[sid].log[j], calls[i].id);
      RequestsAreTyped(conf, mac, acts, sid, j);
    }
  }
}
