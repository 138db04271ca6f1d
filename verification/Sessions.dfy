/** The server side of one control connection as an event-driven machine, and what holds in all its runs. */
module Sessions {
  import opened Wire
  import opened Addr
  import opened Conf
  import opened Messages
  import opened FirewallMessages

  datatype AuthState = NotAuth | BasicAuth | ChallengeResponseAuth

  /** Observable history of a session. */
  datatype Ev =
    | Got(msg: Message)
    | Sent(msg: Message)
    | Asked(op: FwOperation, addr: IpAddr, portType: PortType, port: u16)
    | Answered(ack: bool)

  datatype Phase =
    | AwaitInitial | SendingChallenge | AwaitResponse | Connecting | AwaitFirewall | SendingComeIn
    | Finished(ok: bool)

  /** `nonce` is the random challenge of the session; the salts are those of the challenge and of the last message. */
  datatype Session = Session(
    peer: IpAddr, nonce: Auth, salt: Salt, endSalt: Salt,
    phase: Phase, userId: Option<UserId>, resourceId: Option<ResourceId>, auth: AuthState, log: seq<Ev>)

  function NewSession(peer: IpAddr, nonce: Auth, salt: Salt, endSalt: Salt): Session {
    Session(peer, nonce, salt, endSalt, AwaitInitial, None, None, NotAuth, [])
  }

  /** What the environment delivers to a session. Rx(None) is a disconnect, a read error or a time-out. */
  datatype Input =
    | Rx(msg: Option<Message>)
    | Tx(ok: bool)
    | Up(ok: bool)
    | Fw(ack: bool)

  predicate MayReport(policy: ErrorPolicy, auth: AuthState) {
    match policy
    case PolicyAlways => true
    case PolicyBasicAuth => auth != NotAuth
    case PolicyFullAuth => auth == ChallengeResponseAuth
  }

  const MAX_ID: u32 := 0xFFFF_FFFF

  /** End the session, telling the client if the error policy allows it. */
  function Reject(conf: Config, s: Session): Session {
    var user := if s.userId.Some? then s.userId.value else MAX_ID;
    var resource := if s.resourceId.Some? then s.resourceId.value else MAX_ID;
    var told := if MayReport(conf.policy, s.auth) then [Sent(NewMessage(GoAway, user, resource, s.endSalt))] else [];
    s.(phase := Finished(false), log := s.log + told)
  }

  function ChallengeMsg(s: Session, m: Message): Message {
    Message(Challenge, m.user, m.resource, s.salt, s.nonce)
  }

  function OnInitial(conf: Config, mac: Mac, s: Session, m: Message): Session {
    if m.operation != Knock && m.operation != Close then Reject(conf, s)
    else
      var s := s.(userId := Some(m.user), resourceId := Some(m.resource));
      if m.user !in conf.keys then Reject(conf, s)
      else if !CheckAuth(mac, conf.keys[m.user], m, ZERO_AUTH) then Reject(conf, s)
      else
        var s := s.(auth := BasicAuth);
        if m.resource !in conf.resources then Reject(conf, s)
        else if !conf.resources[m.resource].ContainsUser(m.user) then Reject(conf, s)
        else if conf.resources[m.resource].port == conf.port.port then Reject(conf, s)
        else s.(phase := SendingChallenge, log := s.log + [Sent(ChallengeMsg(s, m))])
  }

  function OnResponse(conf: Config, mac: Mac, s: Session, m: Message): Session {
    if m.operation != Response || Some(m.user) != s.userId || Some(m.resource) != s.resourceId then Reject(conf, s)
    else if m.user !in conf.keys || !CheckAuth(mac, conf.keys[m.user], m, s.nonce) then Reject(conf, s)
    else s.(phase := Connecting, auth := ChallengeResponseAuth)
  }

  function PortTypeFor(r: Resource): PortType {
    if r.tcp && r.udp then TcpUdpType else if r.udp then UdpType else TcpType
  }

  function RequestOp(op: Operation): FwOperation {
    if op == Close then FwClose else FwOpen
  }

  /** The firewall request that belongs to an initial message. */
  function RequestFor(conf: Config, peer: IpAddr, m: Message): Ev
    requires m.resource in conf.resources
  {
    var r := conf.resources[m.resource];
    Asked(RequestOp(m.operation), peer, PortTypeFor(r), r.port)
  }

  /**
   * One input. Inputs that the session is not waiting for have no effect. The tests on the history
   * and the identifiers while connecting and waiting for the firewall never fail (see `Shape`).
   */
  function Deliver(conf: Config, mac: Mac, s: Session, x: Input): Session {
    match s.phase
    case AwaitInitial =>
      if x == Rx(None) then s.(phase := Finished(false))
      else if x.Rx? then OnInitial(conf, mac, s.(log := s.log + [Got(x.msg.value)]), x.msg.value)
      else s
    case SendingChallenge =>
      if x.Tx? then s.(phase := if x.ok then AwaitResponse else Finished(false)) else s
    case AwaitResponse =>
      if x == Rx(None) then s.(phase := Finished(false))
      else if x.Rx? then OnResponse(conf, mac, s.(log := s.log + [Got(x.msg.value)]), x.msg.value)
      else s
    case Connecting =>
      if x.Up? && x.ok && s.log != [] && s.log[0].Got? && s.log[0].msg.resource in conf.resources then
        s.(phase := AwaitFirewall, log := s.log + [RequestFor(conf, s.peer, s.log[0].msg)])
      else if x.Up? then Reject(conf, s)
      else s
    case AwaitFirewall =>
      if x.Fw? && x.ack && s.userId.Some? && s.resourceId.Some? then
        s.(phase := SendingComeIn,
           log := s.log + [Answered(true), Sent(NewMessage(ComeIn, s.userId.value, s.resourceId.value, s.endSalt))])
      else if x.Fw? then Reject(conf, s.(log := s.log + [Answered(false)]))
      else s
    case SendingComeIn =>
      if x.Tx? then s.(phase := Finished(x.ok)) else s
    case Finished(_) => s
  }

  function Feed(conf: Config, mac: Mac, s: Session, xs: seq<Input>): Session
    decreases |xs|
  {
    if xs == [] then s else Feed(conf, mac, Deliver(conf, mac, s, xs[0]), xs[1..])
  }

  // ---------- What a history may look like ----------

  /** A valid initial message: Knock or Close by a known user, with a token under that user's key. */
  ghost predicate InitialOk(conf: Config, mac: Mac, m: Message) {
    && (m.operation == Knock || m.operation == Close)
    && m.user in conf.keys && CheckAuth(mac, conf.keys[m.user], m, ZERO_AUTH)
  }

  /** The user is in the resource's list or the list is empty, and the resource is not the control port. */
  ghost predicate Permitted(conf: Config, m: Message) {
    && m.resource in conf.resources
    && (conf.resources[m.resource].users == [] || m.user in conf.resources[m.resource].users)
    && conf.resources[m.resource].port != conf.port.port
  }

  /** A valid response: same user and resource, and a token over this session's challenge. */
  ghost predicate ResponseOk(conf: Config, mac: Mac, nonce: Auth, first: Message, m: Message) {
    && m.operation == Response && m.user == first.user && m.resource == first.resource
    && first.user in conf.keys && CheckAuth(mac, conf.keys[first.user], m, nonce)
  }

  ghost predicate BasicPassed(conf: Config, mac: Mac, log: seq<Ev>) {
    |log| >= 1 && log[0].Got? && InitialOk(conf, mac, log[0].msg)
  }

  ghost predicate FullPassed(conf: Config, mac: Mac, nonce: Auth, log: seq<Ev>) {
    && |log| >= 3 && BasicPassed(conf, mac, log) && Permitted(conf, log[0].msg)
    && log[1].Sent? && log[1].msg.operation == Challenge && log[1].msg.auth == nonce
    && log[2].Got? && ResponseOk(conf, mac, nonce, log[0].msg, log[2].msg)
  }

  /** How far the client is authenticated, read off the history alone. */
  ghost function Level(conf: Config, mac: Mac, nonce: Auth, log: seq<Ev>): AuthState {
    if FullPassed(conf, mac, nonce, log) then ChallengeResponseAuth
    else if BasicPassed(conf, mac, log) then BasicAuth
    else NotAuth
  }

  /** The firewall is asked at most once, after full authentication, for what the initial message named. */
  ghost predicate Authorised(conf: Config, mac: Mac, s: Session) {
    forall i :: 0 <= i < |s.log| && s.log[i].Asked? ==>
      i == 3 && FullPassed(conf, mac, s.nonce, s.log[..3]) && s.log[3] == RequestFor(conf, s.peer, s.log[0].msg)
  }

  /** Messages sent: a prefix of Challenge, ComeIn; or a GoAway in place of the rest. */
  ghost predicate Language(log: seq<Ev>) {
    && (forall i :: 0 <= i < |log| && log[i].Sent? ==>
          log[i].msg.operation == Challenge || log[i].msg.operation == ComeIn || log[i].msg.operation == GoAway)
    && (forall i :: 0 <= i < |log| && log[i].Sent? && log[i].msg.operation == Challenge ==> i == 1)
    && (forall i :: 0 <= i < |log| && log[i].Sent? && log[i].msg.operation != Challenge ==> i == |log| - 1)
    && (forall i :: 0 <= i < |log| && log[i].Sent? && log[i].msg.operation == ComeIn ==>
          i == 5 && log[4] == Answered(true) && log[3].Asked? && log[1].Sent? && log[1].msg.operation == Challenge)
  }

  /** What the policy asks of the history before an error may be reported to the client. */
  ghost predicate Told(conf: Config, mac: Mac, nonce: Auth, log: seq<Ev>) {
    && (conf.policy == PolicyBasicAuth ==> BasicPassed(conf, mac, log))
    && (conf.policy == PolicyFullAuth ==> FullPassed(conf, mac, nonce, log))
  }

  /** A GoAway is sent only after the history that the policy asks for. */
  ghost predicate PolicyKept(conf: Config, mac: Mac, s: Session) {
    forall i :: 0 <= i < |s.log| && s.log[i].Sent? && s.log[i].msg.operation == GoAway ==>
      Told(conf, mac, s.nonce, s.log[..i])
  }

  // ---------- The invariant ----------

  ghost predicate Opened(conf: Config, mac: Mac, s: Session) {
    && |s.log| >= 2 && BasicPassed(conf, mac, s.log) && Permitted(conf, s.log[0].msg)
    && s.log[1] == Sent(ChallengeMsg(s, s.log[0].msg))
    && s.userId == Some(s.log[0].msg.user) && s.resourceId == Some(s.log[0].msg.resource)
  }

  /** How far the history goes in each phase. */
  ghost predicate Shape(conf: Config, mac: Mac, s: Session) {
    match s.phase
    case AwaitInitial => s.log == [] && s.userId.None? && s.resourceId.None?
    case SendingChallenge => |s.log| == 2 && Opened(conf, mac, s)
    case AwaitResponse => |s.log| == 2 && Opened(conf, mac, s)
    case Connecting => |s.log| == 3 && Opened(conf, mac, s) && FullPassed(conf, mac, s.nonce, s.log)
    case AwaitFirewall =>
      |s.log| == 4 && Opened(conf, mac, s) && FullPassed(conf, mac, s.nonce, s.log) && s.log[3].Asked?
    case SendingComeIn => |s.log| == 6 && s.log[5].Sent? && s.log[5].msg.operation == ComeIn
    case Finished(ok) => ok ==> |s.log| == 6 && s.log[5].Sent? && s.log[5].msg.operation == ComeIn
  }

  /** What holds of a session that has not ended, whatever its phase. */
  ghost predicate Running(conf: Config, mac: Mac, s: Session) {
    && s.auth == Level(conf, mac, s.nonce, s.log)
    && Authorised(conf, mac, s)
    && forall i :: 0 <= i < |s.log| && s.log[i].Sent? ==> i == 1 && s.log[i].msg.operation == Challenge
  }

  ghost predicate SessionInv(conf: Config, mac: Mac, s: Session) {
    && Shape(conf, mac, s)
    && (s.phase.Finished? || s.phase.SendingComeIn? || Running(conf, mac, s))
    && s.auth == Level(conf, mac, s.nonce, s.log)
    && Authorised(conf, mac, s) && Language(s.log) && PolicyKept(conf, mac, s)
  }

  /** Appending something that is not received leaves the level as it is. */
  lemma LevelKept(conf: Config, mac: Mac, nonce: Auth, log: seq<Ev>, e: Ev)
    requires !e.Got?
    ensures Level(conf, mac, nonce, log + [e]) == Level(conf, mac, nonce, log)
  {
  }

  /** While a session runs, its history is fine as it is and stays fine with a final GoAway. */
  lemma RunningIsGood(conf: Config, mac: Mac, s: Session)
    requires Running(conf, mac, s)
    ensures Language(s.log) && PolicyKept(conf, mac, s)
  {
  }

  lemma GoAwayLast(conf: Config, mac: Mac, s: Session, s': Session, e: Ev)
    requires Running(conf, mac, s) && MayReport(conf.policy, s.auth)
    requires e.Sent? && e.msg.operation == GoAway && s'.log == s.log + [e] && s'.nonce == s.nonce
    ensures Language(s'.log) && PolicyKept(conf, mac, s')
  {
    assert s'.log[..|s.log|] == s.log;
    assert forall i :: 0 <= i < |s.log| ==> s'.log[i] == s.log[i];
  }

  lemma RejectEnds(conf: Config, mac: Mac, s: Session)
    requires Running(conf, mac, s)
    ensures SessionInv(conf, mac, Reject(conf, s))
  {
    var s' := Reject(conf, s);
    if MayReport(conf.policy, s.auth) {
      var e := s'.log[|s.log|];
      LevelKept(conf, mac, s.nonce, s.log, e);
      AuthorisedKept(conf, mac, s, s', e);
      GoAwayLast(conf, mac, s, s', e);
    } else {
      assert s'.log == s.log;
      RunningIsGood(conf, mac, s);
    }
  }

  lemma AuthorisedKept(conf: Config, mac: Mac, s: Session, s': Session, e: Ev)
    requires Authorised(conf, mac, s) && !e.Asked?
    requires s'.log == s.log + [e] && s'.nonce == s.nonce && s'.peer == s.peer
    ensures Authorised(conf, mac, s')
  {
    forall i | 0 <= i < |s'.log| && s'.log[i].Asked?
      ensures i == 3 && FullPassed(conf, mac, s.nonce, s'.log[..3])
      ensures s'.log[3] == RequestFor(conf, s.peer, s'.log[0].msg)
    {
      assert s.log[i].Asked? && s'.log[..3] == s.log[..3];
    }
  }

  /** After the initial message alone. */
  lemma InitialRuns(conf: Config, mac: Mac, t: Session, m: Message)
    requires t.log == [Got(m)] && t.auth == if InitialOk(conf, mac, m) then BasicAuth else NotAuth
    ensures Running(conf, mac, t)
  {
  }

  lemma InitialKeeps(conf: Config, mac: Mac, s: Session, m: Message)
    requires s.phase.AwaitInitial? && SessionInv(conf, mac, s)
    ensures SessionInv(conf, mac, OnInitial(conf, mac, s.(log := s.log + [Got(m)]), m))
  {
    var t := s.(log := s.log + [Got(m)]);
    assert t.log == [Got(m)];
    if m.operation != Knock && m.operation != Close {
      InitialRuns(conf, mac, t, m);
      RejectEnds(conf, mac, t);
    } else {
      var b := t.(userId := Some(m.user), resourceId := Some(m.resource),
                  auth := if InitialOk(conf, mac, m) then BasicAuth else NotAuth);
      InitialRuns(conf, mac, b, m);
      if !InitialOk(conf, mac, m) || !Permitted(conf, m) {
        RejectEnds(conf, mac, b);
      } else {
        ChallengeKeeps(conf, mac, b, m, OnInitial(conf, mac, t, m));
      }
    }
  }

  lemma ChallengeKeeps(conf: Config, mac: Mac, b: Session, m: Message, s': Session)
    requires b.log == [Got(m)] && b.userId == Some(m.user) && b.resourceId == Some(m.resource)
    requires InitialOk(conf, mac, m) && Permitted(conf, m)
    requires s' == b.(phase := SendingChallenge, auth := BasicAuth, log := b.log + [Sent(ChallengeMsg(b, m))])
    ensures SessionInv(conf, mac, s')
  {
    assert s'.log == [Got(m), Sent(ChallengeMsg(b, m))];
    assert Running(conf, mac, s');
    RunningIsGood(conf, mac, s');
  }

  lemma ResponseKeeps(conf: Config, mac: Mac, s: Session, m: Message)
    requires s.phase.AwaitResponse? && SessionInv(conf, mac, s)
    ensures SessionInv(conf, mac, OnResponse(conf, mac, s.(log := s.log + [Got(m)]), m))
  {
    var t := s.(log := s.log + [Got(m)]);
    var s' := OnResponse(conf, mac, t, m);
    assert t.log[0] == s.log[0] && t.log[1] == s.log[1];
    assert FullPassed(conf, mac, s.nonce, t.log) <==> ResponseOk(conf, mac, s.nonce, s.log[0].msg, m);
    AuthorisedKept(conf, mac, s, t, Got(m));
    if s'.phase.Finished? {
      assert Running(conf, mac, t);
      RejectEnds(conf, mac, t);
    }
  }

  lemma ConnectKeeps(conf: Config, mac: Mac, s: Session, ok: bool)
    requires s.phase.Connecting? && SessionInv(conf, mac, s)
    ensures SessionInv(conf, mac, Deliver(conf, mac, s, Up(ok)))
  {
    var s' := Deliver(conf, mac, s, Up(ok));
    if ok {
      assert s'.log[..3] == s.log && s'.log[..1] == s.log[..1];
      LevelKept(conf, mac, s.nonce, s.log, s'.log[3]);
    } else {
      RejectEnds(conf, mac, s);
    }
  }

  lemma AnswerKeeps(conf: Config, mac: Mac, s: Session, ack: bool)
    requires s.phase.AwaitFirewall? && SessionInv(conf, mac, s)
    ensures SessionInv(conf, mac, Deliver(conf, mac, s, Fw(ack)))
  {
    var s' := Deliver(conf, mac, s, Fw(ack));
    var t := s.(log := s.log + [Answered(ack)]);
    LevelKept(conf, mac, s.nonce, s.log, Answered(ack));
    AuthorisedKept(conf, mac, s, t, Answered(ack));
    if ack {
      var e := s'.log[5];
      assert s'.log == t.log + [e];
      LevelKept(conf, mac, s.nonce, t.log, e);
      AuthorisedKept(conf, mac, t, s', e);
    } else {
      RejectEnds(conf, mac, t);
    }
  }

  function Rank(a: AuthState): nat {
    match a case NotAuth => 0 case BasicAuth => 1 case ChallengeResponseAuth => 2
  }

  /** The authentication level never goes down, and history is only added to. */
  lemma DeliverGrows(conf: Config, mac: Mac, s: Session, x: Input)
    requires SessionInv(conf, mac, s)
    ensures Rank(s.auth) <= Rank(Deliver(conf, mac, s, x).auth)
    ensures s.log <= Deliver(conf, mac, s, x).log
  {
    match s.phase
    case AwaitInitial => assert s.auth == NotAuth;
    case _ =>
  }

  /** A lost connection ends the session with the history it has. */
  lemma LostKeeps(conf: Config, mac: Mac, s: Session)
    requires SessionInv(conf, mac, s)
    ensures SessionInv(conf, mac, s.(phase := Finished(false)))
  {
  }

  lemma SentKeeps(conf: Config, mac: Mac, s: Session, ok: bool)
    requires (s.phase.SendingChallenge? || s.phase.SendingComeIn?) && SessionInv(conf, mac, s)
    ensures SessionInv(conf, mac, Deliver(conf, mac, s, Tx(ok)))
  {
    LostKeeps(conf, mac, s);
  }

  lemma ReceiveKeeps(conf: Config, mac: Mac, s: Session, x: Input)
    requires SessionInv(conf, mac, s) && (s.phase.AwaitInitial? || s.phase.AwaitResponse?)
    ensures SessionInv(conf, mac, Deliver(conf, mac, s, x))
  {
    if x.Rx? && x.msg.Some? {
      if s.phase.AwaitInitial? {
        InitialKeeps(conf, mac, s, x.msg.value);
      } else {
        ResponseKeeps(conf, mac, s, x.msg.value);
      }
    } else {
      LostKeeps(conf, mac, s);
    }
  }

  /** Every input keeps the invariant. */
  lemma DeliverKeeps(conf: Config, mac: Mac, s: Session, x: Input)
    requires SessionInv(conf, mac, s)
    ensures SessionInv(conf, mac, Deliver(conf, mac, s, x))
  {
    if s.phase.AwaitInitial? || s.phase.AwaitResponse? {
      ReceiveKeeps(conf, mac, s, x);
    } else if (s.phase.SendingChallenge? || s.phase.SendingComeIn?) && x.Tx? {
      SentKeeps(conf, mac, s, x.ok);
    } else if s.phase.Connecting? && x.Up? {
      ConnectKeeps(conf, mac, s, x.ok);
    } else if s.phase.AwaitFirewall? && x.Fw? {
      AnswerKeeps(conf, mac, s, x.ack);
    } else {
      assert Deliver(conf, mac, s, x) == s;
    }
  }

  /** In every run of a session, for every policy and all inputs: authorisation, message order and error policy. */
  lemma {:induction false} FeedKeeps(conf: Config, mac: Mac, s: Session, xs: seq<Input>)
    requires SessionInv(conf, mac, s)
    ensures SessionInv(conf, mac, Feed(conf, mac, s, xs))
    decreases |xs|
  {
    if xs != [] {
      DeliverKeeps(conf, mac, s, xs[0]);
      FeedKeeps(conf, mac, Deliver(conf, mac, s, xs[0]), xs[1..]);
    }
  }
}
