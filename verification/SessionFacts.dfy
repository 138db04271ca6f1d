/** What a session does, read off its history alone, without the functions it is computed with. */
module SessionFacts {
  import opened Wire
  import opened Addr
  import opened Conf
  import opened Messages
  import opened FirewallMessages
  import opened Sessions
  import opened Server

  // ---------- Requests ----------

  /** TCP and UDP flags as the port type of a request stands for them. */
  predicate TypeIs(t: PortType, tcp: bool, udp: bool) {
    (t == TcpType && tcp && !udp) || (t == UdpType && !tcp && udp) || (t == TcpUdpType && tcp && udp)
  }

  /**
   * Authorisation: in every interleaving of sessions and whatever is received, a session asks the
   * firewall once at most, after these three messages: a Knock or Close with the user's token over the
   * zero challenge, the session's own challenge, and a Response of the same user for the same resource
   * with the user's token over this challenge. The user is in the resource's list, or there is no list.
   * The request is for the peer's address and for the port and the protocols of the resource.
   */
  lemma RequestMeans(conf: Config, mac: Mac, acts: seq<Act>, sid: nat, i: nat)
    requires TablesOk(conf) && sid in After(conf, mac, acts)
    requires i < |After(conf, mac, acts)[sid].log| && After(conf, mac, acts)[sid].log[i].Asked?
    ensures var s := After(conf, mac, acts)[sid];
            var l := s.log;
            && i == 3 && l[0].Got? && l[2].Got?
            && var m, q := l[0].msg, l[2].msg;
            && (m.operation == Knock || m.operation == Close)
            && m.user in conf.keys && m.auth == mac(conf.keys[m.user], AuthInput(m, ZERO_AUTH))
            && l[1] == Sent(Message(Challenge, m.user, m.resource, s.salt, s.nonce))
            && q.operation == Response && q.user == m.user && q.resource == m.resource
            && q.auth == mac(conf.keys[m.user], AuthInput(q, s.nonce))
            && m.resource in conf.resources
            && var r := conf.resources[m.resource];
            && (r.users == [] || exists j :: 0 <= j < |r.users| && r.users[j] == m.user)
            && l[3].op == (if m.operation == Knock then FwOpen else FwClose)
            && l[3].addr == s.peer && l[3].port == r.port != conf.port.port && TypeIs(l[3].portType, r.tcp, r.udp)
  {
    SystemInv(conf, mac, acts, sid);
    SystemWorded(conf, mac, acts, sid);
    var s := After(conf, mac, acts)[sid];
    assert i == 3 && FullPassed(conf, mac, s.nonce, s.log[..3]);
    assert s.log[..3][0] == s.log[0] && s.log[..3][1] == s.log[1] && s.log[..3][2] == s.log[2];
    assert WordedAt(s, 1);
  }

  // ---------- Which messages are accepted ----------

  /**
   * A waiting session is ready to challenge after a message if and only if it is a Knock or Close with
   * the token of a known user over the zero challenge, for a resource that this user may use and that is
   * not the control port.
   */
  lemma ChallengedIff(conf: Config, mac: Mac, s: Session, m: Message)
    requires s.phase.AwaitInitial?
    ensures Deliver(conf, mac, s, Rx(Some(m))).phase.SendingChallenge? <==>
              && (m.operation == Knock || m.operation == Close)
              && m.user in conf.keys && m.auth == mac(conf.keys[m.user], AuthInput(m, ZERO_AUTH))
              && m.resource in conf.resources
              && (conf.resources[m.resource].users == [] || m.user in conf.resources[m.resource].users)
              && conf.resources[m.resource].port != conf.port.port
  {
  }

  /**
   * A session that has sent its challenge is ready to ask the firewall after a message if and only if it
   * is a Response of the same user for the same resource with the user's token over this challenge.
   */
  lemma ConfirmedIff(conf: Config, mac: Mac, s: Session, m: Message)
    requires SessionInv(conf, mac, s) && s.phase.AwaitResponse?
    ensures s.log[0].Got?
    ensures Deliver(conf, mac, s, Rx(Some(m))).phase.Connecting? <==>
              && m.operation == Response && m.user == s.log[0].msg.user && m.resource == s.log[0].msg.resource
              && m.user in conf.keys && m.auth == mac(conf.keys[m.user], AuthInput(m, s.nonce))
  {
  }

  // ---------- Messages sent ----------

  /** The user and resource that later messages carry: those of a first message that was a Knock or Close. */
  ghost predicate Names(first: Message, user: UserId, resource: ResourceId) {
    if first.operation == Knock || first.operation == Close then user == first.user && resource == first.resource
    else user == 0xFFFF_FFFF && resource == 0xFFFF_FFFF
  }

  /** The contents of message `i`, if it was sent. */
  ghost predicate WordedAt(s: Session, i: nat)
    requires i < |s.log|
  {
    s.log[i].Sent? ==>
      && s.log[0].Got? && Names(s.log[0].msg, s.log[i].msg.user, s.log[i].msg.resource)
      && (if s.log[i].msg.operation == Challenge then s.log[i].msg.salt == s.salt && s.log[i].msg.auth == s.nonce
          else s.log[i].msg.salt == s.endSalt && s.log[i].msg.auth == ZERO_AUTH)
  }

  ghost predicate Worded(s: Session) {
    && (forall i: nat :: i < |s.log| ==> WordedAt(s, i))
    && (if s.log == [] then s.userId.None? && s.resourceId.None?
        else s.log[0].Got? && Names(s.log[0].msg, if s.userId.Some? then s.userId.value else 0xFFFF_FFFF,
                                    if s.resourceId.Some? then s.resourceId.value else 0xFFFF_FFFF))
  }

  /** One more entry in the history: it is worded right if it is not sent, or carries the identifiers kept. */
  lemma WordedSnoc(s: Session, e: Ev, s': Session)
    requires Worded(s) && s.log != [] && s'.log == s.log + [e]
    requires s'.userId == s.userId && s'.resourceId == s.resourceId
    requires s'.salt == s.salt && s'.endSalt == s.endSalt && s'.nonce == s.nonce
    requires e.Sent? ==>
               && e.msg.user == (if s.userId.Some? then s.userId.value else 0xFFFF_FFFF)
               && e.msg.resource == (if s.resourceId.Some? then s.resourceId.value else 0xFFFF_FFFF)
               && (if e.msg.operation == Challenge then e.msg.salt == s.salt && e.msg.auth == s.nonce
                   else e.msg.salt == s.endSalt && e.msg.auth == ZERO_AUTH)
    ensures Worded(s')
  {
    forall i: nat | i < |s'.log| ensures WordedAt(s', i) {
      if i < |s.log| {
        assert WordedAt(s, i) && s'.log[i] == s.log[i] && s'.log[0] == s.log[0];
      }
    }
  }

  lemma WordedSame(s: Session, s': Session)
    requires Worded(s) && s' == s.(phase := s'.phase, auth := s'.auth)
    ensures Worded(s')
  {
    forall i: nat | i < |s'.log| ensures WordedAt(s', i) {
      assert WordedAt(s, i);
    }
  }

  lemma RejectWorded(conf: Config, s: Session)
    requires Worded(s) && s.log != []
    ensures Worded(Reject(conf, s))
  {
    var s' := Reject(conf, s);
    if |s'.log| > |s.log| {
      WordedSnoc(s, s'.log[|s.log|], s');
    } else {
      assert s'.log == s.log;
      WordedSame(s, s');
    }
  }

  lemma InitialWorded(conf: Config, mac: Mac, s: Session, m: Message)
    requires Worded(s) && s.log == []
    ensures Worded(OnInitial(conf, mac, s.(log := s.log + [Got(m)]), m))
  {
    var t := s.(log := s.log + [Got(m)]);
    var s' := OnInitial(conf, mac, t, m);
    assert t.log == [Got(m)];
    if m.operation != Knock && m.operation != Close {
      assert Worded(t);
      RejectWorded(conf, t);
    } else {
      var b := t.(userId := Some(m.user), resourceId := Some(m.resource), auth := s'.auth);
      assert Worded(b);
      if s'.phase.SendingChallenge? {
        WordedSnoc(b, s'.log[1], s');
      } else {
        RejectWorded(conf, b);
      }
    }
  }

  lemma ResponseWorded(conf: Config, mac: Mac, s: Session, m: Message)
    requires Worded(s) && s.log != []
    ensures Worded(OnResponse(conf, mac, s.(log := s.log + [Got(m)]), m))
  {
    var t := s.(log := s.log + [Got(m)]);
    WordedSnoc(s, Got(m), t);
    if OnResponse(conf, mac, t, m).phase.Connecting? {
      WordedSame(t, OnResponse(conf, mac, t, m));
    } else {
      RejectWorded(conf, t);
    }
  }

  /** The history is empty exactly until the initial message. */
  ghost predicate Begun(s: Session) {
    && (s.phase.AwaitInitial? ==> s.log == [])
    && (!s.phase.AwaitInitial? && !s.phase.Finished? ==> s.log != [])
  }

  lemma InvBegun(conf: Config, mac: Mac, s: Session)
    requires SessionInv(conf, mac, s)
    ensures Begun(s)
  {
  }

  lemma DeliverWorded(conf: Config, mac: Mac, s: Session, x: Input)
    requires Begun(s) && Worded(s)
    ensures Worded(Deliver(conf, mac, s, x))
  {
    if s.phase.AwaitInitial? && x.Rx? && x.msg.Some? {
      InitialWorded(conf, mac, s, x.msg.value);
    } else if s.phase.AwaitResponse? && x.Rx? && x.msg.Some? {
      ResponseWorded(conf, mac, s, x.msg.value);
    } else if s.phase.Connecting? && x.Up? {
      ConnectWorded(conf, mac, s, x.ok);
    } else if s.phase.AwaitFirewall? && x.Fw? {
      AnswerWorded(conf, mac, s, x.ack);
    } else {
      WordedSame(s, Deliver(conf, mac, s, x));
    }
  }

  lemma ConnectWorded(conf: Config, mac: Mac, s: Session, ok: bool)
    requires Begun(s) && Worded(s) && s.phase.Connecting?
    ensures Worded(Deliver(conf, mac, s, Up(ok)))
  {
    var s' := Deliver(conf, mac, s, Up(ok));
    if s'.phase.AwaitFirewall? {
      WordedSnoc(s, s'.log[|s.log|], s');
    } else {
      RejectWorded(conf, s);
    }
  }

  lemma AnswerWorded(conf: Config, mac: Mac, s: Session, ack: bool)
    requires Begun(s) && Worded(s) && s.phase.AwaitFirewall?
    ensures Worded(Deliver(conf, mac, s, Fw(ack)))
  {
    var s' := Deliver(conf, mac, s, Fw(ack));
    var t := s.(log := s.log + [Answered(ack)]);
    WordedSnoc(s, Answered(ack), t);
    WordedSnoc(s, Answered(false), s.(log := s.log + [Answered(false)]));
    if s'.phase.SendingComeIn? {
      assert s'.log == t.log + [s'.log[|t.log|]];
      WordedSnoc(t, s'.log[|t.log|], s');
    } else {
      RejectWorded(conf, s.(log := s.log + [Answered(false)]));
    }
  }

  /** In every interleaving, every message that a session sends carries the right identifiers, salt and challenge. */
  lemma {:induction false} SystemWorded(conf: Config, mac: Mac, acts: seq<Act>, sid: nat)
    requires sid in After(conf, mac, acts)
    ensures Worded(After(conf, mac, acts)[sid])
    decreases |acts|
  {
    var m := |acts| - 1;
    var sys := After(conf, mac, acts[..m]);
    if sid in sys {
      SystemWorded(conf, mac, acts[..m], sid);
      SystemInv(conf, mac, acts[..m], sid);
      InvBegun(conf, mac, sys[sid]);
      if acts[m].Receive? && acts[m].sid == sid {
        DeliverWorded(conf, mac, sys[sid], acts[m].input);
      }
    }
  }

  // ---------- Error reports ----------

  /** What an input that can be rejected adds to the history. */
  function Recorded(x: Input): seq<Ev> {
    if x.Rx? && x.msg.Some? then [Got(x.msg.value)] else if x.Fw? then [Answered(x.ack)] else []
  }

  /**
   * The history `log` is `so_far`, followed by a GoAway if and only if the policy is to report always, or
   * asks for basic authentication and there was a valid initial message, or asks for full
   * authentication and there were a valid initial message, the challenge and a valid response.
   */
  ghost predicate ReportedBy(conf: Config, mac: Mac, nonce: Auth, so_far: seq<Ev>, log: seq<Ev>) {
    && so_far <= log && |log| <= |so_far| + 1
    && (|log| == |so_far| + 1 ==> log[|so_far|].Sent? && log[|so_far|].msg.operation == GoAway)
    && (|log| == |so_far| + 1 <==>
        match conf.policy
        case PolicyAlways => true
        case PolicyBasicAuth => BasicPassed(conf, mac, so_far)
        case PolicyFullAuth => FullPassed(conf, mac, nonce, so_far))
  }

  lemma RejectReports(conf: Config, mac: Mac, t: Session)
    requires t.auth == Level(conf, mac, t.nonce, t.log)
    ensures ReportedBy(conf, mac, t.nonce, t.log, Reject(conf, t).log)
  {
  }

  /**
   * Error policy, both ways: every message, connection failure or answer that ends a session is
   * followed by a GoAway exactly as the policy has it.
   */
  lemma RejectionTold(conf: Config, mac: Mac, s: Session, x: Input)
    requires SessionInv(conf, mac, s) && !s.phase.Finished? && x != Rx(None) && !x.Tx?
    requires Deliver(conf, mac, s, x).phase == Finished(false)
    ensures ReportedBy(conf, mac, s.nonce, s.log + Recorded(x), Deliver(conf, mac, s, x).log)
  {
    match s.phase
    case AwaitInitial => InitialTold(conf, mac, s, x.msg.value);
    case AwaitResponse => ResponseTold(conf, mac, s, x.msg.value);
    case Connecting =>
      assert s.log + Recorded(x) == s.log;
      RejectReports(conf, mac, s);
    case AwaitFirewall =>
      LevelKept(conf, mac, s.nonce, s.log, Answered(false));
      RejectReports(conf, mac, s.(log := s.log + [Answered(false)]));
  }

  lemma InitialTold(conf: Config, mac: Mac, s: Session, m: Message)
    requires s.log == [] && s.auth == NotAuth && OnInitial(conf, mac, s.(log := s.log + [Got(m)]), m).phase.Finished?
    ensures ReportedBy(conf, mac, s.nonce, s.log + [Got(m)], OnInitial(conf, mac, s.(log := s.log + [Got(m)]), m).log)
  {
    var t := s.(log := s.log + [Got(m)]);
    assert t.log == [Got(m)];
    RejectReports(conf, mac, t.(auth := if InitialOk(conf, mac, m) then BasicAuth else NotAuth));
  }

  lemma ResponseTold(conf: Config, mac: Mac, s: Session, m: Message)
    requires s.phase.AwaitResponse? && SessionInv(conf, mac, s)
    requires OnResponse(conf, mac, s.(log := s.log + [Got(m)]), m).phase.Finished?
    ensures ReportedBy(conf, mac, s.nonce, s.log + [Got(m)], OnResponse(conf, mac, s.(log := s.log + [Got(m)]), m).log)
  {
    var t := s.(log := s.log + [Got(m)]);
    assert t.log[0] == s.log[0] && t.log[1] == s.log[1];
    RejectReports(conf, mac, t);
  }
}
