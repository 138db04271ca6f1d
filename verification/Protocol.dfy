/** `Protocol::run` as straight-line code on an object, proved to follow the session machine. */
module ProtocolRun {
  import opened Wire
  import opened Addr
  import opened Conf
  import opened Messages
  import opened FirewallMessages
  import opened Sessions

  /** What the network, the firewall daemon and the random source do during one run. */
  datatype Env = Env(
    peer: IpAddr, nonce: Auth, salt: Salt, endSalt: Salt,
    rx1: Option<Message>, tx1: bool, rx2: Option<Message>, up: bool, reply: Option<FwMessage>, tx2: bool)

  /** The firewall client: only an Ack is success; a lost connection and any other reply are errors. */
  predicate ReplyOk(reply: Option<FwMessage>) {
    reply.Some? && reply.value.operation == FwAck
  }

  function Inputs(env: Env): seq<Input> {
    [Rx(env.rx1), Tx(env.tx1), Rx(env.rx2), Up(env.up), Fw(ReplyOk(env.reply)), Tx(env.tx2)]
  }

  function Fresh(env: Env): Session {
    NewSession(env.peer, env.nonce, env.salt, env.endSalt)
  }

  /** The session after the first `k` inputs. */
  ghost function Stage(conf: Config, mac: Mac, env: Env, k: nat): Session
    requires k <= 6
  {
    if k == 0 then Fresh(env) else Deliver(conf, mac, Stage(conf, mac, env, k - 1), Inputs(env)[k - 1])
  }

  lemma {:induction false} StageInv(conf: Config, mac: Mac, env: Env, k: nat)
    requires k <= 6
    ensures SessionInv(conf, mac, Stage(conf, mac, env, k))
  {
    if k > 0 {
      StageInv(conf, mac, env, k - 1);
      DeliverKeeps(conf, mac, Stage(conf, mac, env, k - 1), Inputs(env)[k - 1]);
    }
  }

  /** A finished session ignores the rest. */
  lemma {:induction false} StageFinished(conf: Config, mac: Mac, env: Env, k: nat)
    requires k <= 6 && Stage(conf, mac, env, k).phase.Finished?
    ensures Stage(conf, mac, env, 6) == Stage(conf, mac, env, k)
    decreases 6 - k
  {
    if k < 6 {
      StageFinished(conf, mac, env, k + 1);
    }
  }

  lemma {:induction false} FeedFrom(conf: Config, mac: Mac, env: Env, k: nat)
    requires k <= 6
    ensures Feed(conf, mac, Stage(conf, mac, env, k), Inputs(env)[k..]) == Stage(conf, mac, env, 6)
    decreases 6 - k
  {
    if k < 6 {
      FeedFrom(conf, mac, env, k + 1);
      assert Inputs(env)[k..][0] == Inputs(env)[k] && Inputs(env)[k..][1..] == Inputs(env)[k + 1..];
    }
  }

  /** Sending the challenge either works or ends the session. */
  lemma StageTwo(conf: Config, mac: Mac, env: Env)
    requires Stage(conf, mac, env, 1).phase.SendingChallenge?
    ensures Stage(conf, mac, env, 2)
         == Stage(conf, mac, env, 1).(phase := if env.tx1 then AwaitResponse else Finished(false))
  {
    assert Inputs(env)[1] == Tx(env.tx1);
  }

  /** So does sending the last message. */
  lemma StageSix(conf: Config, mac: Mac, env: Env)
    requires Stage(conf, mac, env, 5).phase.SendingComeIn?
    ensures Stage(conf, mac, env, 6) == Stage(conf, mac, env, 5).(phase := Finished(env.tx2))
  {
    assert Inputs(env)[5] == Tx(env.tx2);
  }

  class Protocol {
    const conf: Config
    const mac: Mac
    var userId: Option<UserId>
    var resourceId: Option<ResourceId>
    var authState: AuthState
    /** Everything received, sent, and asked of the firewall. */
    var log: seq<Ev>

    constructor (conf: Config, mac: Mac)
      ensures this.conf == conf && this.mac == mac && log == []
    {
      this.conf, this.mac := conf, mac;
      userId, resourceId, authState, log := None, None, NotAuth, [];
    }

    ghost function View(env: Env, phase: Phase): Session
      reads this
    {
      Session(env.peer, env.nonce, env.salt, env.endSalt, phase, userId, resourceId, authState, log)
    }

    method SendMsg(m: Message)
      modifies `log
      ensures log == old(log) + [Sent(m)]
    {
      log := log + [Sent(m)];
    }

    /** Report an error to the client, if the policy allows it. */
    method SendGoAway(env: Env)
      modifies `log
      ensures View(env, Finished(false)) == Reject(conf, old(View(env, Finished(false))))
    {
      match conf.policy {
        case PolicyAlways =>
        case PolicyBasicAuth =>
          if authState != BasicAuth && authState != ChallengeResponseAuth {
            return;
          }
        case PolicyFullAuth =>
          if authState != ChallengeResponseAuth {
            return;
          }
      }
      var user := if userId.Some? then userId.value else MAX_ID;
      var resource := if resourceId.Some? then resourceId.value else MAX_ID;
      SendMsg(NewMessage(GoAway, user, resource, env.endSalt));
    }

    /** Receive the next message; wrong operation, user or resource ends the session. */
    method RecvMsg(env: Env, rx: Option<Message>, want: Operation) returns (r: Option<Message>)
      modifies `log
      ensures rx.None? ==> r.None? && log == old(log)
      ensures r.Some? ==> r == rx && log == old(log) + [Got(r.value)] && r.value.operation == want
      ensures r.Some? && userId.Some? ==> r.value.user == userId.value
      ensures r.Some? && resourceId.Some? ==> r.value.resource == resourceId.value
      ensures rx.Some? && r.None? ==>
                && (rx.value.operation != want || (userId.Some? && rx.value.user != userId.value)
                    || (resourceId.Some? && rx.value.resource != resourceId.value))
                && View(env, Finished(false))
                   == Reject(conf, old(View(env, Finished(false))).(log := old(log) + [Got(rx.value)]))
    {
      if rx.None? {
        return None;
      }
      var m := rx.value;
      log := log + [Got(m)];
      if m.operation != want {
        SendGoAway(env);
        return None;
      }
      if userId.Some? && m.user != userId.value {
        SendGoAway(env);
        return None;
      }
      if resourceId.Some? && m.resource != resourceId.value {
        SendGoAway(env);
        return None;
      }
      return rx;
    }

    /**
     * One run of the protocol. Its history is that of the session machine, so it asks the firewall
     * only when authorised, keeps the message order and obeys the error policy.
     */
    method Run(env: Env) returns (ok: bool)
      requires TablesOk(conf)
      modifies this
      ensures View(env, Finished(ok)) == Feed(conf, mac, Fresh(env), Inputs(env))
      ensures SessionInv(conf, mac, View(env, Finished(ok)))
    {
      ok := RunSteps(env);
      FeedFrom(conf, mac, env, 0);
      assert Inputs(env)[0..] == Inputs(env);
      StageInv(conf, mac, env, 6);
    }

    method RunSteps(env: Env) returns (ok: bool)
      requires TablesOk(conf)
      modifies this
      ensures View(env, Finished(ok)) == Stage(conf, mac, env, 6)
    {
      userId, resourceId, authState, log := None, None, NotAuth, [];
      var first := Begin(env);
      if first.None? {
        StageFinished(conf, mac, env, 1);
        return false;
      }
      StageTwo(conf, mac, env);
      if !env.tx1 {
        StageFinished(conf, mac, env, 2);
        return false;
      }
      var passed := Respond(env, first.value);
      if !passed {
        StageFinished(conf, mac, env, 3);
        return false;
      }
      ok := Finish(env, first.value);
    }

    /** From the initial message to the challenge. */
    method Begin(env: Env) returns (first: Option<Message>)
      requires log == [] && userId.None? && resourceId.None? && authState == NotAuth
      modifies this
      ensures first.None? ==> View(env, Finished(false)) == Stage(conf, mac, env, 1)
      ensures first.Some? ==> View(env, SendingChallenge) == Stage(conf, mac, env, 1)
      ensures first.Some? ==> var m := first.value;
                              log == [Got(m), Sent(Message(Challenge, m.user, m.resource, env.salt, env.nonce))]
    {
      assert Stage(conf, mac, env, 1) == Deliver(conf, mac, Stage(conf, mac, env, 0), Rx(env.rx1));
      if env.rx1.None? {
        return None;
      }
      var m := env.rx1.value;
      log := log + [Got(m)];
      if m.operation != Knock && m.operation != Close {
        SendGoAway(env);
        return None;
      }
      userId, resourceId := Some(m.user), Some(m.resource);
      if m.user !in conf.keys {
        SendGoAway(env);
        return None;
      }
      var key := conf.keys[m.user];
      assert m.operation == Knock || m.operation == Close;
      if !CheckAuth(mac, key, m, ZERO_AUTH) {
        SendGoAway(env);
        return None;
      }
      authState := BasicAuth;
      if m.resource !in conf.resources {
        SendGoAway(env);
        return None;
      }
      var resource := conf.resources[m.resource];
      if !resource.ContainsUser(m.user) {
        SendGoAway(env);
        return None;
      }
      if resource.port == conf.port.port {
        SendGoAway(env);
        return None;
      }
      SendMsg(Message(Challenge, m.user, m.resource, env.salt, env.nonce));
      return Some(m);
    }

    /** Check the response to the challenge. */
    method Respond(env: Env, first: Message) returns (passed: bool)
      requires View(env, AwaitResponse) == Stage(conf, mac, env, 2) && |log| == 2 && log[0] == Got(first)
      modifies `log, `authState
      ensures View(env, if passed then Connecting else Finished(false)) == Stage(conf, mac, env, 3)
      ensures passed ==> |log| == 3 && log[0] == Got(first) && authState == ChallengeResponseAuth
    {
      StageInv(conf, mac, env, 2);
      assert Stage(conf, mac, env, 3) == Deliver(conf, mac, Stage(conf, mac, env, 2), Rx(env.rx2));
      var response := RecvMsg(env, env.rx2, Response);
      if response.None? {
        return false;
      }
      assert response.value.operation == Response && log[1].msg.operation == Challenge;
      if !CheckAuth(mac, conf.keys[first.user], response.value, env.nonce) {
        SendGoAway(env);
        return false;
      }
      authState := ChallengeResponseAuth;
      return true;
    }

    /** Connect to the firewall daemon and send the request. */
    method Ask(env: Env, first: Message) returns (up: bool)
      requires TablesOk(conf)
      requires View(env, Connecting) == Stage(conf, mac, env, 3) && |log| == 3 && log[0] == Got(first)
      modifies `log
      ensures View(env, if up then AwaitFirewall else Finished(false)) == Stage(conf, mac, env, 4)
      ensures up ==> |log| == 4 && log[0] == Got(first)
    {
      StageInv(conf, mac, env, 3);
      assert Stage(conf, mac, env, 4) == Deliver(conf, mac, Stage(conf, mac, env, 3), Up(env.up));
      var resource := conf.resources[first.resource];
      assert resource.tcp || resource.udp;
      var portType := PortTypeFor(resource);
      if !env.up {
        SendGoAway(env);
        return false;
      }
      assert authState == ChallengeResponseAuth;
      log := log + [Asked(if first.operation == Close then FwClose else FwOpen, env.peer, portType, resource.port)];
      return true;
    }

    /** Wait for the answer and send the final message. */
    method Answer(env: Env, first: Message) returns (acked: bool)
      requires View(env, AwaitFirewall) == Stage(conf, mac, env, 4) && |log| == 4 && log[0] == Got(first)
      modifies `log
      ensures View(env, if acked then SendingComeIn else Finished(false)) == Stage(conf, mac, env, 5)
    {
      StageInv(conf, mac, env, 4);
      assert Stage(conf, mac, env, 5) == Deliver(conf, mac, Stage(conf, mac, env, 4), Fw(ReplyOk(env.reply)));
      if !ReplyOk(env.reply) {
        log := log + [Answered(false)];
        SendGoAway(env);
        return false;
      }
      log := log + [Answered(true)];
      SendMsg(NewMessage(ComeIn, first.user, first.resource, env.endSalt));
      return true;
    }

    /** Reconfigure the firewall and send the final message. */
    method Finish(env: Env, first: Message) returns (ok: bool)
      requires TablesOk(conf)
      requires View(env, Connecting) == Stage(conf, mac, env, 3) && |log| == 3 && log[0] == Got(first)
      modifies `log
      ensures View(env, Finished(ok)) == Stage(conf, mac, env, 6)
    {
      var up := Ask(env, first);
      if !up {
        StageFinished(conf, mac, env, 4);
        return false;
      }
      var acked := Answer(env, first);
      if !acked {
        StageFinished(conf, mac, env, 5);
        return false;
      }
      StageSix(conf, mac, env);
      return env.tx2;
    }
  }
}
