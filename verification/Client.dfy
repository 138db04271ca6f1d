/** The client side: the knock and close sequences. */
module Client {
  import opened Wire
  import opened Conf
  import opened Messages

  /** Who knocks on what, with which key. */
  datatype Knocker = Knocker(user: UserId, resource: ResourceId, key: Key)

  /** The first message: Knock or Close, authenticated without a challenge. */
  function InitialMsg(mac: Mac, k: Knocker, op: Operation, salt: Salt): (m: Message)
    ensures m.auth == mac(k.key, AuthInput(m, ZERO_AUTH)) && m.salt == salt
    ensures m.operation == op && m.user == k.user && m.resource == k.resource
  {
    var m := NewMessage(op, k.user, k.resource, salt);
    m.(auth := Authenticate(mac, k.key, m, ZERO_AUTH))
  }

  /** The answer to a challenge. */
  function ResponseMsg(mac: Mac, k: Knocker, challenge: Message, salt: Salt): (m: Message)
    ensures m.auth == mac(k.key, AuthInput(m, challenge.auth)) && m.salt == salt
    ensures m.operation == Response && m.user == k.user && m.resource == k.resource
  {
    var m := NewMessage(Response, k.user, k.resource, salt);
    m.(auth := Authenticate(mac, k.key, m, challenge.auth))
  }

  /** Accept only the wanted operation; GoAway, anything else, and a lost connection are errors. */
  function RecvSpecific(rx: Option<Message>, want: Operation): (r: Option<Message>)
    ensures r.Some? <==> rx.Some? && rx.value.operation == want && want != GoAway
    ensures r.Some? ==> r == rx
  {
    if rx.None? || rx.value.operation == GoAway || rx.value.operation != want then None else rx
  }

  /** Outcome of each exchange with the server, in order. */
  datatype ClientEnv = ClientEnv(tx1: bool, rx1: Option<Message>, tx2: bool, rx2: Option<Message>)

  /**
   * What the client does: it sends the initial message; it sends a response, with the token for the
   * challenge, iff a Challenge came back; and it succeeds iff a ComeIn followed.
   */
  ghost predicate Plays(mac: Mac, k: Knocker, op: Operation, salt1: Salt, salt2: Salt, env: ClientEnv,
      sent: seq<Message>, ok: bool) {
    && 1 <= |sent| <= 2 && sent[0] == InitialMsg(mac, k, op, salt1)
    && (|sent| == 2 <==> env.tx1 && RecvSpecific(env.rx1, Challenge).Some?)
    && (|sent| == 2 ==> sent[1] == ResponseMsg(mac, k, env.rx1.value, salt2))
    && (ok <==> |sent| == 2 && env.tx2 && RecvSpecific(env.rx2, ComeIn).Some?)
  }

  /** The knock or close sequence. */
  method Sequence(mac: Mac, k: Knocker, op: Operation, salt1: Salt, salt2: Salt, env: ClientEnv)
    returns (ok: bool, sent: seq<Message>)
    requires op == Knock || op == Close
    ensures Plays(mac, k, op, salt1, salt2, env, sent, ok)
  {
    var initial := InitialMsg(mac, k, op, salt1);
    sent := [initial];
    if !env.tx1 {
      return false, sent;
    }
    var challenge := RecvSpecific(env.rx1, Challenge);
    if challenge.None? {
      return false, sent;
    }
    var response := ResponseMsg(mac, k, challenge.value, salt2);
    sent := sent + [response];
    if !env.tx2 {
      return false, sent;
    }
    var comein := RecvSpecific(env.rx2, ComeIn);
    return comein.Some?, sent;
  }
}
