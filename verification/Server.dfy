/** Any number of sessions side by side on one server. */
module Server {
  import opened Wire
  import opened Addr
  import opened Conf
  import opened Messages
  import opened FirewallMessages
  import opened Nftables
  import opened Sessions
  import Firewall

  datatype Act =
    | Start(sid: nat, peer: IpAddr, nonce: Auth, salt: Salt, endSalt: Salt)
    | Receive(sid: nat, input: Input)

  type System = map<nat, Session>

  function Next(conf: Config, mac: Mac, sys: System, a: Act): System {
    match a
    case Start(sid, peer, nonce, salt, endSalt) =>
      if sid in sys then sys else sys[sid := NewSession(peer, nonce, salt, endSalt)]
    case Receive(sid, x) =>
      if sid in sys then sys[sid := Deliver(conf, mac, sys[sid], x)] else sys
  }

  /** The system after an interleaving of session starts and inputs. */
  function After(conf: Config, mac: Mac, acts: seq<Act>): System {
    if acts == [] then map[] else Next(conf, mac, After(conf, mac, acts[..|acts| - 1]), acts[|acts| - 1])
  }

  lemma NewSessionInv(conf: Config, mac: Mac, s: Session)
    requires s == NewSession(s.peer, s.nonce, s.salt, s.endSalt)
    ensures SessionInv(conf, mac, s)
  {
  }

  lemma DeliverFrame(conf: Config, mac: Mac, s: Session, x: Input)
    ensures Deliver(conf, mac, s, x).nonce == s.nonce && Deliver(conf, mac, s, x).peer == s.peer
  {
  }

  /** In every interleaving each session keeps its invariant. */
  lemma {:induction false} SystemInv(conf: Config, mac: Mac, acts: seq<Act>, sid: nat)
    requires sid in After(conf, mac, acts)
    ensures SessionInv(conf, mac, After(conf, mac, acts)[sid])
    decreases |acts|
  {
    var m := |acts| - 1;
    var sys := After(conf, mac, acts[..m]);
    if sid in sys {
      SystemInv(conf, mac, acts[..m], sid);
      if acts[m].Receive? && acts[m].sid == sid {
        DeliverKeeps(conf, mac, sys[sid], acts[m].input);
      }
    } else {
      NewSessionInv(conf, mac, After(conf, mac, acts)[sid]);
    }
  }

  /** The start that created a session. */
  lemma {:induction false} Origin(conf: Config, mac: Mac, acts: seq<Act>, sid: nat) returns (i: nat)
    requires sid in After(conf, mac, acts)
    ensures i < |acts| && acts[i].Start? && acts[i].sid == sid
    ensures acts[i].nonce == After(conf, mac, acts)[sid].nonce && acts[i].peer == After(conf, mac, acts)[sid].peer
    decreases |acts|
  {
    var m := |acts| - 1;
    var sys := After(conf, mac, acts[..m]);
    if sid in sys {
      i := Origin(conf, mac, acts[..m], sid);
      if acts[m].Receive? && acts[m].sid == sid {
        DeliverFrame(conf, mac, sys[sid], acts[m].input);
      }
    } else {
      i := m;
    }
  }

  /** Challenges are drawn from a random source and do not repeat. */
  ghost predicate DistinctNonces(acts: seq<Act>) {
    forall i, j :: 0 <= i < j < |acts| && acts[i].Start? && acts[j].Start? ==> acts[i].nonce != acts[j].nonce
  }

  /** The session reached full authentication with this response message. */
  predicate AuthenticatedBy(s: Session, m: Message) {
    s.auth == ChallengeResponseAuth && |s.log| >= 3 && s.log[2] == Got(m)
  }

  lemma TokenIn(conf: Config, mac: Mac, acts: seq<Act>, sid: nat, m: Message)
    requires sid in After(conf, mac, acts) && AuthenticatedBy(After(conf, mac, acts)[sid], m)
    ensures m.user in conf.keys && CheckAuth(mac, conf.keys[m.user], m, After(conf, mac, acts)[sid].nonce)
  {
    SystemInv(conf, mac, acts, sid);
  }

  lemma NoncesDiffer(conf: Config, mac: Mac, acts: seq<Act>, a: nat, b: nat)
    requires DistinctNonces(acts) && a != b && a in After(conf, mac, acts) && b in After(conf, mac, acts)
    ensures After(conf, mac, acts)[a].nonce != After(conf, mac, acts)[b].nonce
  {
    var i := Origin(conf, mac, acts, a);
    var j := Origin(conf, mac, acts, b);
  }

  /**
   * Freshness: however sessions are interleaved and whatever is sent to them, one response message
   * fully authenticates at most one session, unless the token function collides on two different
   * inputs that are given here.
   */
  lemma OneResponseOneSession(conf: Config, mac: Mac, acts: seq<Act>, a: nat, b: nat, m: Message)
    requires DistinctNonces(acts) && a != b
    requires a in After(conf, mac, acts) && AuthenticatedBy(After(conf, mac, acts)[a], m)
    requires b in After(conf, mac, acts) && AuthenticatedBy(After(conf, mac, acts)[b], m)
    ensures m.user in conf.keys
    ensures var sys := After(conf, mac, acts);
            Collision(mac, conf.keys[m.user], AuthInput(m, sys[a].nonce), AuthInput(m, sys[b].nonce))
  {
    var s, t := After(conf, mac, acts)[a], After(conf, mac, acts)[b];
    TokenIn(conf, mac, acts, a, m);
    TokenIn(conf, mac, acts, b, m);
    NoncesDiffer(conf, mac, acts, a, b);
    SameTokenAgrees(mac, conf.keys[m.user], m, s.nonce, m, t.nonce);
  }

  /**
   * Agreement: if the token of an authenticating response was made by a client that knows the key,
   * then the client meant this user, this resource and this session's challenge, with this salt,
   * unless the token function collides on the two inputs given here.
   */
  lemma ResponseAgreement(conf: Config, mac: Mac, acts: seq<Act>, sid: nat, m: Message, made: Message, c: Auth)
    requires sid in After(conf, mac, acts) && AuthenticatedBy(After(conf, mac, acts)[sid], m)
    requires m.user in conf.keys && CheckAuth(mac, conf.keys[m.user], made, c) && made.auth == m.auth
    ensures var nonce := After(conf, mac, acts)[sid].nonce;
            Collision(mac, conf.keys[m.user], AuthInput(m, nonce), AuthInput(made, c)) || (made == m && c == nonce)
  {
    TokenIn(conf, mac, acts, sid, m);
    SameTokenAgrees(mac, conf.keys[m.user], m, After(conf, mac, acts)[sid].nonce, made, c);
  }

  // ---------- Requests to the firewall ----------

  function LeasePortOf(t: PortType, port: u16): LeasePort {
    match t
    case TcpType => TcpPort(port)
    case UdpType => UdpPort(port)
    case TcpUdpType => TcpUdpPort(port)
  }

  /** The lease port covers exactly the protocols of the resource. */
  lemma LeaseCoversResource(r: Resource, proto: Proto)
    requires r.tcp || r.udp
    ensures SinglePort(proto, r.port) in LeasePortOf(PortTypeFor(r), r.port).Singles()
         <==> if proto.Tcp? then r.tcp else r.udp
  {
  }

  /** The type that the configuration gives to each port number. */
  ghost function TypingOf(conf: Config): Firewall.Typing {
    (port: u16) =>
      if exists id :: id in conf.resources && conf.resources[id].port == port then
        var id :| id in conf.resources && conf.resources[id].port == port;
        LeasePortOf(PortTypeFor(conf.resources[id]), port)
      else TcpPort(port)
  }

  /** A port is used by one resource only, so its type is determined. */
  lemma TypingDetermined(conf: Config, id: ResourceId)
    requires TablesOk(conf) && id in conf.resources
    ensures var r := conf.resources[id]; TypingOf(conf)(r.port) == LeasePortOf(PortTypeFor(r), r.port)
  {
    var r := conf.resources[id];
    assert exists i :: i in conf.resources && conf.resources[i].port == r.port;
    forall i | i in conf.resources && conf.resources[i].port == r.port ensures i == id {
    }
  }

  /**
   * All requests of all sessions are for the session's own peer, for a configured port that is not
   * the control port, and with the one type that belongs to this port.
   */
  lemma RequestsAreTyped(conf: Config, mac: Mac, acts: seq<Act>, sid: nat, i: nat)
    requires TablesOk(conf) && sid in After(conf, mac, acts)
    requires var s := After(conf, mac, acts)[sid]; i < |s.log| && s.log[i].Asked?
    ensures var s := After(conf, mac, acts)[sid];
            var e := s.log[i];
            && e.addr == s.peer && e.port != conf.port.port
            && (exists id <- conf.resources :: conf.resources[id].port == e.port)
            && Firewall.Typed(TypingOf(conf), LeaseId(e.addr, LeasePortOf(e.portType, e.port)))
  {
    SystemInv(conf, mac, acts, sid);
    var s := After(conf, mac, acts)[sid];
    assert i == 3 && FullPassed(conf, mac, s.nonce, s.log[..3]);
    var first := s.log[0].msg;
    assert s.log[..3][0] == s.log[0] && Permitted(conf, first);
    TypingDetermined(conf, first.resource);
  }
}
