/** letmeinfwd's side of the Unix socket. */
module FirewallServer {
  import opened Wire
  import opened Addr
  import opened Conf
  import opened FirewallMessages
  import opened Nftables
  import opened Firewall
  import opened NftFirewalls
  import opened Server

  /** Big-endian value of any number of bytes, and the largest such value. */
  function BeValue(o: seq<byte>): nat {
    if o == [] then 0 else BeValue(o[..|o| - 1]) * 0x100 + o[|o| - 1]
  }

  function BeMax(n: nat): nat {
    if n == 0 then 0 else BeMax(n - 1) * 0x100 + 0xFF
  }

  predicate AllBytes(o: seq<byte>, b: byte) {
    forall i :: 0 <= i < |o| ==> o[i] == b
  }

  lemma {:induction false} BeValueExtremes(o: seq<byte>)
    ensures BeValue(o) <= BeMax(|o|)
    ensures BeValue(o) == 0 <==> AllBytes(o, 0)
    ensures BeValue(o) == BeMax(|o|) <==> AllBytes(o, 0xFF)
  {
    if o != [] {
      var init, last := o[..|o| - 1], o[|o| - 1];
      BeValueExtremes(init);
      assert forall b: byte :: AllBytes(o, b) <==> AllBytes(init, b) && last == b;
    }
  }

  /** An address whose bytes are not all zeros and not all ones. */
  predicate AddrOk(a: IpAddr) {
    match a
    case V4(o) => !AllBytes(o, 0) && !AllBytes(o, 0xFF)
    case V6(o) => !AllBytes(o, 0) && !AllBytes(o, 0xFF)
  }

  /** Basic sanity of an address: as a number it is neither zero nor the maximum. */
  method AddrCheck(a: IpAddr) returns (ok: bool)
    ensures ok <==> AddrOk(a)
  {
    var o := if a.V4? then a.o4 else a.o6;
    BeValueExtremes(o);
    var n := BeValue(o);
    ok := n != 0 && n != BeMax(|o|);
  }

  /** A resource with this port that the user, if one is given, may use. */
  ghost predicate Offers(conf: Config, id: ResourceId, port: u16, user: Option<UserId>) {
    && id in conf.resources && conf.resources[id].port == port
    && (user.Some? ==> conf.resources[id].users == [] || user.value in conf.resources[id].users)
  }

  /** Search the resources in any order. With unique ports the order makes no difference. */
  method ResourceIdByPort(conf: Config, port: u16, user: Option<UserId>) returns (r: Option<ResourceId>)
    ensures r.Some? ==> Offers(conf, r.value, port, user)
    ensures r.None? ==> forall id <- conf.resources :: !Offers(conf, id, port, user)
    ensures TablesOk(conf) ==> forall id <- conf.resources :: Offers(conf, id, port, user) ==> r == Some(id)
  {
    var todo := conf.resources.Keys;
    while todo != {}
      invariant todo <= conf.resources.Keys
      invariant forall id <- conf.resources :: id !in todo ==> !Offers(conf, id, port, user)
      decreases todo
    {
      var id :| id in todo;
      var r := conf.resources[id];
      if r.port == port {
        if user.None? || r.ContainsUser(user.value) {
          return Some(id);
        }
      }
      todo := todo - {id};
    }
    return None;
  }

  /** What a request must satisfy to reach the firewall. */
  ghost predicate Acceptable(conf: Config, m: FwMessage) {
    && (m.operation == FwOpen || m.operation == FwClose) && AddrOk(m.GetAddr().value)
    && m.port != conf.port.port
    && exists id <- conf.resources :: conf.resources[id].port == m.port
  }

  function LeaseIdOf(m: FwMessage): LeaseId
    requires m.IsRequest()
  {
    LeaseId(m.GetAddr().value, LeasePortOf(m.portType, m.port))
  }

  /** The effect of an accepted request on the firewall, and its outcome. */
  ghost predicate Served(conf: Config, n: Names, s: State, m: FwMessage, now: int, done: bool, e: Event, s': State)
    requires m.IsRequest()
  {
    && Step(conf, n, s, e, s') && e.ok == done
    && if m.operation == FwOpen then e == Open(LeaseIdOf(m), now, done)
       else e.Close? && e.id == LeaseIdOf(m)
  }

  /**
   * Handle one frame from the socket. Any bytes may arrive; `frame` is None when the peer disconnected.
   * The firewall is reached exactly with acceptable requests, and Ack is sent exactly when it succeeded.
   */
  method HandleMessage(fw: NftFirewall, frame: Option<seq<byte>>, now: int)
    returns (ok: bool, reply: Option<FwMessage>, ghost e: Option<Event>)
    requires fw.Valid() && !fw.shutdown
    modifies fw.kernel`st, fw`leases
    ensures fw.Valid()
    ensures e.Some? <==> frame.Some? && FwParse(frame.value).Some? && Acceptable(fw.conf, FwParse(frame.value).value)
    ensures e.Some? ==> Served(fw.conf, fw.N(), old(fw.St()), FwParse(frame.value).value, now,
                               reply == Some(Reply(FwAck)), e.value, fw.St())
    ensures e.None? ==> fw.St() == old(fw.St())
    ensures reply.Some? <==> frame.Some? && FwParse(frame.value).Some?
                             && (FwParse(frame.value).value.operation == FwOpen
                                 || FwParse(frame.value).value.operation == FwClose)
    ensures reply.Some? ==> reply.value.operation == FwAck || reply.value.operation == FwNack
    ensures reply.Some? ==> reply.value == Reply(reply.value.operation)
    ensures (ok <==> e.Some?) && (e.None? && reply.Some? ==> reply.value.operation == FwNack)
    ensures e.Some? && !fw.kernel.faulty && CanServe(fw.conf, e.value.id.addr) ==> reply == Some(Reply(FwAck))
    ensures e.Some? && !fw.kernel.faulty && e.value.Close? ==> e.value.clean
  {
    e := None;
    if frame.None? {
      return false, None, e;
    }
    var parsed := FwParse(frame.value);
    if parsed.None? {
      return false, None, e;
    }
    var m := parsed.value;
    var addr := m.GetAddr();
    if addr.None? {
      return false, None, e;
    }
    var sane := AddrCheck(addr.value);
    if !sane {
      return false, Some(Reply(FwNack)), e;
    }
    var resource := ResourceIdByPort(fw.conf, m.port, None);
    if resource.None? {
      assert forall id <- fw.conf.resources :: !Offers(fw.conf, id, m.port, None);
      return false, Some(Reply(FwNack)), e;
    }
    if m.port == fw.conf.port.port {
      return false, Some(Reply(FwNack)), e;
    }
    assert Offers(fw.conf, resource.value, m.port, None);
    var id := LeaseId(addr.value, LeasePortOf(m.portType, m.port));
    var done;
    if m.operation == FwOpen {
      done := fw.OpenPort(id, now);
      e := Some(Open(id, now, done));
    } else {
      ghost var clean, gone;
      done, clean, gone := fw.ClosePort(id, now);
      e := Some(Close(id, done, clean, gone));
    }
    return true, Some(Reply(if done then FwAck else FwNack)), e;
  }

  /**
   * Acceptable requests, byte by byte: 24 bytes, operation 2 or 3, port type up to 2, address type 0
   * (sixteen octets) or 1 (the last four of them), octets not all zeros and not all ones, and the port of
   * a resource that is not the control port.
   */
  lemma AcceptableBytes(conf: Config, b: seq<byte>)
    ensures FwParse(b).Some? && Acceptable(conf, FwParse(b).value) <==>
              && |b| == 24 && b[0] == 0 && (b[1] == 2 || b[1] == 3) && b[2] == 0 && b[3] <= 2 && b[6] == 0 && b[7] <= 1
              && (exists i :: (if b[7] == 1 then 20 else 8) <= i < 24 && b[i] != 0)
              && (exists i :: (if b[7] == 1 then 20 else 8) <= i < 24 && b[i] != 0xFF)
              && b[4] as int * 0x100 + b[5] as int != conf.port.port
              && exists id <- conf.resources :: conf.resources[id].port == b[4] as int * 0x100 + b[5] as int
  {
    FwRejectedIff(b);
    if FwParse(b).Some? {
      var m := FwParse(b).value;
      FwBytesParse(b);
      FirewallMessages.Layout(m);
      if m.operation == FwOpen || m.operation == FwClose {
        AddrBytes(b, m);
      }
    } else if |b| == 24 {
      var hi0: int, hi1: int, hi3: int := b[0], b[2], b[6];
      assert U16Value(b[0..2]) == hi0 * 0x100 + b[1] && U16Value(b[2..4]) == hi1 * 0x100 + b[3];
      assert U16Value(b[6..8]) == hi3 * 0x100 + b[7];
    }
  }

  /** The address of a request is sane iff its octets are not all zeros and not all ones. */
  lemma AddrBytes(b: seq<byte>, m: FwMessage)
    requires |b| == 24 && m.addr == b[8..24] && m.addrType == (if b[7] == 1 then Ipv4 else Ipv6)
    ensures AddrOk(OctetsToAddr(m.addrType, m.addr)) <==>
              && (exists i :: (if b[7] == 1 then 20 else 8) <= i < 24 && b[i] != 0)
              && (exists i :: (if b[7] == 1 then 20 else 8) <= i < 24 && b[i] != 0xFF)
  {
    var a := OctetsToAddr(m.addrType, m.addr);
    var first := if b[7] == 1 then 20 else 8;
    var o := if a.V4? then a.o4 else a.o6;
    assert |o| == 24 - first && forall i :: 0 <= i < |o| ==> o[i] == b[first + i];
    assert forall i :: first <= i < 24 ==> b[i] == o[i - first];
  }

  /** A request built by letmeind arrives as exactly the request that was made. */
  lemma RequestArrives(op: FwOperation, addr: IpAddr, portType: PortType, port: u16)
    requires op == FwOpen || op == FwClose
    ensures var m := FwParse(FwBytes(Request(op, addr, portType, port)));
            m.Some? && m.value.operation == op && m.value.IsRequest() && m.value.port == port
            && LeaseIdOf(m.value) == LeaseId(addr, LeasePortOf(portType, port))
  {
    FwParseBytes(Request(op, addr, portType, port));
    RequestFields(op, addr, portType, port);
  }
}
