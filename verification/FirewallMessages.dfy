/** The request/reply message between letmeind and letmeinfwd. */
module FirewallMessages {
  import opened Wire
  import opened Addr

  const FWMSG_SIZE := 24

  datatype FwOperation = FwNack | FwAck | FwOpen | FwClose
  datatype PortType = TcpType | UdpType | TcpUdpType
  datatype AddrType = Ipv6 | Ipv4

  function FwOpCode(op: FwOperation): u16 {
    match op case FwNack => 0 case FwAck => 1 case FwOpen => 2 case FwClose => 3
  }

  function FwOpOf(n: u16): (op: Option<FwOperation>)
    ensures op.Some? ==> FwOpCode(op.value) == n
  {
    if n == 0 then Some(FwNack) else if n == 1 then Some(FwAck)
    else if n == 2 then Some(FwOpen) else if n == 3 then Some(FwClose) else None
  }

  function PortTypeCode(t: PortType): u16 {
    match t case TcpType => 0 case UdpType => 1 case TcpUdpType => 2
  }

  function PortTypeOf(n: u16): (t: Option<PortType>)
    ensures t.Some? ==> PortTypeCode(t.value) == n
  {
    if n == 0 then Some(TcpType) else if n == 1 then Some(UdpType) else if n == 2 then Some(TcpUdpType) else None
  }

  function AddrTypeCode(t: AddrType): u16 {
    match t case Ipv6 => 0 case Ipv4 => 1
  }

  function AddrTypeOf(n: u16): (t: Option<AddrType>)
    ensures t.Some? ==> AddrTypeCode(t.value) == n
  {
    if n == 0 then Some(Ipv6) else if n == 1 then Some(Ipv4) else None
  }

  datatype FwMessage = FwMessage(
    operation: FwOperation, portType: PortType, port: u16, addrType: AddrType, addr: Octets16)
  {
    predicate IsRequest() { operation == FwOpen || operation == FwClose }

    /** The address of a request; replies have none. */
    function GetAddr(): Option<IpAddr> {
      if IsRequest() then Some(OctetsToAddr(addrType, addr)) else None
    }

    function GetPort(): Option<(PortType, u16)> {
      if IsRequest() then Some((portType, port)) else None
    }
  }

  const ZEROS12: seq<byte> := [0, 0, 0, 0, 0, 0, 0, 0, 0, 0, 0, 0]
  const ZEROS16: Octets16 := [0, 0, 0, 0, 0, 0, 0, 0, 0, 0, 0, 0, 0, 0, 0, 0]

  function AddrToOctets(a: IpAddr): (AddrType, Octets16) {
    match a
    case V4(o) => (Ipv4, ZEROS12 + o)
    case V6(o) => (Ipv6, o)
  }

  function OctetsToAddr(t: AddrType, o: Octets16): IpAddr {
    match t
    case Ipv4 => V4([o[12], o[13], o[14], o[15]])
    case Ipv6 => V6(o)
  }

  function Request(op: FwOperation, addr: IpAddr, portType: PortType, port: u16): FwMessage {
    var (t, o) := AddrToOctets(addr);
    FwMessage(op, portType, port, t, o)
  }

  function Reply(op: FwOperation): FwMessage {
    FwMessage(op, TcpType, 0, Ipv6, ZEROS16)
  }

  /** Packing an address and unpacking it gives the same address. */
  lemma OctetsRoundTrip(a: IpAddr)
    ensures var (t, o) := AddrToOctets(a); OctetsToAddr(t, o) == a
  {
    if a.V4? {
      assert OctetsToAddr(Ipv4, ZEROS12 + a.o4).o4 == a.o4;
    }
  }

  /** Unpacking and packing again restores the octets iff the padding of an IPv4 address is zero. */
  lemma PackedIffPadded(t: AddrType, o: Octets16)
    ensures AddrToOctets(OctetsToAddr(t, o)) == (t, o) <==> t == Ipv6 || o[..12] == ZEROS12
  {
    if t == Ipv4 {
      assert o == o[..12] + [o[12], o[13], o[14], o[15]];
      assert (ZEROS12 + OctetsToAddr(t, o).o4)[..12] == ZEROS12;
    }
  }

  /** A request carries exactly the address, type and port it was made from. */
  lemma RequestFields(op: FwOperation, addr: IpAddr, portType: PortType, port: u16)
    requires op == FwOpen || op == FwClose
    ensures var m := Request(op, addr, portType, port);
            m.operation == op && m.GetAddr() == Some(addr) && m.GetPort() == Some((portType, port))
  {
    OctetsRoundTrip(addr);
  }

  /** The 24 bytes on the Unix socket. */
  function FwBytes(m: FwMessage): (b: seq<byte>)
    ensures |b| == FWMSG_SIZE
  {
    U16Bytes(FwOpCode(m.operation)) + U16Bytes(PortTypeCode(m.portType)) + U16Bytes(m.port)
    + U16Bytes(AddrTypeCode(m.addrType)) + m.addr
  }

  function FwParse(b: seq<byte>): Option<FwMessage> {
    if |b| != FWMSG_SIZE then None
    else
      var op, pt, at := FwOpOf(U16Value(b[0..2])), PortTypeOf(U16Value(b[2..4])), AddrTypeOf(U16Value(b[6..8]));
      if op.None? || pt.None? || at.None? then None
      else Some(FwMessage(op.value, pt.value, U16Value(b[4..6]), at.value, b[8..24]))
  }

  lemma FwParseBytes(m: FwMessage)
    ensures FwParse(FwBytes(m)) == Some(m)
  {
    var b := FwBytes(m);
    assert b[0..2] == U16Bytes(FwOpCode(m.operation)) && b[2..4] == U16Bytes(PortTypeCode(m.portType));
    assert b[4..6] == U16Bytes(m.port) && b[6..8] == U16Bytes(AddrTypeCode(m.addrType)) && b[8..24] == m.addr;
  }

  lemma FwBytesParse(b: seq<byte>)
    requires FwParse(b).Some?
    ensures FwBytes(FwParse(b).value) == b
  {
    U16BytesOfValue(b[0..2]);
    U16BytesOfValue(b[2..4]);
    U16BytesOfValue(b[4..6]);
    U16BytesOfValue(b[6..8]);
    assert b == b[0..2] + b[2..4] + b[4..6] + b[6..8] + b[8..24];
  }

  /** The layout of a request, byte by byte. */
  lemma RequestLayout(o: Octets4, port: u16)
    ensures FwBytes(Request(FwOpen, V4(o), UdpType, port)) == [0, 2, 0, 1] + U16Bytes(port) + [0, 1] + ZEROS12 + o
  {
    assert U16Bytes(2) == [0, 2] && U16Bytes(1) == [0, 1];
  }

  /**
   * The layout of every message: operation, port type, port, address type, and 16 address bytes, of
   * which an IPv4 address takes the last four.
   */
  lemma Layout(m: FwMessage)
    ensures var b := FwBytes(m);
            && |b| == 24 && b[0] == 0 && b[2] == 0 && b[6] == 0 && b[8..24] == m.addr
            && b[4] as int * 0x100 + b[5] as int == m.port
            && b[1] == (match m.operation case FwNack => 0 case FwAck => 1 case FwOpen => 2 case FwClose => 3)
            && b[3] == (match m.portType case TcpType => 0 case UdpType => 1 case TcpUdpType => 2)
            && b[7] == (match m.addrType case Ipv6 => 0 case Ipv4 => 1)
    ensures m.operation == FwOpen || m.operation == FwClose ==>
              m.GetAddr() == Some(match m.addrType case Ipv6 => V6(m.addr) case Ipv4 => V4(m.addr[12..16]))
    ensures m.operation == FwNack || m.operation == FwAck ==> m.GetAddr().None?
  {
    U16Weights(m.port);
    assert m.addr[12..16] == [m.addr[12], m.addr[13], m.addr[14], m.addr[15]];
  }

  /** A reply is its operation number and zeros. */
  lemma ReplyLayout(op: FwOperation)
    ensures FwBytes(Reply(op))[0] == 0
    ensures FwBytes(Reply(op))[1] == match op case FwNack => 0 case FwAck => 1 case FwOpen => 2 case FwClose => 3
    ensures forall i :: 2 <= i < 24 ==> FwBytes(Reply(op))[i] == 0
  {
    var b := FwBytes(Reply(op));
    Layout(Reply(op));
    forall i | 8 <= i < 24 ensures b[i] == 0 {
      assert b[i] == b[8..24][i - 8];
    }
  }

  /** A byte string is rejected iff its size is wrong or one of its three enumerations is out of range. */
  lemma FwRejectedIff(b: seq<byte>)
    ensures FwParse(b).None? <==>
              |b| != 24 || U16Value(b[0..2]) > 3 || U16Value(b[2..4]) > 2 || U16Value(b[6..8]) > 1
  {
  }

  method Serialize(m: FwMessage) returns (buf: array<byte>)
    ensures fresh(buf) && buf[..] == FwBytes(m)
  {
    buf := new byte[FWMSG_SIZE](i => 0);
    CopyInto(buf, 0, U16Bytes(FwOpCode(m.operation)));
    CopyInto(buf, 2, U16Bytes(PortTypeCode(m.portType)));
    CopyInto(buf, 4, U16Bytes(m.port));
    CopyInto(buf, 6, U16Bytes(AddrTypeCode(m.addrType)));
    CopyInto(buf, 8, m.addr);
  }
}
