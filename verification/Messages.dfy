/** The control message between client and server: layout, codec and authentication input. */
module Messages {
  import opened Wire
  import opened Conf

  const MAGIC: u32 := 0x3B1BB719
  const MSG_SIZE := 56

  type Salt = s: seq<byte> | |s| == 8 witness [0, 0, 0, 0, 0, 0, 0, 0]
  type Auth = a: seq<byte> | |a| == 32 witness [0, 0, 0, 0, 0, 0, 0, 0, 0, 0, 0, 0, 0, 0, 0, 0,
   0, 0, 0, 0, 0, 0, 0, 0, 0, 0, 0, 0, 0, 0, 0, 0]

  const ZERO_AUTH: Auth := [0, 0, 0, 0, 0, 0, 0, 0, 0, 0, 0, 0, 0, 0, 0, 0,
   0, 0, 0, 0, 0, 0, 0, 0, 0, 0, 0, 0, 0, 0, 0, 0]

  datatype Operation = Knock | Challenge | Response | ComeIn | GoAway | Close

  function OpCode(op: Operation): u32 {
    match op case Knock => 0 case Challenge => 1 case Response => 2 case ComeIn => 3 case GoAway => 4 case Close => 5
  }

  function OpOf(n: u32): (op: Option<Operation>)
    ensures op.Some? ==> OpCode(op.value) == n
  {
    match n
    case 0 => Some(Knock)
    case 1 => Some(Challenge)
    case 2 => Some(Response)
    case 3 => Some(ComeIn)
    case 4 => Some(GoAway)
    case 5 => Some(Close)
    case _ => None
  }

  datatype Message = Message(operation: Operation, user: UserId, resource: ResourceId, salt: Salt, auth: Auth)

  /** A new message; the salt comes from the random source. */
  function NewMessage(op: Operation, user: UserId, resource: ResourceId, salt: Salt): Message {
    Message(op, user, resource, salt, ZERO_AUTH)
  }

  /** The fields a message's authentication covers, apart from the challenge. */
  function Head(m: Message): (b: seq<byte>)
    ensures |b| == 20
  {
    U32Bytes(OpCode(m.operation)) + U32Bytes(m.user) + U32Bytes(m.resource) + m.salt
  }

  /** The 56 bytes on the wire. */
  function Bytes(m: Message): (b: seq<byte>)
    ensures |b| == MSG_SIZE
  {
    U32Bytes(MAGIC) + Head(m) + m.auth
  }

  /** Decoding: wrong size, wrong magic and unknown operations are errors. */
  function Parse(b: seq<byte>): Option<Message> {
    if |b| != MSG_SIZE then None
    else
      var magic := U32Value(b[0..4]);
      var operation := OpOf(U32Value(b[4..8]));
      if magic != MAGIC || operation.None? then None
      else Some(Message(operation.value, U32Value(b[8..12]), U32Value(b[12..16]), b[16..24], b[24..56]))
  }

  /** Where each field of the head sits. */
  lemma HeadFields(m: Message)
    ensures Head(m)[..4] == U32Bytes(OpCode(m.operation)) && Head(m)[4..8] == U32Bytes(m.user)
    ensures Head(m)[8..12] == U32Bytes(m.resource) && Head(m)[12..] == m.salt
  {
  }

  lemma BytesFields(m: Message)
    ensures Bytes(m)[0..4] == U32Bytes(MAGIC) && Bytes(m)[4..24] == Head(m) && Bytes(m)[24..56] == m.auth
    ensures Bytes(m)[4..8] == Head(m)[..4] && Bytes(m)[8..12] == Head(m)[4..8]
    ensures Bytes(m)[12..16] == Head(m)[8..12] && Bytes(m)[16..24] == Head(m)[12..]
  {
  }

  /** Every message survives encoding and decoding. */
  lemma ParseBytes(m: Message)
    ensures Parse(Bytes(m)) == Some(m)
  {
    BytesFields(m);
    HeadFields(m);
  }

  /** Every accepted byte string is the encoding of what it decodes to. */
  lemma BytesParse(b: seq<byte>)
    requires Parse(b).Some?
    ensures Bytes(Parse(b).value) == b
  {
    var m := Parse(b).value;
    U32BytesOfValue(b[0..4]);
    U32BytesOfValue(b[4..8]);
    U32BytesOfValue(b[8..12]);
    U32BytesOfValue(b[12..16]);
    assert b == b[0..4] + (b[4..8] + b[8..12] + b[12..16] + b[16..24]) + b[24..56];
  }

  /** The layout of one message, byte by byte, for any salt byte. */
  lemma RawLayout(x: byte)
    ensures Bytes(Message(ComeIn, 0xF90201B2, 0xB3E46B6C, [x, x, x, x, x, x, x, x], ZERO_AUTH)) ==
            [0x3B, 0x1B, 0xB7, 0x19, 0, 0, 0, 3, 0xF9, 0x02, 0x01, 0xB2, 0xB3, 0xE4, 0x6B, 0x6C] +
            [x, x, x, x, x, x, x, x] + ZERO_AUTH
  {
    MagicBytes();
    FieldBytes();
    LayoutOf(Message(ComeIn, 0xF90201B2, 0xB3E46B6C, [x, x, x, x, x, x, x, x], ZERO_AUTH));
  }

  lemma FieldBytes()
    ensures U32Bytes(3) == [0, 0, 0, 3]
    ensures U32Bytes(0xF90201B2) == [0xF9, 0x02, 0x01, 0xB2] && U32Bytes(0xB3E46B6C) == [0xB3, 0xE4, 0x6B, 0x6C]
  {
    U32BytesFrom(0, 3);
    U32BytesFrom(0xF902, 0x01B2);
    U32BytesFrom(0xB3E4, 0x6B6C);
  }

  lemma MagicBytes()
    ensures U32Bytes(MAGIC) == [0x3B, 0x1B, 0xB7, 0x19]
  {
    U32BytesFrom(0x3B1B, 0xB719);
  }

  lemma LayoutOf(m: Message)
    ensures Bytes(m) == (U32Bytes(MAGIC) + U32Bytes(OpCode(m.operation)) + U32Bytes(m.user) + U32Bytes(m.resource))
                        + m.salt + m.auth
  {
  }

  /** The four bytes from `i` on, with the first one weighing most, stand for `n`. */
  ghost predicate U32At(b: seq<byte>, i: nat, n: u32) {
    && i + 4 <= |b|
    && b[i] as int * 0x100_0000 + b[i + 1] as int * 0x1_0000 + b[i + 2] as int * 0x100 + b[i + 3] as int == n
  }

  ghost predicate OperationAt(b: seq<byte>, i: nat, op: Operation) {
    i + 4 <= |b| && b[i..i + 3] == [0, 0, 0]
    && match b[i + 3]
       case 0 => op == Knock
       case 1 => op == Challenge
       case 2 => op == Response
       case 3 => op == ComeIn
       case 4 => op == GoAway
       case 5 => op == Close
       case _ => false
  }

  /** The layout of every message: magic, operation number, user, resource, salt, token. */
  lemma Layout(m: Message)
    ensures var b := Bytes(m);
            && |b| == 56 && b[0..4] == [0x3B, 0x1B, 0xB7, 0x19] && OperationAt(b, 4, m.operation)
            && U32At(b, 8, m.user) && U32At(b, 12, m.resource) && b[16..24] == m.salt && b[24..56] == m.auth
  {
    MagicBytes();
    BytesFields(m);
    HeadLayout(m);
    var b, h := Bytes(m), Head(m);
    assert forall i :: 0 <= i < 20 ==> b[4 + i] == h[i] by {
      assert forall i :: 0 <= i < 20 ==> b[4..24][i] == h[i];
    }
  }

  lemma HeadLayout(m: Message)
    ensures var h := Head(m);
            OperationAt(h, 0, m.operation) && U32At(h, 4, m.user) && U32At(h, 8, m.resource) && h[12..20] == m.salt
  {
    HeadFields(m);
    var h, c, u, r := Head(m), U32Bytes(OpCode(m.operation)), U32Bytes(m.user), U32Bytes(m.resource);
    assert h[0..3] == c[..3] && h[3] == c[3];
    U32BytesFrom(0, OpCode(m.operation));
    U32Weights(m.user);
    U32Weights(m.resource);
    assert forall i :: 0 <= i < 4 ==> h[4 + i] == u[i] && h[8 + i] == r[i];
  }

  /** What is authenticated, in this order: operation number, user, resource, salt, challenge; none is 32 zeros. */
  lemma AuthLayout(m: Message, c: Auth)
    ensures var b := AuthInput(m, c);
            && |b| == 52 && OperationAt(b, 0, m.operation)
            && U32At(b, 4, m.user) && U32At(b, 8, m.resource) && b[12..20] == m.salt && b[20..52] == c
    ensures forall i :: 0 <= i < 32 ==> ZERO_AUTH[i] == 0
  {
    HeadLayout(m);
    assert forall i :: 0 <= i < 20 ==> AuthInput(m, c)[i] == Head(m)[i];
  }

  /** A byte string is rejected iff its size or magic is wrong or its operation number is above five. */
  lemma RejectedIff(b: seq<byte>)
    ensures Parse(b).None? <==> |b| != 56 || b[..4] != [0x3B, 0x1B, 0xB7, 0x19] || U32Value(b[4..8]) > 5
  {
    MagicBytes();
    if |b| == 56 {
      assert b[0..4] == b[..4];
      U32BytesOfValue(b[0..4]);
    }
  }

  /** The head determines operation, user, resource and salt. */
  lemma HeadInjective(m: Message, k: Message)
    requires Head(m) == Head(k)
    ensures m.operation == k.operation && m.user == k.user && m.resource == k.resource && m.salt == k.salt
  {
    HeadFields(m);
    HeadFields(k);
    assert U32Value(U32Bytes(OpCode(m.operation))) == U32Value(U32Bytes(OpCode(k.operation)));
    assert U32Value(U32Bytes(m.user)) == U32Value(U32Bytes(k.user));
    assert U32Value(U32Bytes(m.resource)) == U32Value(U32Bytes(k.resource));
  }

  // ---------- Authentication ----------

  /** HMAC-SHA3-256 (HMAC: section 2 of RFC 2104), left open: any function from key and bytes to a token. */
  type Mac = (Key, seq<byte>) -> Auth

  /** The bytes that are authenticated: head of the message, then the challenge. */
  function AuthInput(m: Message, challenge: Auth): seq<byte> {
    Head(m) + challenge
  }

  function Authenticate(mac: Mac, key: Key, m: Message, challenge: Auth): Auth {
    mac(key, AuthInput(m, challenge))
  }

  predicate CheckAuth(mac: Mac, key: Key, m: Message, challenge: Auth) {
    m.auth == Authenticate(mac, key, m, challenge)
  }

  /** The authenticated bytes determine operation, user, resource, salt and challenge. */
  lemma AuthInputInjective(m: Message, c: Auth, k: Message, d: Auth)
    requires AuthInput(m, c) == AuthInput(k, d)
    ensures m.operation == k.operation && m.user == k.user && m.resource == k.resource && m.salt == k.salt
    ensures c == d
  {
    assert AuthInput(m, c)[..20] == Head(m) && AuthInput(k, d)[..20] == Head(k);
    assert AuthInput(m, c)[20..] == c && AuthInput(k, d)[20..] == d;
    HeadInjective(m, k);
  }

  /** Two different inputs with the same token under the same key. */
  ghost predicate Collision(mac: Mac, key: Key, x: seq<byte>, y: seq<byte>) {
    x != y && mac(key, x) == mac(key, y)
  }

  /**
   * Agreement: if two messages carry the same valid token under one key, they agree on every
   * authenticated field and on the challenge, unless the token function collides on their inputs.
   */
  lemma SameTokenAgrees(mac: Mac, key: Key, m: Message, c: Auth, k: Message, d: Auth)
    requires CheckAuth(mac, key, m, c) && CheckAuth(mac, key, k, d) && m.auth == k.auth
    ensures Collision(mac, key, AuthInput(m, c), AuthInput(k, d)) || (m == k && c == d)
  {
    if AuthInput(m, c) == AuthInput(k, d) {
      AuthInputInjective(m, c, k, d);
    }
  }

  // ---------- Serialisation into a buffer ----------

  method Serialize(m: Message) returns (buf: array<byte>)
    ensures fresh(buf) && buf[..] == Bytes(m)
  {
    buf := new byte[MSG_SIZE](i => 0);
    CopyInto(buf, 0, U32Bytes(MAGIC));
    CopyInto(buf, 4, U32Bytes(OpCode(m.operation)));
    CopyInto(buf, 8, U32Bytes(m.user));
    CopyInto(buf, 12, U32Bytes(m.resource));
    CopyInto(buf, 16, m.salt);
    assert buf[..24] == U32Bytes(MAGIC) + Head(m);
    CopyInto(buf, 24, m.auth);
  }
}
