/** Messages over fragmenting streams: encode, transfer in pieces, decode. */
module Links {
  import opened Wire
  import opened Messages
  import FM = FirewallMessages
  import opened Frames

  ghost function MessageFrames(ms: seq<Message>): (f: seq<seq<byte>>)
    ensures |f| == |ms| && forall i :: 0 <= i < |ms| ==> f[i] == Bytes(ms[i])
  {
    seq(|ms|, i requires 0 <= i < |ms| => Bytes(ms[i]))
  }

  /**
   * Send one message: the wire gets a prefix of its frame, and the whole frame iff sending completes,
   * which it does if the socket accepts data often enough.
   */
  method SendMessage(w: Writer, m: Message, schedule: seq<Io>) returns (r: SendResult)
    modifies w
    ensures old(w.wire) <= w.wire <= old(w.wire) + Bytes(m)
    ensures r == Sent <==> w.wire == old(w.wire) + Bytes(m)
    ensures Writable(schedule, MSG_SIZE) ==> r == Sent
  {
    var buf := Serialize(m);
    ghost var count;
    r, count := w.Send(buf[..], schedule);
    assert w.wire == old(w.wire) + Bytes(m)[..count];
    assert count == |Bytes(m)| ==> Bytes(m)[..count] == Bytes(m);
    assert |w.wire| == |old(w.wire)| + count;
  }

  /**
   * Receive messages one after another. However the peer's bytes arrive and however the reads are
   * split, the messages received are a prefix of those sent, in order and unchanged, and each takes
   * exactly one frame from the wire. With everything arrived and enough reads, none is missing.
   */
  method RecvMessages(reader: Reader, schedules: seq<seq<Poll>>, ghost ms: seq<Message>) returns (got: seq<Message>)
    requires reader.Valid() && reader.taken == 0 && reader.wire == Concat(MessageFrames(ms))
    modifies reader
    ensures got <= ms && |got| <= |schedules|
    ensures reader.Valid() && |got| * MSG_SIZE <= reader.taken < |got| * MSG_SIZE + MSG_SIZE
    ensures old(reader.arrived) == |reader.wire|
            && (forall i :: 0 <= i < |schedules| ==> Readable(schedules[i], 0, MSG_SIZE))
            ==> |got| == Min(|schedules|, |ms|)
  {
    var frames := RecvAll(reader, MSG_SIZE, schedules, MessageFrames(ms));
    got := ParseAll(frames, ms);
  }

  method ParseAll(frames: seq<seq<byte>>, ghost ms: seq<Message>) returns (got: seq<Message>)
    requires frames <= MessageFrames(ms)
    ensures got <= ms && |got| == |frames|
  {
    got := [];
    for i := 0 to |frames|
      invariant |got| == i && got <= ms
    {
      assert frames[i] == MessageFrames(ms)[i];
      ParseBytes(ms[i]);
      var m := Parse(frames[i]);
      got := got + [m.value];
    }
  }

  /**
   * A firewall message over a fresh connection. `sent` bytes of its frame reach the wire and `read` of
   * them are taken from it; it is received, unchanged, iff that is the whole frame. If both sockets are
   * ready often enough, it is.
   */
  method TransferFwMessage(w: Writer, m: FM.FwMessage, tx: seq<Io>, rx: seq<Poll>)
    returns (r: Option<FM.FwMessage>, ghost sent: nat, ghost read: nat)
    requires w.wire == []
    modifies w
    ensures read <= sent <= FM.FWMSG_SIZE && w.wire == FM.FwBytes(m)[..sent]
    ensures r.Some? <==> read == FM.FWMSG_SIZE
    ensures r.Some? ==> r.value == m
    ensures Writable(tx, FM.FWMSG_SIZE) && Readable(rx, FM.FWMSG_SIZE, FM.FWMSG_SIZE) ==> r == Some(m)
  {
    var buf := FM.Serialize(m);
    var done;
    done, sent := w.Send(buf[..], tx);
    assert sent == FM.FWMSG_SIZE ==> FM.FwBytes(m)[..sent] == FM.FwBytes(m);
    var reader := new Reader(w.wire);
    var frame := reader.Recv(FM.FWMSG_SIZE, rx);
    read := reader.taken;
    if frame.Frame? {
      assert reader.wire[0..reader.taken] == w.wire;
      FM.FwParseBytes(m);
      return FM.FwParse(frame.bytes), sent, read;
    }
    return None, sent, read;
  }
}
