/** Moving fixed-size frames over a byte stream that transfers them in pieces. */
module Frames {
  import opened Wire

  /** One poll of the socket. The oracle decides how many bytes move, or that none do. */
  datatype Io = Ready(n: nat) | WouldBlock | Broken

  datatype SendResult = Sent | SendFailed | SendPending

  function Min(a: nat, b: nat): nat { if a < b then a else b }

  /** Number of polls that let at least one byte through. */
  function WritePolls(schedule: seq<Io>): nat {
    if schedule == [] then 0
    else (if schedule[0].Ready? && schedule[0].n > 0 then 1 else 0) + WritePolls(schedule[1..])
  }

  /** Number of bytes that the socket would take before it breaks. */
  function Offered(schedule: seq<Io>): nat {
    if schedule == [] || schedule[0].Broken? then 0
    else (if schedule[0].Ready? then schedule[0].n else 0) + Offered(schedule[1..])
  }

  /** The socket does not break, and takes something at least `size` times. */
  predicate Writable(schedule: seq<Io>, size: nat) {
    Broken !in schedule && WritePolls(schedule) >= size
  }

  /** A stream for writing: `wire` is everything handed to it so far. */
  class Writer {
    var wire: seq<byte>

    constructor ()
      ensures wire == []
    {
      wire := [];
    }

    method TryWrite(data: seq<byte>, io: Io) returns (n: Option<nat>)
      modifies this
      ensures n.None? ==> wire == old(wire)
      ensures n.Some? ==> io.Ready? && n.value == Min(io.n, |data|) && wire == old(wire) + data[..n.value]
      ensures n.None? <==> !io.Ready?
    {
      if io.Ready? {
        var k := Min(io.n, |data|);
        wire := wire + data[..k];
        return Some(k);
      }
      return None;
    }

    /**
     * The send loop: for any schedule, what is on the wire is a prefix of the frame, all of it iff it
     * completes; and it completes if the socket accepts data often enough.
     */
    method Send(buf: seq<byte>, schedule: seq<Io>) returns (r: SendResult, ghost count: nat)
      requires buf != []
      modifies this
      ensures count <= |buf| && wire == old(wire) + buf[..count]
      ensures count == if Offered(schedule) < |buf| then Offered(schedule) else |buf|
      ensures r == if count == |buf| then Sent else if Broken in schedule then SendFailed else SendPending
      ensures Writable(schedule, |buf|) ==> r == Sent
    {
      var sent := 0;
      count := 0;
      for i := 0 to |schedule|
        invariant sent < |buf| && count == sent && wire == old(wire) + buf[..sent]
        invariant WritePolls(schedule) <= sent + WritePolls(schedule[i..])
        invariant Offered(schedule) == sent + Offered(schedule[i..]) && Broken !in schedule[..i]
      {
        assert schedule[i..][1..] == schedule[i + 1..] && schedule[i..][0] == schedule[i];
        assert schedule[..i + 1] == schedule[..i] + [schedule[i]];
        var n := TryWrite(buf[sent..], schedule[i]);
        if n.Some? {
          assert buf[..sent] + buf[sent..][..n.value] == buf[..sent + n.value];
          sent, count := sent + n.value, sent + n.value;
          if sent == |buf| {
            return Sent, count;
          }
        } else if schedule[i].Broken? {
          return SendFailed, count;
        }
      }
      return SendPending, count;
    }
  }

  datatype RecvResult = Frame(bytes: seq<byte>) | Closed | RecvFailed | RecvPending

  /** What the receiver may meet: more bytes arrive from the peer, or it polls the socket. */
  datatype Poll = Arrive(n: nat) | Io(io: Io)

  /** Number of polls from `i` on that find the socket readable after the last of `missing` bytes has arrived. */
  function ReadPolls(schedule: seq<Poll>, i: nat, missing: nat): nat
    requires i <= |schedule|
    decreases |schedule| - i
  {
    if i == |schedule| then 0
    else
      match schedule[i]
      case Arrive(n) => ReadPolls(schedule, i + 1, if n < missing then missing - n else 0)
      case Io(io) => (if io.Ready? && missing == 0 then 1 else 0) + ReadPolls(schedule, i + 1, missing)
  }

  /**
   * Number of bytes that reads of any size would give from poll `i` on before the stream breaks or ends,
   * with `here` bytes ready and `missing` still to arrive.
   */
  function Incoming(schedule: seq<Poll>, i: nat, here: nat, missing: nat): nat
    requires i <= |schedule|
    decreases |schedule| - i
  {
    if i == |schedule| then 0
    else
      match schedule[i]
      case Arrive(n) => Incoming(schedule, i + 1, here + Min(n, missing), missing - Min(n, missing))
      case Io(io) =>
        if io.Broken? || (io.Ready? && here == 0 && missing == 0) then 0
        else if io.WouldBlock? then Incoming(schedule, i + 1, here, missing)
        else Min(io.n + 1, here) + Incoming(schedule, i + 1, here - Min(io.n + 1, here), missing)
  }

  /** The socket does not break, and is read at least `size` times once everything has arrived. */
  predicate Readable(schedule: seq<Poll>, missing: nat, size: nat) {
    Io(Broken) !in schedule && ReadPolls(schedule, 0, missing) >= size
  }

  /** That many reads give that many bytes, if they exist. */
  lemma {:induction false} ReadableGives(schedule: seq<Poll>, i: nat, here: nat, missing: nat, size: nat)
    requires i <= |schedule| && Io(Broken) !in schedule
    requires ReadPolls(schedule, i, missing) >= size && size <= here + missing
    ensures Incoming(schedule, i, here, missing) >= size
    decreases |schedule| - i
  {
    if i < |schedule| {
      match schedule[i]
      case Arrive(n) =>
        var k := Min(n, missing);
        ReadableGives(schedule, i + 1, here + k, missing - k, size);
      case Io(io) =>
        if io.Ready? && !(here == 0 && missing == 0) {
          var k := Min(io.n + 1, here);
          if size > k {
            ReadableGives(schedule, i + 1, here - k, missing, size - k);
          }
        } else if io.WouldBlock? {
          ReadableGives(schedule, i + 1, here, missing, size);
        }
    }
  }

  /** A stream for reading. The peer writes `wire`, of which `arrived` bytes are here and `taken` are read. */
  class Reader {
    const wire: seq<byte>
    var arrived: nat
    var taken: nat

    ghost predicate Valid()
      reads this
    {
      taken <= arrived <= |wire|
    }

    constructor (wire: seq<byte>)
      ensures Valid() && this.wire == wire && taken == 0 && arrived == 0
    {
      this.wire := wire;
      arrived, taken := 0, 0;
    }

    /** One poll. Some([]) is end of file, which happens once everything the peer wrote was read. */
    method TryRead(space: nat, poll: Poll) returns (data: Option<seq<byte>>)
      requires Valid() && space > 0
      modifies this
      ensures Valid() && old(taken) <= taken
      ensures data.Some? ==> |data.value| <= space && data.value == wire[old(taken)..taken]
      ensures data.Some? && data.value == [] ==> taken == |wire|
      ensures data.None? ==> taken == old(taken)
      ensures arrived == if poll.Arrive? then Min(old(arrived) + poll.n, |wire|) else old(arrived)
      ensures data.Some? <==> poll.Io? && poll.io.Ready? && (old(taken) < arrived || arrived == |wire|)
      ensures data.Some? ==> |data.value| == Min(Min(poll.io.n + 1, space), arrived - old(taken))
    {
      if poll.Arrive? {
        arrived := Min(arrived + poll.n, |wire|);
        return None;
      }
      if !poll.io.Ready? || (taken == arrived && arrived < |wire|) {
        return None;
      }
      var k := Min(Min(poll.io.n + 1, space), arrived - taken);
      data := Some(wire[taken..taken + k]);
      taken := taken + k;
    }

    /**
     * The receive loop: for any schedule, a completed frame is the next `size` bytes of the wire; and it
     * completes if a whole frame was sent and the socket is read often enough after its arrival.
     */
    method Recv(size: nat, schedule: seq<Poll>) returns (r: RecvResult)
      requires Valid() && size > 0
      modifies this
      ensures Valid() && old(taken) <= taken <= old(taken) + size && old(arrived) <= arrived
      ensures r.Frame? <==> taken == old(taken) + size
      ensures r.Frame? ==> r.bytes == wire[old(taken)..taken]
      ensures r.Closed? ==> taken == |wire|
      ensures taken == old(taken) + Min(size, Incoming(schedule, 0, old(arrived) - old(taken), |wire| - old(arrived)))
      ensures (r.RecvFailed? ==> Io(Broken) in schedule) && (r.RecvPending? ==> Io(Broken) !in schedule)
      ensures old(taken) + size <= |wire| && Readable(schedule, |wire| - old(arrived), size) ==> r.Frame?
    {
      ghost var here, missing := arrived - taken, |wire| - arrived;
      if size <= here + missing && Readable(schedule, missing, size) {
        ReadableGives(schedule, 0, here, missing, size);
      }
      r := RecvLoop(size, schedule);
    }

    method RecvLoop(size: nat, schedule: seq<Poll>) returns (r: RecvResult)
      requires Valid() && size > 0
      modifies this
      ensures Valid() && old(taken) <= taken <= old(taken) + size && old(arrived) <= arrived
      ensures r.Frame? <==> taken == old(taken) + size
      ensures r.Frame? ==> r.bytes == wire[old(taken)..taken]
      ensures r.Closed? ==> taken == |wire|
      ensures taken == old(taken) + Min(size, Incoming(schedule, 0, old(arrived) - old(taken), |wire| - old(arrived)))
      ensures (r.RecvFailed? ==> Io(Broken) in schedule) && (r.RecvPending? ==> Io(Broken) !in schedule)
    {
      ghost var start, all := taken, Incoming(schedule, 0, arrived - taken, |wire| - arrived);
      var buf: seq<byte> := [];
      for i := 0 to |schedule|
        invariant Valid() && start <= taken && buf == wire[start..taken] && |buf| < size && old(arrived) <= arrived
        invariant forall j :: 0 <= j < i ==> schedule[j] != Io(Broken)
        invariant all == |buf| + Incoming(schedule, i, arrived - taken, |wire| - arrived)
      {
        r, buf := RecvOnce(buf, size, schedule[i], start);
        if !r.RecvPending? {
          return;
        }
      }
      return RecvPending;
    }

    /** One turn of the loop; RecvPending means to go on. */
    method RecvOnce(buf: seq<byte>, size: nat, poll: Poll, ghost start: nat)
      returns (r: RecvResult, buf': seq<byte>)
      requires Valid() && start <= taken && buf == wire[start..taken] && |buf| < size
      modifies this
      ensures Valid() && old(taken) <= taken && buf' == wire[start..taken] && |buf'| <= size
      ensures arrived == if poll.Arrive? then Min(old(arrived) + poll.n, |wire|) else old(arrived)
      ensures var here, missing := old(arrived) - old(taken), |wire| - old(arrived);
              if poll.Io? && poll.io.Ready? && here > 0 then
                && |buf'| == |buf| + Min(Min(poll.io.n + 1, here), size - |buf|)
                && r == if |buf'| == size then Frame(buf') else RecvPending
              else
                && taken == old(taken)
                && r == if poll == Io(Broken) then RecvFailed
                        else if poll.Io? && poll.io.Ready? && missing == 0 then Closed else RecvPending
    {
      var data := TryRead(size - |buf|, poll);
      buf' := buf;
      if data.Some? {
        if data.value == [] {
          return Closed, buf';
        }
        assert buf + data.value == wire[start..taken];
        buf' := buf + data.value;
        if |buf'| == size {
          return Frame(buf'), buf';
        }
      } else if poll.Io? && poll.io.Broken? {
        return RecvFailed, buf';
      }
      return RecvPending, buf';
    }
  }

  // ---------- Sequences of frames ----------

  ghost function Concat(frames: seq<seq<byte>>): seq<byte> {
    if frames == [] then [] else frames[0] + Concat(frames[1..])
  }

  ghost predicate AllSized(frames: seq<seq<byte>>, size: nat) {
    forall i :: 0 <= i < |frames| ==> |frames[i]| == size
  }

  /** Cutting the wire into pieces of the frame size gives back the frames. */
  lemma {:induction false} CutFrame(frames: seq<seq<byte>>, size: nat, k: nat)
    requires AllSized(frames, size) && k < |frames|
    ensures |Concat(frames)| == |frames| * size
    ensures k * size + size <= |Concat(frames)|
    ensures Concat(frames)[k * size..k * size + size] == frames[k]
  {
    ConcatSize(frames, size);
    FrameFits(k, |frames|, size);
    if k > 0 {
      CutFrame(frames[1..], size, k - 1);
      ConcatSize(frames[1..], size);
      FrameFits(k - 1, |frames| - 1, size);
      assert k * size == (k - 1) * size + size;
      var rest, j := Concat(frames[1..]), (k - 1) * size;
      assert (frames[0] + rest)[j + size..j + size + size] == rest[j..j + size];
    }
  }

  lemma FrameFits(k: nat, n: nat, size: nat)
    requires k < n
    ensures 0 <= k * size && k * size + size <= n * size
  {
    assert n * size == (k + 1) * size + (n - k - 1) * size;
  }

  lemma {:induction false} ConcatSize(frames: seq<seq<byte>>, size: nat)
    requires AllSized(frames, size)
    ensures |Concat(frames)| == |frames| * size
  {
    if frames != [] {
      ConcatSize(frames[1..], size);
      assert |frames| * size == (|frames| - 1) * size + size;
    }
  }

  /**
   * Receive one frame after another. Whatever the schedules, what is received is a prefix of what
   * the peer sent, frame by frame and in order, and no more than a part of the next frame is taken
   * from the wire beyond it. If everything has arrived and the socket is read often enough, there is
   * one frame for each schedule as long as there are frames.
   */
  method RecvAll(reader: Reader, size: nat, schedules: seq<seq<Poll>>, ghost frames: seq<seq<byte>>)
    returns (got: seq<seq<byte>>)
    requires reader.Valid() && reader.taken == 0 && size > 0
    requires AllSized(frames, size) && reader.wire == Concat(frames)
    modifies reader
    ensures got <= frames && |got| <= |schedules|
    ensures reader.Valid() && |got| * size <= reader.taken < |got| * size + size
    ensures old(reader.arrived) == |reader.wire|
            && (forall i :: 0 <= i < |schedules| ==> Readable(schedules[i], 0, size))
            ==> |got| == Min(|schedules|, |frames|)
  {
    got := [];
    for i := 0 to |schedules|
      invariant reader.Valid() && got <= frames && |got| == i && reader.taken == |got| * size
      invariant old(reader.arrived) <= reader.arrived
    {
      ConcatSize(frames, size);
      var r := reader.Recv(size, schedules[i]);
      if |got| < |frames| {
        FrameFits(|got|, |frames|, size);
      }
      if !r.Frame? {
        return;
      }
      NextFrame(frames, size, |got|);
      got := got + [r.bytes];
      assert |got| * size == (|got| - 1) * size + size;
    }
  }

  lemma NextFrame(frames: seq<seq<byte>>, size: nat, k: nat)
    requires AllSized(frames, size) && size > 0 && k <= |frames|
    requires k * size + size <= |Concat(frames)|
    ensures k < |frames| && Concat(frames)[k * size..k * size + size] == frames[k]
  {
    ConcatSize(frames, size);
    if k < |frames| {
      CutFrame(frames, size, k);
    }
  }
}
