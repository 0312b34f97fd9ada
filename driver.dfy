/** The driver on top of the handler: writing the next queued frame and
    reading the reply the actuator sends back. The transport (readPacket,
    writePacket) is not modelled; a written frame is recorded in `written`
    and a received packet is a parameter of the operation that reads it. */
module SchillingDriver {
  import opened Bytes
  import opened ActRaw
  import opened ActTypes
  import opened Calibration
  import opened FrameCodec
  import opened Replies
  import opened Handler

  /** The size of the buffer read() hands to readPacket and then, whole, to
      parseReply. */
  const READ_BUFFER_SIZE := 1024

  /** What readPacket can deliver into the read buffer: nothing, or a packet
      the extractor reports whole (an ACK, or a reply frame of its declared
      length), no longer than the buffer. */
  predicate Delivered(k: DeviceConsts, packet: seq<Byte>): (b: bool)
    ensures b && packet != [] ==>
              (packet[0] == ACK && |packet| == 1) ||
              (k.IsReplyMarker(packet[0]) && 2 <= |packet| && packet[1] == |packet|)
  {
    |packet| <= READ_BUFFER_SIZE && (packet != [] ==> Extracted(k, packet) == |packet|)
  }

  /** The zero-initialised read buffer after readPacket copied `packet` into it. */
  function ReadBuffer(packet: seq<Byte>): (buf: seq<Byte>)
    requires |packet| <= READ_BUFFER_SIZE
    ensures |buf| == READ_BUFFER_SIZE && buf[..|packet|] == packet
    ensures forall i :: |packet| <= i < READ_BUFFER_SIZE ==> buf[i] == 0
  {
    packet + seq(READ_BUFFER_SIZE - |packet|, _ => 0)
  }

  /** A header whose length byte is 1 makes the extractor report a one-byte
      packet: the lone reply marker. `Delivered` excludes it, because
      parseReply's behaviour on it is undefined: in the zero-padded read
      buffer its length byte reads as 0, and checkCS then compares against
      the byte before the buffer. */
  lemma LengthOneHeaderDeliversLoneMarker(k: DeviceConsts, m: Byte, rest: seq<Byte>)
    requires k.Valid() && k.IsReplyMarker(m)
    ensures Extracted(k, [m, 1] + rest) == 1
    ensures !Delivered(k, [m])
    ensures ReadBuffer([m])[1] == 0 && !ParsableBuffer(k, ReadBuffer([m]))
  {
    var buf := [m, 1] + rest;
    assert buf[0] == m && buf[1] == 1;
    assert k.IsMarker(buf[0]);
    assert ReadBuffer([m])[0] == m;
  }

  /** A delivered packet is parsable on its own and in the read buffer, and it
      never starts with a NAK: the extractor treats a NAK as noise, so
      parseReply never meets one coming through read(). */
  lemma DeliveredPacketParsable(k: DeviceConsts, packet: seq<Byte>)
    requires k.Valid() && Delivered(k, packet) && packet != []
    ensures ParsableBuffer(k, packet) && ParsableBuffer(k, ReadBuffer(packet))
    ensures packet[0] == ACK || k.IsReplyMarker(packet[0])
  {
    var buf := ReadBuffer(packet);
    assert buf[0] == packet[0];
    if k.IsReplyMarker(packet[0]) {
      assert buf[1] == packet[1];
    }
  }

  /** The bytes of the read buffer past the packet play no part: parseReply
      reaches the same outcome and the same state as on the packet alone, and
      that outcome is never a NAK. */
  lemma ReadBufferIsThePacket(k: DeviceConsts, s: HandlerState, packet: seq<Byte>)
    requires k.Valid() && Delivered(k, packet) && packet != []
    ensures ParsableBuffer(k, packet) && ParsableBuffer(k, ReadBuffer(packet))
    ensures ReplyOutcome(k, s.lastCmd, ReadBuffer(packet)) == ReplyOutcome(k, s.lastCmd, packet)
    ensures ReplyOutcome(k, s.lastCmd, packet) != DevNak
    ensures ReplyOutcome(k, s.lastCmd, packet) == Ok ==>
              AfterReply(k, s, ReadBuffer(packet)) == AfterReply(k, s, packet)
  {
    DeliveredPacketParsable(k, packet);
    var buf := ReadBuffer(packet);
    assert buf[0] == packet[0];
    if k.IsReplyMarker(packet[0]) {
      assert buf[1] == packet[1];
      assert buf[..buf[1]] == packet[..packet[1]];
      if ReplyOutcome(k, s.lastCmd, packet) == Ok && Decodes(s.lastCmd) {
        var n := ReplyLength(s.lastCmd);
        assert forall i :: 0 <= i < n ==> buf[i] == packet[i];
        if s.lastCmd == CMD_GETSTAT {
          assert AfterStatus(k, s, buf) == AfterStatus(k, s, packet);
        }
      }
    }
  }

  /** The outcome and the handler state after writeNext when the actuator
      answers with `reply`: the front frame leaves the queue and its command
      byte becomes the last command, then the reply is read. With nothing
      queued nothing happens. */
  function AfterWriteNext(k: DeviceConsts, s: HandlerState, reply: seq<Byte>): (t: (Status, HandlerState))
    requires Consistent(k, s) && Delivered(k, reply)
    ensures s.queue == [] ==> t == (Ok, s)
    ensures s.queue != [] ==> IsCmdFrame(k, s.queue[0]) && t.1.lastCmd == s.queue[0][2] && s.queue[1..] <= t.1.queue
    ensures t.0 != DevNak && (reply == [] ==> t.0 == Ok)
    ensures Consistent(k, t.1)
  {
    if s.queue == [] then (Ok, s)
    else
      assert s.queue[0] in s.queue;
      var popped := s.(queue := s.queue[1..], lastCmd := s.queue[0][2]);
      assert forall f :: f in popped.queue ==> f in s.queue;
      if reply == [] then (Ok, popped)
      else
        ReadBufferIsThePacket(k, popped, reply);
        var r := ReplyOutcome(k, popped.lastCmd, reply);
        if r == Ok then
          AfterReplyConsistent(k, popped, reply);
          (r, AfterReply(k, popped, reply))
        else (r, popped)
  }

  /** writeNext parses the reply against the opcode it has just sent: with
      the front frame dequeued and its command byte as the last command, an
      empty reply leaves it at that, and any other reply yields parseReply's
      outcome and, on success, the state after the reply. */
  lemma WriteNextParsesReply(k: DeviceConsts, s: HandlerState, reply: seq<Byte>, p: HandlerState)
    requires Consistent(k, s) && Delivered(k, reply) && s.queue != []
    requires 3 <= |s.queue[0]| && p == s.(queue := s.queue[1..], lastCmd := s.queue[0][2])
    ensures reply == [] ==> AfterWriteNext(k, s, reply) == (Ok, p)
    ensures reply != [] ==>
              ParsableBuffer(k, reply) && AfterWriteNext(k, s, reply).0 == ReplyOutcome(k, p.lastCmd, reply) &&
              AfterWriteNext(k, s, reply).1 == if AfterWriteNext(k, s, reply).0 == Ok then AfterReply(k, p, reply) else p
  {
    if reply != [] {
      DeliveredPacketParsable(k, reply);
    }
  }

  /** The frames written and the final handler state when writeNext is called
      once per reply in `replies`. */
  function Session(k: DeviceConsts, s: HandlerState, replies: seq<seq<Byte>>): (t: (seq<Frame>, HandlerState))
    requires Consistent(k, s) && forall i :: 0 <= i < |replies| ==> Delivered(k, replies[i])
    ensures |t.0| <= |replies| && Consistent(k, t.1)
    decreases |replies|
  {
    if replies == [] then ([], s)
    else
      var step := AfterWriteNext(k, s, replies[0]);
      var rest := Session(k, step.1, replies[1..]);
      ((if s.queue == [] then [] else [s.queue[0]]) + rest.0, rest.1)
  }

  /** Whatever the actuator replies, n writeNext calls with at least n frames
      queued write exactly the first n queued frames, in the order they were
      queued: frames appended by the replies go behind them. */
  lemma {:induction false} FramesSentInQueueOrder(k: DeviceConsts, s: HandlerState, replies: seq<seq<Byte>>)
    requires Consistent(k, s) && |replies| <= |s.queue|
    requires forall i :: 0 <= i < |replies| ==> Delivered(k, replies[i])
    ensures Session(k, s, replies).0 == s.queue[..|replies|]
    decreases |replies|
  {
    if replies != [] {
      var next := AfterWriteNext(k, s, replies[0]).1;
      FramesSentInQueueOrder(k, next, replies[1..]);
      SessionWritesFront(k, s, replies, next);
      FrontThenPrefix(s.queue, next.queue, |replies|);
    }
  }

  /** One step of a session over a non-empty queue: the front frame is
      written, then whatever the rest of the session writes. */
  lemma SessionWritesFront(k: DeviceConsts, s: HandlerState, replies: seq<seq<Byte>>, next: HandlerState)
    requires Consistent(k, s) && forall i :: 0 <= i < |replies| ==> Delivered(k, replies[i])
    requires replies != [] && s.queue != [] && next == AfterWriteNext(k, s, replies[0]).1
    ensures s.queue[1..] <= next.queue && Consistent(k, next)
    ensures forall i :: 0 <= i < |replies| - 1 ==> Delivered(k, replies[1..][i])
    ensures Session(k, s, replies).0 == [s.queue[0]] + Session(k, next, replies[1..]).0
  {
  }

  /** A queue whose tail is a prefix of another: its first n frames are its
      front frame followed by the first n - 1 of the other. */
  lemma FrontThenPrefix(q: seq<Frame>, r: seq<Frame>, n: nat)
    requires 0 < n <= |q| && q[1..] <= r
    ensures q[..n] == [q[0]] + r[..n - 1]
  {
    assert r[..n - 1] == q[1..][..n - 1];
    assert q[..n] == [q[0]] + q[1..][..n - 1];
  }

  /** When the actuator acknowledges each frame with an ACK, writeNext sends
      the queued frames one by one in the order they were queued. */
  lemma {:induction false} AckedFramesSentInQueueOrder(k: DeviceConsts, s: HandlerState, replies: seq<seq<Byte>>)
    requires Consistent(k, s) && |replies| <= |s.queue|
    requires forall i :: 0 <= i < |replies| ==> replies[i] == [ACK]
    ensures forall i :: 0 <= i < |replies| ==> Delivered(k, replies[i])
    ensures Session(k, s, replies).0 == s.queue[..|replies|]
    ensures Session(k, s, replies).1.queue == s.queue[|replies|..]
    decreases |replies|
  {
    assert forall i :: 0 <= i < |replies| ==> Extracted(k, replies[i]) == 1;
    if replies != [] {
      var step := AfterWriteNext(k, s, replies[0]);
      assert step.1 == s.(queue := s.queue[1..], lastCmd := s.queue[0][2]);
      AckedFramesSentInQueueOrder(k, step.1, replies[1..]);
      assert s.queue[..|replies|] == [s.queue[0]] + s.queue[1..][..|replies| - 1];
    }
  }

  /** The driver: the handler it extends, and the frames written so far. */
  class Driver {
    const handler: ActHandler
    var written: seq<Frame>

    predicate Valid()
      reads this, handler
    {
      handler.Valid()
    }

    constructor (k: DeviceConsts, config: Config, lastPos0: LastPos, shaftPos0: int, shaftAbsPos0: int)
      requires k.Valid()
      ensures Valid() && fresh(handler) && written == []
      ensures handler.k == k
      ensures handler.State() == HandlerState([], CMD_NONE, config, InitialActData(config.ctrlMode),
                                              InitialDeviceStatus(shaftPos0), InitialActState, Reset, lastPos0,
                                              InitialPosition(shaftAbsPos0), InitialDriveStatus, InitialActInfo,
                                              InitialBoundaries, NoUpdates)
    {
      handler := new ActHandler(k, config, lastPos0, shaftPos0, shaftAbsPos0);
      written := [];
    }

    /** read: the packet readPacket delivered is copied into a 1024-byte
        buffer and, unless it is empty, parsed. */
    method Read(packet: seq<Byte>) returns (r: Status)
      requires Valid() && Delivered(handler.k, packet)
      modifies handler
      ensures Valid()
      ensures packet == [] ==> r == Ok && handler.State() == old(handler.State())
      ensures packet != [] ==>
                ParsableBuffer(handler.k, packet) &&
                r == ReplyOutcome(handler.k, old(handler.lastCmd), packet) && r != DevNak &&
                handler.State() == if r == Ok then AfterReply(handler.k, old(handler.State()), packet)
                                   else old(handler.State())
    {
      var buffer := ReadBuffer(packet);
      if |packet| == 0 {
        return Ok;
      }
      ReadBufferIsThePacket(handler.k, handler.State(), packet);
      r := handler.ParseReply(buffer);
    }

    /** writeNext: when a frame is queued, takes it off the front, remembers
        its command byte as the last command, writes it and reads the reply. */
    method WriteNext(reply: seq<Byte>) returns (r: Status)
      requires Valid() && Delivered(handler.k, reply)
      modifies this, handler
      ensures Valid()
      ensures (r, handler.State()) == AfterWriteNext(handler.k, old(handler.State()), reply)
      ensures written == old(written) + if old(handler.queue) == [] then [] else [old(handler.queue)[0]]
    {
      if handler.queue == [] {
        return Ok;
      }
      var msg := handler.queue[0];
      assert msg in handler.queue;
      handler.queue := handler.queue[1..];
      handler.lastCmd := msg[2];
      written := written + [msg];
      r := Read(reply);
    }
  }
}
