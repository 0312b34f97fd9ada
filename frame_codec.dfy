/** The framing layer of the handler: building a checksummed command frame,
    writing and verifying the checksum byte, and finding a frame boundary in
    the bytes received so far. */
module FrameCodec {
  import opened Bytes
  import opened ActRaw

  /** One protocol message: header {type, length, cmd or payload}, argument
      bytes, checksum. */
  type Frame = seq<Byte>

  /** The command frame built for `cmd` with the low `n` bytes of `value`:
      `[type, 4 + n, cmd, argument bytes most significant first, checksum]`. */
  function CmdFrame(k: DeviceConsts, cmd: Byte, value: int, n: nat): (f: Frame)
    requires n <= 4
    ensures |f| == 4 + n && f[0] == k.cmdMsg && f[1] == 4 + n && f[2] == cmd
    ensures f[3..3 + n] == BEBytes(value, n)
    ensures ChecksumOk(f)
  {
    var body := [k.cmdMsg, 4 + n, cmd] + BEBytes(value, n);
    ChecksumCompletes(body);
    body + [Checksum(body)]
  }

  /** A well-formed outbound frame: command marker, a length byte equal to the
      frame's length (4 to 8 bytes) and an intact checksum. */
  predicate IsCmdFrame(k: DeviceConsts, f: Frame)
  {
    4 <= |f| <= 8 && f[0] == k.cmdMsg && f[1] == |f| && ChecksumOk(f)
  }

  lemma CmdFrameIsCmdFrame(k: DeviceConsts, cmd: Byte, value: int, n: nat)
    requires n <= 4
    ensures IsCmdFrame(k, CmdFrame(k, cmd, value, n))
  {
  }

  /** The argument bytes of a command frame read back big-endian give the
      argument, when it fits into them. */
  lemma CmdFrameArgument(k: DeviceConsts, cmd: Byte, value: int, n: nat)
    requires n <= 4 && 0 <= value < Pow256(n)
    ensures BEValue(CmdFrame(k, cmd, value, n)[3..3 + n]) == value
  {
    var f := CmdFrame(k, cmd, value, n);
    assert f[3..3 + n] == BEBytes(value, n);
    BERoundTrip(value, n);
  }

  /** A 4-byte argument read back as a two's-complement 32-bit number gives
      every signed 32-bit argument, negative ones included. */
  lemma CmdFrameInt32Argument(k: DeviceConsts, cmd: Byte, value: int)
    requires -0x8000_0000 <= value < 0x8000_0000
    ensures var f := CmdFrame(k, cmd, value, 4); Int32BE(f[3], f[4], f[5], f[6]) == value
  {
    var f := CmdFrame(k, cmd, value, 4);
    assert f[3..7] == BEBytes(value, 4);
    Int32RoundTrip(value);
  }

  /** setCS: reads the frame length from the header and overwrites the byte at
      `length - 1` with the checksum of the bytes before it. */
  method SetCS(msg: array<Byte>)
    requires 2 <= msg.Length && 1 <= msg[1] <= msg.Length
    modifies msg
    ensures msg[..] == old(msg[..])[old(msg[1]) - 1 := Checksum(old(msg[..msg[1] - 1]))]
  {
    var length := msg[1];
    ghost var orig := msg[..];
    ghost var body := msg[..length - 1];
    msg[length - 1] := 0;
    var i := 0;
    while i < length - 1
      invariant 0 <= i <= length - 1
      invariant forall j :: 0 <= j < msg.Length && j != length - 1 ==> msg[j] == orig[j]
      invariant msg[length - 1] == Sum(body[..i]) % 256
    {
      assert msg[i] == body[i];
      SumPrefixStep(body, i);
      msg[length - 1] := (msg[length - 1] as int + msg[i]) % 256;
      i := i + 1;
    }
    assert body[..i] == body;
    msg[length - 1] := (256 - msg[length - 1] as int) % 256;
    assert msg[..] == orig[length - 1 := Checksum(body)];
  }

  /** The frame-building half of enqueueCmdMsg: a buffer of 4 + length bytes
      gets the header, the argument bytes most significant first (byte i is
      `(value >> 8 (length - 1 - i)) & 0xFF`), and the checksum. */
  method BuildCmdMsg(k: DeviceConsts, cmd: Byte, value: int, length: nat) returns (f: Frame)
    requires length <= 4
    ensures f == CmdFrame(k, cmd, value, length)
  {
    var msg := new Byte[4 + length];
    msg[0], msg[1], msg[2] := k.cmdMsg, 4 + length, cmd;
    msg[3 + length] := 0;
    ghost var arg := BEBytes(value, length);
    var i := 0;
    while i < length
      invariant 0 <= i <= length
      invariant msg[0] == k.cmdMsg && msg[1] == 4 + length && msg[2] == cmd && msg[3 + length] == 0
      invariant msg[3..3 + i] == arg[..i]
    {
      msg[i + 3] := ByteAt(value, length - 1 - i);
      assert msg[3..3 + i + 1] == msg[3..3 + i] + [msg[3 + i]];
      i := i + 1;
    }
    ghost var body := [k.cmdMsg, 4 + length, cmd] + arg;
    assert msg[..3 + length] == body;
    SetCS(msg);
    f := msg[..];
    assert f == body + [Checksum(body)];
  }

  /** checkCS: recomputes the checksum over the first `length - 1` bytes, where
      `length` is the header's length byte, and compares it with the byte at
      `length - 1`. It accepts exactly the frames whose bytes sum to a
      multiple of 256. */
  method CheckCS(buf: seq<Byte>) returns (ok: bool)
    requires 2 <= |buf| && 1 <= buf[1] <= |buf|
    ensures ok <==> ChecksumOk(buf[..buf[1]])
  {
    var length := buf[1];
    var cs: int := 0;
    var i := 0;
    while i < length - 1
      invariant 0 <= i <= length - 1
      invariant cs == Sum(buf[..i]) % 256
    {
      SumPrefixStep(buf, i);
      cs := (cs + buf[i] as int) % 256;
      i := i + 1;
    }
    cs := (256 - cs) % 256;
    ok := cs == buf[length - 1];
    assert buf[..length][..length - 1] == buf[..length - 1];
    ChecksumMatches(buf[..length]);
  }

  /** Index of the first ACK or reply marker in `buf`, or |buf| when there is none. */
  function MarkerIndex(k: DeviceConsts, buf: seq<Byte>): (i: nat)
    ensures i <= |buf|
    ensures forall j :: 0 <= j < i ==> !k.IsMarker(buf[j])
    ensures i < |buf| ==> k.IsMarker(buf[i])
  {
    if |buf| == 0 || k.IsMarker(buf[0]) then 0 else 1 + MarkerIndex(k, buf[1..])
  }

  /** What extractPacket answers for the bytes received so far: a positive
      frame length when a whole frame starts at offset 0, 0 to wait for more
      bytes, and minus the number of leading bytes to drop otherwise. */
  function Extracted(k: DeviceConsts, buf: seq<Byte>): (r: int)
    ensures -|buf| <= r <= |buf|
    ensures r > 0 ==> (buf[0] == ACK && r == 1) ||
                      (buf[0] != ACK && k.IsReplyMarker(buf[0]) && 2 <= |buf| && r == buf[1])
    ensures r < 0 ==> forall j :: 0 <= j < -r ==> !k.IsMarker(buf[j])
    ensures r < 0 && -r < |buf| ==> k.IsMarker(buf[-r])
    ensures r == 0 <==> |buf| == 0 ||
                        (buf[0] != ACK && k.IsReplyMarker(buf[0]) &&
                         (|buf| < 2 || buf[1] == 0 || buf[1] > |buf|))
  {
    var i := MarkerIndex(k, buf);
    if i > 0 then -(i as int)
    else if |buf| == 0 then 0
    else if buf[0] == ACK then 1
    else if |buf| < 2 then 0
    else if |buf| >= buf[1] then buf[1]
    else 0
  }

  /** extractPacket: scans the buffer for the first ACK or reply marker. */
  method ExtractPacket(k: DeviceConsts, buf: seq<Byte>) returns (r: int)
    ensures r == Extracted(k, buf)
  {
    var i := 0;
    while i < |buf|
      invariant 0 <= i <= |buf|
      invariant forall j :: 0 <= j < i ==> !k.IsMarker(buf[j])
    {
      if buf[i] == ACK {
        if i != 0 {
          return -i;
        }
        return 1;
      } else if k.IsReplyMarker(buf[i]) {
        if i != 0 {
          return -i;
        }
        if |buf| < 2 {
          return 0;
        }
        var len := buf[1];
        if |buf| >= len {
          return len;
        }
        return 0;
      }
      i := i + 1;
    }
    return -|buf|;
  }

  /** Resynchronisation: leading noise (no ACK, no reply marker) in front of a
      marker is discarded as a whole, and what remains starts at that marker. */
  lemma {:induction false} NoiseIsDiscarded(k: DeviceConsts, noise: seq<Byte>, rest: seq<Byte>)
    requires 0 < |noise| && forall j :: 0 <= j < |noise| ==> !k.IsMarker(noise[j])
    requires 0 < |rest| && k.IsMarker(rest[0])
    ensures Extracted(k, noise + rest) == -|noise|
    ensures (noise + rest)[|noise|..] == rest
  {
    var buf := noise + rest;
    assert buf[|noise|] == rest[0];
  }

  /** A reply frame whose declared length has fully arrived is extracted whole,
      whatever follows it. */
  lemma CompleteReplyExtracted(k: DeviceConsts, frame: seq<Byte>, more: seq<Byte>)
    requires k.Valid()
    requires 2 <= |frame| && k.IsReplyMarker(frame[0]) && frame[1] == |frame|
    ensures Extracted(k, frame + more) == |frame|
  {
    assert (frame + more)[0] == frame[0] && (frame + more)[1] == frame[1];
  }

  /** Noise followed by a complete reply frame: the extractor first asks to
      drop exactly the noise, then reports the frame. */
  lemma NoiseThenReply(k: DeviceConsts, noise: seq<Byte>, frame: seq<Byte>)
    requires k.Valid()
    requires forall j :: 0 <= j < |noise| ==> !k.IsMarker(noise[j])
    requires 2 <= |frame| && k.IsReplyMarker(frame[0]) && frame[1] == |frame|
    ensures Extracted(k, noise + frame) == if noise == [] then |frame| else -|noise|
    ensures Extracted(k, (noise + frame)[|noise|..]) == |frame|
  {
    assert (noise + frame)[|noise|..] == frame;
    if noise == [] {
      assert noise + frame == frame + [];
      CompleteReplyExtracted(k, frame, []);
    } else {
      NoiseIsDiscarded(k, noise, frame);
    }
    CompleteReplyExtracted(k, frame, []);
    assert frame + [] == frame;
  }

  /** A NAK is not a synchronisation byte: a buffer starting with one is never
      reported as a packet, its leading bytes are dropped as noise. */
  lemma NakIsDiscarded(k: DeviceConsts, buf: seq<Byte>)
    requires k.Valid() && 0 < |buf| && buf[0] == NAK
    ensures Extracted(k, buf) < 0
  {
  }

  /** A reply header whose length byte is 0 is never completed: the extractor
      keeps asking for more bytes however many arrive. */
  lemma ZeroLengthHeaderWaitsForever(k: DeviceConsts, buf: seq<Byte>, more: seq<Byte>)
    requires k.Valid()
    requires 2 <= |buf| && k.IsReplyMarker(buf[0]) && buf[1] == 0
    ensures Extracted(k, buf + more) == 0
  {
    assert (buf + more)[0] == buf[0] && (buf + more)[1] == buf[1];
  }
}
