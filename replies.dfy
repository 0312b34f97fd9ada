/** The reply side of the protocol: which outcome parseReply reaches for a
    buffer and the last sent command, the field decoders it applies, and the
    device's reply frames as an encoder to check the decoders against. */
module Replies {
  import opened Bytes
  import opened ActRaw
  import opened ActTypes
  import opened FrameCodec

  /** Outcome of parsing a reply: success, or the MarError raised. */
  datatype Status = Ok | DevNak | ChecksumError | DevReplyInvalid

  /** The commands whose replies parseReply decodes. */
  predicate Decodes(cmd: Byte)
  {
    cmd == CMD_GETSTAT || cmd == CMD_GETPOS || cmd == CMD_GETDRVSTAT || cmd == CMD_GETACTINFO
  }

  /** The reply length each decoded command requires. */
  function ReplyLength(cmd: Byte): (n: nat)
    requires Decodes(cmd)
    ensures n == 13 <==> cmd == CMD_GETPOS
    ensures n == 12 <==> cmd != CMD_GETPOS
  {
    if cmd == CMD_GETPOS then 0x0D else 0x0C
  }

  /** A buffer parseReply can read: it has a first byte, and a reply header's
      length byte is positive and within the buffer. */
  predicate ParsableBuffer(k: DeviceConsts, buf: seq<Byte>)
  {
    1 <= |buf| && (k.IsReplyMarker(buf[0]) ==> 2 <= |buf| && 1 <= buf[1] <= |buf|)
  }

  /** Whether the reply frame in `buf` carries an intact checksum. */
  predicate ReplyChecksumOk(buf: seq<Byte>)
    requires 2 <= |buf| && buf[1] <= |buf|
  {
    ChecksumOk(buf[..buf[1]])
  }

  /** The outcome parseReply reaches for `buf` when `cmd` was sent last. */
  function ReplyOutcome(k: DeviceConsts, cmd: Byte, buf: seq<Byte>): (r: Status)
    requires k.Valid() && ParsableBuffer(k, buf)
    ensures buf[0] == ACK ==> r == Ok
    ensures r == DevNak <==> buf[0] == NAK
    ensures r == ChecksumError <==> k.IsReplyMarker(buf[0]) && !ReplyChecksumOk(buf)
    ensures r == DevReplyInvalid <==>
              k.IsReplyMarker(buf[0]) && ReplyChecksumOk(buf) && Decodes(cmd) && buf[1] != ReplyLength(cmd)
    ensures r == Ok && k.IsReplyMarker(buf[0]) && Decodes(cmd) ==> buf[1] == ReplyLength(cmd)
  {
    if buf[0] == ACK then Ok
    else if buf[0] == NAK then DevNak
    else if k.IsReplyMarker(buf[0]) then
      if !ReplyChecksumOk(buf) then ChecksumError
      else if Decodes(cmd) && buf[1] != ReplyLength(cmd) then DevReplyInvalid
      else Ok
    else Ok
  }

  /** Corrupting any one byte of an intact reply frame after its length byte
      makes parseReply reject it with a checksum error, whatever command is
      outstanding. The length byte itself is left out: it chooses which bytes
      the checksum covers, so a corrupted length can select a shorter prefix
      whose sum happens to be a multiple of 256. */
  lemma CorruptedReplyRejected(k: DeviceConsts, cmd: Byte, buf: seq<Byte>, i: nat, b: Byte)
    requires k.Valid() && ParsableBuffer(k, buf) && k.IsReplyMarker(buf[0])
    requires ReplyChecksumOk(buf)
    requires 2 <= i < buf[1] && b != buf[i]
    ensures ParsableBuffer(k, buf[i := b])
    ensures ReplyOutcome(k, cmd, buf[i := b]) == ChecksumError
  {
    assert buf[i := b][..buf[1]] == buf[..buf[1]][i := b];
    SingleByteCorruptionDetected(buf[..buf[1]], i, b);
  }

  // Field decoders (byte offsets within the reply frame).

  /** GETSTAT: bytes 5..8, shaft position as a signed 32-bit number. */
  function StatusShaftPos(buf: seq<Byte>): (p: int)
    requires 9 <= |buf|
    ensures -0x8000_0000 <= p < 0x8000_0000
    ensures p < 0 <==> buf[5] >= 0x80
  {
    Int32BE(buf[5], buf[6], buf[7], buf[8])
  }

  /** GETSTAT: bytes 9..10, shaft velocity as a signed 16-bit number. */
  function StatusVelocity(buf: seq<Byte>): (v: int)
    requires 11 <= |buf|
    ensures -0x8000 <= v < 0x8000
    ensures v < 0 <==> buf[9] >= 0x80
  {
    Int16BE(buf[9], buf[10])
  }

  /** GETPOS: the extended position record. */
  function DecodePosition(buf: seq<Byte>): (p: ActPosition)
    requires 12 <= |buf|
    ensures p.extEncoderStatus == buf[2] && p.shaftEncStatus == buf[9]
    ensures 0 <= p.extAbsPos < 0x1_0000 && 0 <= p.shaftAbsPos < 0x1_0000
    ensures p.shaftPos == StatusShaftPos(buf)
  {
    ActPosition(buf[2], Uint16BE(buf[3], buf[4]), Int32BE(buf[5], buf[6], buf[7], buf[8]),
                buf[9], Uint16BE(buf[10], buf[11]))
  }

  /** GETDRVSTAT: the drive status record. */
  function DecodeDriveStatus(buf: seq<Byte>): (d: ActDriveStatus)
    requires 11 <= |buf|
    ensures d.driveStatus == buf[2]
    ensures 0 <= d.driveProtectStatus < 0x1_0000 && 0 <= d.systemProtectStatus < 0x1_0000
    ensures 0 <= d.driveSystemStatus1 < 0x1_0000 && 0 <= d.driveSystemStatus2 < 0x1_0000
    ensures d.driveProtectStatus / 256 == buf[3] && d.systemProtectStatus / 256 == buf[5]
    ensures d.driveSystemStatus1 / 256 == buf[7] && d.driveSystemStatus2 / 256 == buf[9]
  {
    ActDriveStatus(buf[2], Uint16BE(buf[3], buf[4]), Uint16BE(buf[5], buf[6]),
                   Uint16BE(buf[7], buf[8]), Uint16BE(buf[9], buf[10]))
  }

  /** GETACTINFO's serial number as the decoder assembles it: byte 7 OR byte 6,
      without shifting byte 6. */
  function SerialNo(b6: Byte, b7: Byte): (n: int)
    ensures 0 <= n < 256
  {
    ((b7 as bv8) | (b6 as bv8)) as int
  }

  /** GETACTINFO: serial number and firmware revision. */
  function DecodeActInfo(buf: seq<Byte>): (a: ActInfo)
    requires 9 <= |buf|
    ensures a.serialNo == SerialNo(buf[6], buf[7]) && 0 <= a.serialNo < 256 && a.firmwareRev == buf[8]
  {
    ActInfo(SerialNo(buf[6], buf[7]), buf[8])
  }

  /** The serial number decoder ignores byte order: swapping bytes 6 and 7
      gives the same number, so a high byte of 1 reads as 1, not 256. */
  lemma SerialNoIgnoresByteOrder(b6: Byte, b7: Byte)
    ensures SerialNo(b6, b7) == SerialNo(b7, b6)
    ensures SerialNo(0x01, 0x00) == 1
  {
    assert (b7 as bv8 | b6 as bv8) == (b6 as bv8 | b7 as bv8);
  }

  // The device side: reply frames as the actuator sends them.

  /** A reply frame: marker, total length, payload, checksum. */
  function ReplyFrame(marker: Byte, payload: seq<Byte>): (f: seq<Byte>)
    requires |payload| + 3 < 256
    ensures |f| == |payload| + 3 && f[0] == marker && f[1] == |f|
    ensures f[2..|f| - 1] == payload && ChecksumOk(f)
  {
    var body := [marker, |payload| + 3] + payload;
    ChecksumCompletes(body);
    body + [Checksum(body)]
  }

  /** The reply to GETSTAT for the given status bytes, position and velocity. */
  function StatusReply(marker: Byte, ctrlStatus: Byte, driveStatus: Byte, mode: Byte, pos: int, vel: int): seq<Byte>
  {
    ReplyFrame(marker, [ctrlStatus, driveStatus, mode] + BEBytes(pos, 4) + BEBytes(vel, 2))
  }

  /** A GETSTAT reply is accepted and decodes to the status it was built from,
      for every 32-bit position and 16-bit velocity. */
  lemma StatusReplyDecodes(k: DeviceConsts, marker: Byte, ctrlStatus: Byte, driveStatus: Byte,
                           mode: Byte, pos: int, vel: int)
    requires k.Valid() && k.IsReplyMarker(marker)
    requires -0x8000_0000 <= pos < 0x8000_0000 && -0x8000 <= vel < 0x8000
    ensures var f := StatusReply(marker, ctrlStatus, driveStatus, mode, pos, vel);
            |f| == 12 && ParsableBuffer(k, f) && ReplyOutcome(k, CMD_GETSTAT, f) == Ok &&
            f[2] == ctrlStatus && f[3] == driveStatus && f[4] == mode &&
            StatusShaftPos(f) == pos && StatusVelocity(f) == vel
  {
    var payload := [ctrlStatus, driveStatus, mode] + BEBytes(pos, 4) + BEBytes(vel, 2);
    var f := ReplyFrame(marker, payload);
    assert f[2..11] == payload;
    assert f[5..9] == BEBytes(pos, 4) && f[9..11] == BEBytes(vel, 2);
    Int32RoundTrip(pos);
    Int16RoundTrip(vel);
    assert f[..f[1]] == f;
  }

  /** The reply to GETPOS for the given encoder data. */
  function PositionReply(marker: Byte, p: ActPosition): seq<Byte>
  {
    ReplyFrame(marker, [p.extEncoderStatus] + BEBytes(p.extAbsPos, 2) + BEBytes(p.shaftPos, 4) +
                       [p.shaftEncStatus] + BEBytes(p.shaftAbsPos, 2))
  }

  /** A GETPOS reply is accepted and decodes to the record it was built from,
      when the absolute positions fit in 16 bits and the shaft position in 32. */
  lemma PositionReplyDecodes(k: DeviceConsts, marker: Byte, p: ActPosition)
    requires k.Valid() && k.IsReplyMarker(marker)
    requires 0 <= p.extAbsPos < 0x1_0000 && 0 <= p.shaftAbsPos < 0x1_0000
    requires -0x8000_0000 <= p.shaftPos < 0x8000_0000
    ensures var f := PositionReply(marker, p);
            |f| == 13 && ParsableBuffer(k, f) && ReplyOutcome(k, CMD_GETPOS, f) == Ok &&
            DecodePosition(f) == p
  {
    var payload := [p.extEncoderStatus] + BEBytes(p.extAbsPos, 2) + BEBytes(p.shaftPos, 4) +
                   [p.shaftEncStatus] + BEBytes(p.shaftAbsPos, 2);
    var f := ReplyFrame(marker, payload);
    assert f[2..12] == payload;
    assert f[3..5] == BEBytes(p.extAbsPos, 2);
    assert f[5..9] == BEBytes(p.shaftPos, 4);
    assert f[10..12] == BEBytes(p.shaftAbsPos, 2);
    Uint16RoundTrip(p.extAbsPos);
    Uint16RoundTrip(p.shaftAbsPos);
    Int32RoundTrip(p.shaftPos);
    assert f[..f[1]] == f;
  }

  /** The reply to GETDRVSTAT for the given drive status. */
  function DriveStatusReply(marker: Byte, d: ActDriveStatus): seq<Byte>
  {
    ReplyFrame(marker, [d.driveStatus] + BEBytes(d.driveProtectStatus, 2) +
                       BEBytes(d.systemProtectStatus, 2) + BEBytes(d.driveSystemStatus1, 2) +
                       BEBytes(d.driveSystemStatus2, 2))
  }

  /** A GETDRVSTAT reply is accepted and decodes to the record it was built
      from, when its four status words fit in 16 bits. */
  lemma DriveStatusReplyDecodes(k: DeviceConsts, marker: Byte, d: ActDriveStatus)
    requires k.Valid() && k.IsReplyMarker(marker)
    requires 0 <= d.driveProtectStatus < 0x1_0000 && 0 <= d.systemProtectStatus < 0x1_0000
    requires 0 <= d.driveSystemStatus1 < 0x1_0000 && 0 <= d.driveSystemStatus2 < 0x1_0000
    ensures var f := DriveStatusReply(marker, d);
            |f| == 12 && ParsableBuffer(k, f) && ReplyOutcome(k, CMD_GETDRVSTAT, f) == Ok &&
            DecodeDriveStatus(f) == d
  {
    var payload := [d.driveStatus] + BEBytes(d.driveProtectStatus, 2) +
                   BEBytes(d.systemProtectStatus, 2) + BEBytes(d.driveSystemStatus1, 2) +
                   BEBytes(d.driveSystemStatus2, 2);
    var f := ReplyFrame(marker, payload);
    assert f[2..11] == payload;
    assert f[3..5] == BEBytes(d.driveProtectStatus, 2);
    assert f[5..7] == BEBytes(d.systemProtectStatus, 2);
    assert f[7..9] == BEBytes(d.driveSystemStatus1, 2);
    assert f[9..11] == BEBytes(d.driveSystemStatus2, 2);
    Uint16RoundTrip(d.driveProtectStatus);
    Uint16RoundTrip(d.systemProtectStatus);
    Uint16RoundTrip(d.driveSystemStatus1);
    Uint16RoundTrip(d.driveSystemStatus2);
    assert f[..f[1]] == f;
  }

  lemma Uint16RoundTrip(v: int)
    requires 0 <= v < 0x1_0000
    ensures var s := BEBytes(v, 2); Uint16BE(s[0], s[1]) == v
  {
    var s := BEBytes(v, 2);
    assert s[1] == ByteAt(v, 0) && s[0] == ByteAt(v, 1) == ByteAt(v / 256, 0);
  }
}
