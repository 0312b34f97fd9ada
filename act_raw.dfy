/** Wire-level constants of the Schilling command list: the opcodes, the bare
    ACK and NAK bytes, the encoder counts of a full turn, and the constants
    whose values live in a header outside this model. */
module ActRaw {
  import opened Bytes

  const ACK: Byte := 0x06
  const NAK: Byte := 0x15

  /** Encoder counts of one full shaft revolution. */
  const FULLPOS: int := 205000

  // Opcodes (the CMD enumeration).
  const CMD_NONE: Byte := 0x00
  const CMD_CLRERR: Byte := 0x03
  const CMD_SETCTRLMODE: Byte := 0x04
  const CMD_GETACTINFO: Byte := 0x05
  const CMD_GETOLDSTAT: Byte := 0x06
  const CMD_CLRSHAFTPOS: Byte := 0x07
  const CMD_SETWD: Byte := 0x09
  const CMD_SETTRAPVEL: Byte := 0x0C
  const CMD_SETTRAPPOS: Byte := 0x0D
  const CMD_GETPOS: Byte := 0x20
  const CMD_GETSTAT: Byte := 0x21
  const CMD_GETDRVSTAT: Byte := 0x22
  const CMD_SETVEL: Byte := 0x30
  const CMD_SETSHAFTPOS: Byte := 0x31

  /** The constants defined by the shared Schilling header, whose values are
      not fixed here: the marker of command frames, the two reply markers
      ("status unchanged" and "status changed"), the velocity limit in RPM and
      the factor between RPM and the device's velocity units. */
  datatype DeviceConsts = DeviceConsts(
    cmdMsg: Byte,
    replUnchgMsg: Byte,
    replChgMsg: Byte,
    velMaxRpm: real,
    velCoeff: real)
  {
    /** The reply markers are distinct from the bare ACK and NAK bytes, the
        velocity limit is not negative and the velocity factor is not zero. */
    predicate Valid()
    {
      replUnchgMsg != ACK && replUnchgMsg != NAK &&
      replChgMsg != ACK && replChgMsg != NAK &&
      velMaxRpm >= 0.0 && velCoeff != 0.0
    }

    predicate IsReplyMarker(b: Byte)
    {
      b == replUnchgMsg || b == replChgMsg
    }

    /** A byte at which the packet extractor synchronises. */
    predicate IsMarker(b: Byte)
    {
      b == ACK || IsReplyMarker(b)
    }
  }
}
