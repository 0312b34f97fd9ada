/** The records the handler fills from device replies, and its configuration. */
module ActTypes {
  import opened Bytes

  /** Control mode of the actuator; MODE_NONE disables the moving functions. */
  datatype ControlMode = ModeNone | ModePos | ModeVel
  {
    /** The value of the enumerator as sent in a SETCTRLMODE argument. */
    function Code(): Byte
    {
      match this
      case ModeNone => 0
      case ModePos => 1
      case ModeVel => 2
    }
  }

  /** Operational data. The control mode is the raw byte of the last status
      reply (a cast to the enumeration, so any byte value); the timestamp is
      not modelled. */
  datatype ActData = ActData(ctrlMode: Byte, shaftAng: real, shaftVel: real)

  /** Status bytes and the shaft position in signed encoder counts. */
  datatype ActDeviceStatus = ActDeviceStatus(
    ctrlStatus: Byte, driveStatus: Byte, encoderStatus: Byte, shaftPos: int)

  /** Readiness flags: both set means the actuator may be moved. */
  datatype ActState = ActState(initialized: bool, calibrated: bool)

  /** Extended position data. */
  datatype ActPosition = ActPosition(
    extEncoderStatus: Byte, extAbsPos: int, shaftPos: int,
    shaftEncStatus: Byte, shaftAbsPos: int)

  /** Drive status data. */
  datatype ActDriveStatus = ActDriveStatus(
    driveStatus: Byte, driveProtectStatus: int, systemProtectStatus: int,
    driveSystemStatus1: int, driveSystemStatus2: int)

  /** Actuator information. */
  datatype ActInfo = ActInfo(serialNo: int, firmwareRev: int)

  /** Travel limits in degrees found by calibration. */
  datatype ActBoundaries = ActBoundaries(min: real, max: real)

  /** Commanded cruise velocity, configured control mode and home angle in degrees. */
  datatype Config = Config(velocity: int, ctrlMode: ControlMode, homePos: int)

  /** The default configuration: velocity 1250 in velocity mode. Its home angle
      is left uninitialised by the default constructor, so it is a parameter here. */
  function DefaultConfig(homePos: int): Config
  {
    Config(1250, ModeVel, homePos)
  }

  // Defaults of the record constructors. A field the constructor leaves
  // uninitialised is a parameter.
  const InitialActState := ActState(false, false)
  const InitialBoundaries := ActBoundaries(0.0, 0.0)
  const InitialDriveStatus := ActDriveStatus(0, 0, 0, 0, 0)
  const InitialActInfo := ActInfo(0, 0)

  function InitialActData(mode: ControlMode): ActData
  {
    ActData(mode.Code(), 0.0, 0.0)
  }

  function InitialDeviceStatus(shaftPos: int): ActDeviceStatus
  {
    ActDeviceStatus(0, 0, 0, shaftPos)
  }

  function InitialPosition(shaftAbsPos: int): ActPosition
  {
    ActPosition(0, 0, 0, 0, shaftAbsPos)
  }
}
