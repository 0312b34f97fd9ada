/** The actuator handler: its state as a value, the effect of each operation
    on that value, and the class whose methods update the state in place as
    the handler does. */
module Handler {
  import opened Bytes
  import opened ActRaw
  import opened ActTypes
  import opened FrameCodec
  import opened Calibration
  import opened Replies

  /** The flags a decoded reply raises and the has*Update queries clear. */
  datatype UpdateState = UpdateState(
    statusUpdate: bool, posUpdate: bool, driveStateUpdate: bool, actInfoUpdate: bool)

  const NoUpdates := UpdateState(false, false, false, false)

  /** Everything the handler holds: the outbound queue, the last command
      sent, the configuration, the decoded records, the run state with its
      calibration data, and the update flags. */
  datatype HandlerState = HandlerState(
    queue: seq<Frame>,
    lastCmd: Byte,
    config: Config,
    data: ActData,
    devStatus: ActDeviceStatus,
    flags: ActState,
    runState: RunState,
    lastPos: LastPos,
    position: ActPosition,
    driveStatus: ActDriveStatus,
    info: ActInfo,
    boundaries: ActBoundaries,
    updates: UpdateState)

  /** What the handler keeps true: every queued frame is a well-formed command
      frame, and while calibrating the stillness counter is below five. */
  predicate Consistent(k: DeviceConsts, s: HandlerState)
  {
    k.Valid() &&
    (forall f :: f in s.queue ==> IsCmdFrame(k, f)) &&
    (s.runState.Calibrating() ==> 0 <= s.lastPos.count < STILL_COUNT)
  }

  /** The part of the state the calibration state machine works on. */
  function CalPart(s: HandlerState): CalState
  {
    CalState(s.runState, s.lastPos, s.boundaries, s.flags, s.queue)
  }

  function WithCal(s: HandlerState, c: CalState): HandlerState
  {
    s.(runState := c.runState, lastPos := c.lastPos, boundaries := c.boundaries,
       flags := c.flags, queue := c.queue)
  }

  /** Appending four frames one at a time appends them all. */
  lemma AppendFour(q: seq<Frame>, fs: seq<Frame>)
    requires |fs| == 4
    ensures q + [fs[0]] + [fs[1]] + [fs[2]] + [fs[3]] == q + fs
  {
    assert fs == [fs[0], fs[1], fs[2], fs[3]];
  }

  /** setPos is ignored when configured for velocity control and running. */
  predicate PosIgnored(s: HandlerState): (b: bool)
    ensures b ==> s.runState == Running
    ensures s.runState == Running ==> (b <==> s.config.ctrlMode == ModeVel)
  {
    s.config.ctrlMode == ModeVel && s.runState == Running
  }

  /** The count setPos commands: clamped to the calibrated boundaries when
      running, taken as given in every other state. */
  function PosTarget(s: HandlerState, count: int): (c: int)
    ensures s.runState != Running ==> c == count
    ensures s.runState == Running && Ang2Count(s.boundaries.min) <= Ang2Count(s.boundaries.max) ==>
              Ang2Count(s.boundaries.min) <= c <= Ang2Count(s.boundaries.max)
    ensures s.runState == Running && Ang2Count(s.boundaries.min) <= count <= Ang2Count(s.boundaries.max) ==>
              c == count
  {
    if s.runState == Running then ClampCount(s.boundaries, count) else count
  }

  /** The state after setPos(count, velCoeff). */
  function AfterSetPos(k: DeviceConsts, s: HandlerState, count: int, velCoeff: real): (t: HandlerState)
    ensures PosIgnored(s) ==> t == s
    ensures !PosIgnored(s) ==>
              t == s.(lastPos := s.lastPos.(count := 0), queue := t.queue) &&
              t.queue == s.queue + PosFrames(k, s.config.velocity, PosTarget(s, count), velCoeff)
  {
    if PosIgnored(s) then s
    else s.(lastPos := s.lastPos.(count := 0),
            queue := s.queue + PosFrames(k, s.config.velocity, PosTarget(s, count), velCoeff))
  }

  /** When running in position mode with ordered boundaries that fit in 32
      bits, the position frame setPos enqueues carries a count within them,
      read back from its argument bytes. */
  lemma RunningSetPosStaysWithinBoundaries(k: DeviceConsts, s: HandlerState, count: int, velCoeff: real)
    requires s.runState == Running && s.config.ctrlMode != ModeVel
    requires -0x8000_0000 <= Ang2Count(s.boundaries.min) <= Ang2Count(s.boundaries.max) < 0x8000_0000
    ensures var t := AfterSetPos(k, s, count, velCoeff);
            var f := t.queue[|s.queue| + 1];
            |t.queue| == |s.queue| + 4 && f[2] == CMD_SETSHAFTPOS &&
            Ang2Count(s.boundaries.min) <= Int32BE(f[3], f[4], f[5], f[6]) <= Ang2Count(s.boundaries.max)
  {
    var c := PosTarget(s, count);
    var t := AfterSetPos(k, s, count, velCoeff);
    assert t.queue[|s.queue| + 1] == CmdFrame(k, CMD_SETSHAFTPOS, c, 4);
    CmdFrameInt32Argument(k, CMD_SETSHAFTPOS, c);
  }

  /** With the default configuration (velocity control), a handler that has
      finished calibrating ignores position commands. */
  lemma DefaultConfigIgnoresSetPosWhenRunning(k: DeviceConsts, s: HandlerState, homePos: int,
                                              count: int, velCoeff: real)
    requires s.config == DefaultConfig(homePos) && s.runState == Running
    ensures AfterSetPos(k, s, count, velCoeff) == s
  {
  }

  /** The state after calibrate(): ignored without a control mode or during a
      calibration; otherwise position mode is selected and the shaft sent a
      full turn in the negative direction at half the configured velocity. */
  function AfterCalibrate(k: DeviceConsts, s: HandlerState): (t: HandlerState)
    ensures s.config.ctrlMode == ModeNone || s.runState.Calibrating() ==> t == s
    ensures s.config.ctrlMode != ModeNone && !s.runState.Calibrating() ==>
              t == s.(runState := FindMin, lastPos := s.lastPos.(count := 0), queue := t.queue) &&
              t.queue == s.queue + [CmdFrame(k, CMD_SETCTRLMODE, ModePos.Code(), 1)] +
                         PosFrames(k, s.config.velocity, -FULLPOS, CAL_VEL_COEFF)
  {
    if s.config.ctrlMode == ModeNone || s.runState.Calibrating() then s
    else
      var started := s.(runState := FindMin,
                        queue := s.queue + [CmdFrame(k, CMD_SETCTRLMODE, ModePos.Code(), 1)]);
      AfterSetPos(k, started, Ang2Count(-360.0), CAL_VEL_COEFF)
  }

  /** The state after setControlMode(mode): ignored during a calibration or
      when the mode is already configured; otherwise velocity mode is entered
      at zero velocity, the mode is sent and the configuration updated. */
  function AfterSetControlMode(k: DeviceConsts, s: HandlerState, mode: ControlMode): (t: HandlerState)
    ensures t.config.ctrlMode == if s.runState.Calibrating() then s.config.ctrlMode else mode
    ensures t == s <==> s.runState.Calibrating() || mode == s.config.ctrlMode
    ensures t != s ==>
              t == s.(config := s.config.(ctrlMode := mode), queue := t.queue) &&
              |t.queue| == |s.queue| + (if mode == ModeVel then 2 else 1) && s.queue <= t.queue &&
              t.queue[|t.queue| - 1] == CmdFrame(k, CMD_SETCTRLMODE, mode.Code(), 1) &&
              (mode == ModeVel ==> t.queue[|s.queue|] == VelocityFrame(k, 0.0))
  {
    if s.runState.Calibrating() || mode == s.config.ctrlMode then s
    else
      var stopped := if mode == ModeVel then s.queue + [VelocityFrame(k, 0.0)] else s.queue;
      s.(config := s.config.(ctrlMode := mode),
         queue := stopped + [CmdFrame(k, CMD_SETCTRLMODE, mode.Code(), 1)])
  }

  /** Selecting the same control mode twice enqueues its commands once. */
  lemma SetControlModeIdempotent(k: DeviceConsts, s: HandlerState, mode: ControlMode)
    ensures AfterSetControlMode(k, AfterSetControlMode(k, s, mode), mode) == AfterSetControlMode(k, s, mode)
  {
    var t := AfterSetControlMode(k, s, mode);
    assert t.runState == s.runState;
  }

  /** The state after a GETSTAT reply has been decoded: status bytes, mode
      byte, position and velocity are stored, the calibration state machine
      advances, and the status flag is raised. */
  function AfterStatus(k: DeviceConsts, s: HandlerState, buf: seq<Byte>): (t: HandlerState)
    requires k.Valid() && 12 <= |buf|
    ensures t.lastCmd == s.lastCmd && t.config == s.config
    ensures t.position == s.position && t.driveStatus == s.driveStatus && t.info == s.info
    ensures t.updates == s.updates.(statusUpdate := true)
    ensures t.devStatus == s.devStatus.(ctrlStatus := buf[2], driveStatus := buf[3], shaftPos := StatusShaftPos(buf))
    ensures t.data.ctrlMode == buf[4] && t.data.shaftAng == Count2Ang(StatusShaftPos(buf))
    ensures t.data.shaftVel * k.velCoeff == StatusVelocity(buf) as real
    ensures t.lastPos.pos == StatusShaftPos(buf)
    ensures s.queue <= t.queue && forall f :: f in t.queue[|s.queue|..] ==> IsCmdFrame(k, f)
  {
    var pos := StatusShaftPos(buf);
    var s1 := s.(devStatus := s.devStatus.(ctrlStatus := buf[2], driveStatus := buf[3], shaftPos := pos),
                 data := ActData(buf[4], Count2Ang(pos), StatusVelocity(buf) as real / k.velCoeff));
    var s2 := WithCal(s1, OnStatus(k, s1.config, CalPart(s1), pos));
    s2.(updates := s2.updates.(statusUpdate := true))
  }

  /** The state after parseReply accepted `buf`: a reply frame is decoded
      according to the last command sent; an ACK, any other leading byte and
      a reply to a command that is not decoded change nothing. */
  function AfterReply(k: DeviceConsts, s: HandlerState, buf: seq<Byte>): (t: HandlerState)
    requires k.Valid() && ParsableBuffer(k, buf) && ReplyOutcome(k, s.lastCmd, buf) == Ok
    ensures t.lastCmd == s.lastCmd && t.config == s.config
    ensures s.queue <= t.queue && forall f :: f in t.queue[|s.queue|..] ==> IsCmdFrame(k, f)
    ensures !k.IsReplyMarker(buf[0]) || !Decodes(s.lastCmd) ==> t == s
  {
    if !k.IsReplyMarker(buf[0]) then s
    else if s.lastCmd == CMD_GETSTAT then AfterStatus(k, s, buf)
    else if s.lastCmd == CMD_GETPOS then
      s.(position := DecodePosition(buf),
         devStatus := s.devStatus.(encoderStatus := buf[9]),
         updates := s.updates.(posUpdate := true))
    else if s.lastCmd == CMD_GETDRVSTAT then
      s.(driveStatus := DecodeDriveStatus(buf), updates := s.updates.(driveStateUpdate := true))
    else if s.lastCmd == CMD_GETACTINFO then
      s.(info := DecodeActInfo(buf), updates := s.updates.(actInfoUpdate := true))
    else s
  }

  /** An accepted reply raises exactly the update flag of the command it
      answers, and only when it is a decoded reply frame; flags already
      raised stay raised. */
  lemma ReplyRaisesItsFlag(k: DeviceConsts, s: HandlerState, buf: seq<Byte>)
    requires k.Valid() && ParsableBuffer(k, buf) && ReplyOutcome(k, s.lastCmd, buf) == Ok
    ensures var t := AfterReply(k, s, buf);
            var decoded := k.IsReplyMarker(buf[0]);
            t.updates == UpdateState(
              s.updates.statusUpdate || (decoded && s.lastCmd == CMD_GETSTAT),
              s.updates.posUpdate || (decoded && s.lastCmd == CMD_GETPOS),
              s.updates.driveStateUpdate || (decoded && s.lastCmd == CMD_GETDRVSTAT),
              s.updates.actInfoUpdate || (decoded && s.lastCmd == CMD_GETACTINFO))
  {
  }

  /** A status reply stores the shaft position, its angle and the velocity
      (scaled back by the velocity coefficient); it is the only reply that
      drives the calibration state machine and the queue. */
  lemma StatusReplyStored(k: DeviceConsts, s: HandlerState, buf: seq<Byte>)
    requires k.Valid() && ParsableBuffer(k, buf) && ReplyOutcome(k, s.lastCmd, buf) == Ok
    requires k.IsReplyMarker(buf[0]) && s.lastCmd == CMD_GETSTAT
    ensures var t := AfterReply(k, s, buf);
            t.devStatus == s.devStatus.(ctrlStatus := buf[2], driveStatus := buf[3], shaftPos := StatusShaftPos(buf)) &&
            t.lastPos.pos == StatusShaftPos(buf) && t.data.ctrlMode == buf[4] &&
            t.data.shaftAng == Count2Ang(StatusShaftPos(buf)) &&
            t.data.shaftVel * k.velCoeff == StatusVelocity(buf) as real
  {
    assert |buf| >= 12;
    assert AfterReply(k, s, buf) == AfterStatus(k, s, buf);
  }

  /** Every other reply leaves the calibration state machine, the queue and
      the status data alone. */
  lemma OtherReplyKeepsCalibration(k: DeviceConsts, s: HandlerState, buf: seq<Byte>)
    requires k.Valid() && ParsableBuffer(k, buf) && ReplyOutcome(k, s.lastCmd, buf) == Ok
    requires s.lastCmd != CMD_GETSTAT
    ensures var t := AfterReply(k, s, buf);
            t.queue == s.queue && t.runState == s.runState && t.boundaries == s.boundaries &&
            t.flags == s.flags && t.lastPos == s.lastPos && t.data == s.data
  {
  }

  /** Position, drive-status and information replies store the decoded record
      (a position reply also the encoder status byte), raise their own update
      flag and change nothing else. */
  lemma RecordReplyStored(k: DeviceConsts, s: HandlerState, buf: seq<Byte>)
    requires k.Valid() && ParsableBuffer(k, buf) && ReplyOutcome(k, s.lastCmd, buf) == Ok
    requires k.IsReplyMarker(buf[0])
    ensures s.lastCmd == CMD_GETPOS ==>
              AfterReply(k, s, buf) == s.(position := DecodePosition(buf),
                                          devStatus := s.devStatus.(encoderStatus := buf[9]),
                                          updates := s.updates.(posUpdate := true))
    ensures s.lastCmd == CMD_GETDRVSTAT ==>
              AfterReply(k, s, buf) == s.(driveStatus := DecodeDriveStatus(buf),
                                          updates := s.updates.(driveStateUpdate := true))
    ensures s.lastCmd == CMD_GETACTINFO ==>
              AfterReply(k, s, buf) == s.(info := DecodeActInfo(buf),
                                          updates := s.updates.(actInfoUpdate := true))
  {
  }

  /** Decoding a reply keeps the handler consistent. */
  lemma AfterReplyConsistent(k: DeviceConsts, s: HandlerState, buf: seq<Byte>)
    requires Consistent(k, s) && ParsableBuffer(k, buf) && ReplyOutcome(k, s.lastCmd, buf) == Ok
    ensures Consistent(k, AfterReply(k, s, buf))
  {
    var t := AfterReply(k, s, buf);
    forall f | f in t.queue
      ensures IsCmdFrame(k, f)
    {
      var i :| 0 <= i < |t.queue| && t.queue[i] == f;
      if i >= |s.queue| {
        assert f in t.queue[|s.queue|..];
      }
    }
    if k.IsReplyMarker(buf[0]) && s.lastCmd == CMD_GETSTAT {
      var pos := StatusShaftPos(buf);
      var s1 := s.(devStatus := s.devStatus.(ctrlStatus := buf[2], driveStatus := buf[3], shaftPos := pos),
                   data := ActData(buf[4], Count2Ang(pos), StatusVelocity(buf) as real / k.velCoeff));
      var c := CalPart(s1);
      var step := if c.runState.Ord() < Running.Ord() then CalibrationStep(k, s1.config, c, pos) else c;
      assert t.runState == step.runState && t.lastPos.count == step.lastPos.count;
    }
  }

  /** A status reply performs exactly one step of the calibration state
      machine while the handler is below RUNNING, and none in RUNNING; either
      way the reported position then becomes the last position. */
  lemma StatusReplyStepsCalibration(k: DeviceConsts, s: HandlerState, buf: seq<Byte>, pos: int, c: CalState)
    requires k.Valid() && ParsableBuffer(k, buf) && ReplyOutcome(k, s.lastCmd, buf) == Ok
    requires k.IsReplyMarker(buf[0]) && s.lastCmd == CMD_GETSTAT
    requires 12 <= |buf| && pos == StatusShaftPos(buf)
    requires c == if s.runState.Ord() < Running.Ord() then CalibrationStep(k, s.config, CalPart(s), pos)
                  else CalPart(s)
    ensures CalPart(AfterReply(k, s, buf)) == c.(lastPos := LastPos(pos, c.lastPos.count))
  {
    assert AfterReply(k, s, buf) == AfterStatus(k, s, buf);
  }

  /** A status reply the actuator builds reaches the handler intact: with
      GETSTAT outstanding it is accepted and the position, angle and velocity
      the handler stores are those that were sent. */
  lemma StatusReplyReachesHandler(k: DeviceConsts, s: HandlerState, f: seq<Byte>, marker: Byte, ctrlStatus: Byte,
                                  driveStatus: Byte, mode: Byte, pos: int, vel: int)
    requires k.Valid() && k.IsReplyMarker(marker) && s.lastCmd == CMD_GETSTAT
    requires -0x8000_0000 <= pos < 0x8000_0000 && -0x8000 <= vel < 0x8000
    requires f == StatusReply(marker, ctrlStatus, driveStatus, mode, pos, vel)
    ensures ParsableBuffer(k, f) && ReplyOutcome(k, s.lastCmd, f) == Ok
    ensures var t := AfterReply(k, s, f);
            t.devStatus.shaftPos == pos && t.devStatus.ctrlStatus == ctrlStatus &&
            t.devStatus.driveStatus == driveStatus && t.data.ctrlMode == mode &&
            t.data.shaftAng == Count2Ang(pos) && t.data.shaftVel * k.velCoeff == vel as real &&
            t.updates.statusUpdate
  {
    StatusReplyDecodes(k, marker, ctrlStatus, driveStatus, mode, pos, vel);
    StatusReplyStored(k, s, f);
    ReplyRaisesItsFlag(k, s, f);
  }

  /** A position reply the actuator builds reaches the handler intact: with
      GETPOS outstanding the stored position record is the one that was sent. */
  lemma PositionReplyReachesHandler(k: DeviceConsts, s: HandlerState, marker: Byte, p: ActPosition)
    requires k.Valid() && k.IsReplyMarker(marker) && s.lastCmd == CMD_GETPOS
    requires 0 <= p.extAbsPos < 0x1_0000 && 0 <= p.shaftAbsPos < 0x1_0000
    requires -0x8000_0000 <= p.shaftPos < 0x8000_0000
    ensures var f := PositionReply(marker, p);
            ParsableBuffer(k, f) && ReplyOutcome(k, s.lastCmd, f) == Ok &&
            var t := AfterReply(k, s, f);
            t.position == p && t.devStatus.encoderStatus == p.shaftEncStatus && t.updates.posUpdate &&
            t.runState == s.runState && t.queue == s.queue
  {
    PositionReplyDecodes(k, marker, p);
    var f := PositionReply(marker, p);
    assert f[9] == p.shaftEncStatus;
    RecordReplyStored(k, s, f);
    OtherReplyKeepsCalibration(k, s, f);
    ReplyRaisesItsFlag(k, s, f);
  }

  // What one step of the calibration state machine does to the handler when
  // the shaft is found still, as the composition of the handler's own
  // operations (checkRunState is written in terms of them).

  lemma FindMinStill(k: DeviceConsts, s: HandlerState, pos: int)
    requires s.runState == FindMin && !MovingStep(s.lastPos, pos).0
    ensures WithCal(s, CalibrationStep(k, s.config, CalPart(s), pos)) ==
            AfterSetPos(k, s.(lastPos := MovingStep(s.lastPos, pos).1,
                              boundaries := s.boundaries.(min := pos as real), runState := FindMax),
                        Ang2Count(360.0), CAL_VEL_COEFF)
  {
  }

  lemma FindMaxStill(k: DeviceConsts, s: HandlerState, pos: int, half: int, target: int)
    requires s.runState == FindMax && !MovingStep(s.lastPos, pos).0
    requires half == TruncDiv(TruncToInt(pos as real - s.boundaries.min), 2)
    requires target == TruncToInt(half as real + s.boundaries.min)
    ensures WithCal(s, CalibrationStep(k, s.config, CalPart(s), pos)) ==
            AfterSetPos(k, s.(runState := SetZero, lastPos := MovingStep(s.lastPos, pos).1), target, 1.0)
              .(boundaries := ActBoundaries(Count2Ang(half) * -1.0, Count2Ang(half)))
  {
  }

  lemma SetZeroStill(k: DeviceConsts, s: HandlerState, pos: int)
    requires s.runState == SetZero && !MovingStep(s.lastPos, pos).0
    ensures WithCal(s, CalibrationStep(k, s.config, CalPart(s), pos)) ==
            AfterSetPos(k, s.(runState := GoHome, lastPos := MovingStep(s.lastPos, pos).1,
                              queue := s.queue + [CmdFrame(k, CMD_CLRSHAFTPOS, 0, 0)]),
                        Ang2Count(s.config.homePos as real), 1.0)
  {
  }

  lemma GoHomeStill(k: DeviceConsts, s: HandlerState, pos: int)
    requires s.runState == GoHome && !MovingStep(s.lastPos, pos).0
    ensures WithCal(s, CalibrationStep(k, s.config, CalPart(s), pos)) ==
            s.(lastPos := MovingStep(s.lastPos, pos).1,
               queue := s.queue + [VelocityFrame(k, 0.0), CmdFrame(k, CMD_SETCTRLMODE, s.config.ctrlMode.Code(), 1)],
               runState := Running, flags := s.flags.(calibrated := true))
  {
  }

  lemma StillMoving(k: DeviceConsts, s: HandlerState, pos: int)
    requires s.runState.Calibrating() && MovingStep(s.lastPos, pos).0
    ensures WithCal(s, CalibrationStep(k, s.config, CalPart(s), pos)) == s.(lastPos := MovingStep(s.lastPos, pos).1)
  {
  }

  /** The handler proper. Its fields are the members of the C++ class; the
      constants of the shared header are `k`. */
  class ActHandler {
    const k: DeviceConsts
    var queue: seq<Frame>
    var lastCmd: Byte
    var config: Config
    var data: ActData
    var devStatus: ActDeviceStatus
    var flags: ActState
    var runState: RunState
    var lastPos: LastPos
    var position: ActPosition
    var driveStatus: ActDriveStatus
    var info: ActInfo
    var boundaries: ActBoundaries
    var updates: UpdateState

    /** The handler's state as a value. */
    function State(): HandlerState
      reads this
    {
      HandlerState(queue, lastCmd, config, data, devStatus, flags, runState, lastPos,
                   position, driveStatus, info, boundaries, updates)
    }

    predicate Valid()
      reads this
    {
      Consistent(k, State())
    }

    /** The part of Valid() that holds at every step, also in the middle of
        an operation that has changed the run state but not yet the counter. */
    predicate FramesValid()
      reads this
    {
      k.Valid() && forall f :: f in queue ==> IsCmdFrame(k, f)
    }

    /** The handler starts in RESET with an empty queue and no command sent.
        The members its constructor leaves uninitialised (the last position,
        the device's shaft position and the absolute shaft position) are
        parameters. */
    constructor (k: DeviceConsts, config: Config, lastPos0: LastPos, shaftPos0: int, shaftAbsPos0: int)
      requires k.Valid()
      ensures Valid() && this.k == k
      ensures State() == HandlerState([], CMD_NONE, config, InitialActData(config.ctrlMode),
                                      InitialDeviceStatus(shaftPos0), InitialActState, Reset, lastPos0,
                                      InitialPosition(shaftAbsPos0), InitialDriveStatus, InitialActInfo,
                                      InitialBoundaries, NoUpdates)
    {
      this.k := k;
      queue := [];
      lastCmd := CMD_NONE;
      this.config := config;
      data := InitialActData(config.ctrlMode);
      devStatus := InitialDeviceStatus(shaftPos0);
      flags := InitialActState;
      runState := Reset;
      lastPos := lastPos0;
      position := InitialPosition(shaftAbsPos0);
      driveStatus := InitialDriveStatus;
      info := InitialActInfo;
      boundaries := InitialBoundaries;
      updates := NoUpdates;
    }

    /** enqueueCmdMsg: builds the frame in a buffer of 4 + length bytes,
        writes the argument bytes most significant first, sets the checksum
        and appends the frame to the queue. */
    method EnqueueCmdMsg(cmd: Byte, value: int, length: nat)
      requires FramesValid() && length <= 4
      modifies this
      ensures FramesValid()
      ensures queue == old(queue) + [CmdFrame(k, cmd, value, length)]
      ensures State() == old(State()).(queue := queue)
    {
      var msg := BuildCmdMsg(k, cmd, value, length);
      CmdFrameIsCmdFrame(k, cmd, value, length);
      queue := queue + [msg];
    }

    /** initDevice: enters INIT, drops pending frames and enqueues the
        initialisation sequence ending with a status request. */
    method InitDevice()
      requires Valid()
      modifies this
      ensures Valid()
      ensures State() == old(State()).(runState := Init, queue := [
                CmdFrame(k, CMD_CLRERR, 0, 0), CmdFrame(k, CMD_CLRERR, 0, 0),
                CmdFrame(k, CMD_SETTRAPVEL, 0, 3), CmdFrame(k, CMD_SETCTRLMODE, old(config).ctrlMode.Code(), 1),
                CmdFrame(k, CMD_GETSTAT, 0, 0)])
    {
      var ctrlMode := config.ctrlMode.Code();
      runState := Init;
      queue := [];
      EnqueueCmdMsg(CMD_CLRERR, 0, 0);
      EnqueueCmdMsg(CMD_CLRERR, 0, 0);
      EnqueueCmdMsg(CMD_SETTRAPVEL, 0, 3);
      EnqueueCmdMsg(CMD_SETCTRLMODE, ctrlMode, 1);
      EnqueueCmdMsg(CMD_GETSTAT, 0, 0);
    }

    /** requestStatus: asks for the status and the position. */
    method RequestStatus()
      requires Valid()
      modifies this
      ensures Valid()
      ensures State() == old(State()).(queue := old(queue) + [CmdFrame(k, CMD_GETSTAT, 0, 0),
                                                             CmdFrame(k, CMD_GETPOS, 0, 0)])
    {
      EnqueueCmdMsg(CMD_GETSTAT, 0, 0);
      EnqueueCmdMsg(CMD_GETPOS, 0, 0);
    }

    /** isIdle: no frame is waiting to be sent. */
    method IsIdle() returns (idle: bool)
      ensures idle <==> |queue| == 0
    {
      idle := queue == [];
    }

    /** setPos: see AfterSetPos. */
    method SetPos(count: int, velCoeff: real)
      requires FramesValid()
      modifies this
      ensures Valid()
      ensures State() == AfterSetPos(k, old(State()), count, velCoeff)
    {
      if config.ctrlMode == ModeVel && runState == Running {
        return;
      }
      ghost var s := State();
      var target := count;
      if runState == Running {
        var i := Ang2Count(boundaries.min);
        if target < i {
          target := i;
        }
        i := Ang2Count(boundaries.max);
        if target > i {
          target := i;
        }
      }
      assert target == PosTarget(s, count);
      lastPos := lastPos.(count := 0);
      EnqueueCmdMsg(CMD_CLRERR, 0, 0);
      EnqueueCmdMsg(CMD_SETSHAFTPOS, target, 4);
      SetVelocity(ScaledVelocity(config.velocity, velCoeff));
      EnqueueCmdMsg(CMD_CLRERR, 0, 0);
      AppendFour(s.queue, PosFrames(k, s.config.velocity, target, velCoeff));
      assert State() == s.(lastPos := s.lastPos.(count := 0), queue := queue);
    }

    /** setAnglePos: setPos for the count of an angle in degrees. */
    method SetAnglePos(ang: real, velCoeff: real)
      requires FramesValid()
      modifies this
      ensures Valid()
      ensures State() == AfterSetPos(k, old(State()), Ang2Count(ang), velCoeff)
    {
      SetPos(Ang2Count(ang), velCoeff);
    }

    /** setVelocity: clamps to the velocity limit and sends it scaled. */
    method SetVelocity(vel: real)
      requires FramesValid()
      modifies this
      ensures FramesValid()
      ensures State() == old(State()).(queue := old(queue) + [VelocityFrame(k, vel)])
    {
      var v := vel;
      if v < -k.velMaxRpm {
        v := -k.velMaxRpm;
      }
      if v > k.velMaxRpm {
        v := k.velMaxRpm;
      }
      assert v == ClampVelocity(k, vel);
      var scaled := TruncToInt(k.velCoeff * v);
      assert scaled == VelocityArg(k, vel);
      EnqueueCmdMsg(CMD_SETVEL, scaled, 4);
    }

    /** calibrate: see AfterCalibrate. */
    method Calibrate()
      requires Valid()
      modifies this
      ensures Valid()
      ensures State() == AfterCalibrate(k, old(State()))
    {
      if config.ctrlMode == ModeNone {
        return;
      }
      if Initialized.Ord() < runState.Ord() < Running.Ord() {
        return;
      }
      runState := FindMin;
      EnqueueCmdMsg(CMD_SETCTRLMODE, ModePos.Code(), 1);
      SetAnglePos(-360.0, CAL_VEL_COEFF);
    }

    /** setControlMode: see AfterSetControlMode. */
    method SetControlMode(mode: ControlMode)
      requires Valid()
      modifies this
      ensures Valid()
      ensures State() == AfterSetControlMode(k, old(State()), mode)
    {
      if Initialized.Ord() < runState.Ord() < Running.Ord() {
        return;
      }
      if mode == config.ctrlMode {
        return;
      }
      if mode == ModeVel {
        SetVelocity(0.0);
      }
      EnqueueCmdMsg(CMD_SETCTRLMODE, mode.Code(), 1);
      config := config.(ctrlMode := mode);
    }

    method RequestPosition()
      requires Valid()
      modifies this
      ensures Valid()
      ensures State() == old(State()).(queue := old(queue) + [CmdFrame(k, CMD_GETPOS, 0, 0)])
    {
      EnqueueCmdMsg(CMD_GETPOS, 0, 0);
    }

    method RequestDriveStatus()
      requires Valid()
      modifies this
      ensures Valid()
      ensures State() == old(State()).(queue := old(queue) + [CmdFrame(k, CMD_GETDRVSTAT, 0, 0)])
    {
      EnqueueCmdMsg(CMD_GETDRVSTAT, 0, 0);
    }

    method RequestActInfo()
      requires Valid()
      modifies this
      ensures Valid()
      ensures State() == old(State()).(queue := old(queue) + [CmdFrame(k, CMD_GETACTINFO, 0, 0)])
    {
      EnqueueCmdMsg(CMD_GETACTINFO, 0, 0);
    }

    /** hasStatusUpdate: true, consuming both flags, only once both the status
        and the position reply have been decoded. */
    method HasStatusUpdate() returns (r: bool)
      modifies this
      ensures r <==> old(updates.statusUpdate && updates.posUpdate)
      ensures State() == if r then old(State()).(updates := old(updates).(statusUpdate := false, posUpdate := false))
                         else old(State())
    {
      r := false;
      if updates.statusUpdate && updates.posUpdate {
        updates := updates.(statusUpdate := false, posUpdate := false);
        r := true;
      }
    }

    /** hasPosUpdate: reports and consumes the position flag. */
    method HasPosUpdate() returns (r: bool)
      modifies this
      ensures r == old(updates.posUpdate)
      ensures State() == old(State()).(updates := old(updates).(posUpdate := false))
    {
      r := false;
      if updates.posUpdate {
        updates := updates.(posUpdate := false);
        r := true;
      }
    }

    /** hasDriveStatusUpdate: reports and consumes the drive status flag. */
    method HasDriveStatusUpdate() returns (r: bool)
      modifies this
      ensures r == old(updates.driveStateUpdate)
      ensures State() == old(State()).(updates := old(updates).(driveStateUpdate := false))
    {
      r := false;
      if updates.driveStateUpdate {
        updates := updates.(driveStateUpdate := false);
        r := true;
      }
    }

    /** hasActInfoUpdate: reports and consumes the actuator info flag. */
    method HasActInfoUpdate() returns (r: bool)
      modifies this
      ensures r == old(updates.actInfoUpdate)
      ensures State() == old(State()).(updates := old(updates).(actInfoUpdate := false))
    {
      r := false;
      if updates.actInfoUpdate {
        updates := updates.(actInfoUpdate := false);
        r := true;
      }
    }

    /** setResetState: clears both readiness flags and returns to RESET. The
        queue is kept. */
    method SetResetState()
      requires Valid()
      modifies this
      ensures Valid()
      ensures State() == old(State()).(flags := ActState(false, false), runState := Reset)
    {
      flags := flags.(initialized := false, calibrated := false);
      runState := Reset;
    }

    /** checkMoving: see MovingStep. */
    method CheckMoving(pos: int) returns (moving: bool)
      modifies this
      ensures (moving, lastPos) == MovingStep(old(lastPos), pos)
      ensures State() == old(State()).(lastPos := lastPos)
    {
      if pos == lastPos.pos {
        lastPos := lastPos.(count := lastPos.count + 1);
        if lastPos.count >= STILL_COUNT {
          lastPos := lastPos.(count := 0);
          return false;
        }
      } else {
        lastPos := lastPos.(count := 0);
      }
      return true;
    }

    /** checkRunState: see CalibrationStep. */
    method CheckRunState()
      requires Valid()
      modifies this
      ensures Valid()
      ensures State() == WithCal(old(State()), CalibrationStep(k, old(config), CalPart(old(State())), old(devStatus.shaftPos)))
    {
      match runState {
        case Init =>
          runState := Initialized;
          flags := flags.(initialized := true);
        case FindMin => FindMinStep();
        case FindMax => FindMaxStep();
        case SetZero => SetZeroStep();
        case GoHome => GoHomeStep();
        case _ =>
      }
    }

    /** The cases of checkRunState's switch for the four calibrating states,
        each a method of its own. */
    method FindMinStep()
      requires runState == FindMin
      requires Valid()
      modifies this
      ensures Valid()
      ensures State() == WithCal(old(State()), CalibrationStep(k, old(config), CalPart(old(State())), old(devStatus.shaftPos)))
    {
      ghost var s := State();
      ghost var pos := devStatus.shaftPos;
      var moving := CheckMoving(devStatus.shaftPos);
      if !moving {
        boundaries := boundaries.(min := devStatus.shaftPos as real);
        runState := FindMax;
        SetAnglePos(360.0, CAL_VEL_COEFF);
        FindMinStill(k, s, pos);
      } else {
        StillMoving(k, s, pos);
      }
    }

    method FindMaxStep()
      requires runState == FindMax
      requires Valid()
      modifies this
      ensures Valid()
      ensures State() == WithCal(old(State()), CalibrationStep(k, old(config), CalPart(old(State())), old(devStatus.shaftPos)))
    {
      ghost var s := State();
      ghost var pos := devStatus.shaftPos;
      var moving := CheckMoving(devStatus.shaftPos);
      if !moving {
        runState := SetZero;
        var range := TruncToInt(devStatus.shaftPos as real - boundaries.min);
        var half := TruncDiv(range, 2);
        var target := TruncToInt(half as real + boundaries.min);
        ghost var before := State();
        assert before == s.(runState := SetZero, lastPos := MovingStep(s.lastPos, pos).1);
        SetPos(target, 1.0);
        ghost var moved := State();
        var max := Count2Ang(half);
        boundaries := boundaries.(max := max);
        boundaries := boundaries.(min := boundaries.max * -1.0);
        assert State() == moved.(boundaries := ActBoundaries(max * -1.0, max));
        FindMaxStill(k, s, pos, half, target);
      } else {
        StillMoving(k, s, pos);
      }
    }

    method SetZeroStep()
      requires runState == SetZero
      requires Valid()
      modifies this
      ensures Valid()
      ensures State() == WithCal(old(State()), CalibrationStep(k, old(config), CalPart(old(State())), old(devStatus.shaftPos)))
    {
      ghost var s := State();
      ghost var pos := devStatus.shaftPos;
      var moving := CheckMoving(devStatus.shaftPos);
      if !moving {
        runState := GoHome;
        EnqueueCmdMsg(CMD_CLRSHAFTPOS, 0, 0);
        SetPos(Ang2Count(config.homePos as real), 1.0);
        SetZeroStill(k, s, pos);
      } else {
        StillMoving(k, s, pos);
      }
    }

    method GoHomeStep()
      requires runState == GoHome
      requires Valid()
      modifies this
      ensures Valid()
      ensures State() == WithCal(old(State()), CalibrationStep(k, old(config), CalPart(old(State())), old(devStatus.shaftPos)))
    {
      ghost var s := State();
      ghost var pos := devStatus.shaftPos;
      var moving := CheckMoving(devStatus.shaftPos);
      if !moving {
        SetVelocity(0.0);
        EnqueueCmdMsg(CMD_SETCTRLMODE, config.ctrlMode.Code(), 1);
        runState := Running;
        flags := flags.(calibrated := true);
        GoHomeStill(k, s, pos);
      } else {
        StillMoving(k, s, pos);
      }
    }

    /** The GETSTAT case of parseReply: store the status bytes, mode,
        position, angle and velocity, let the calibration state machine take
        its step, remember the position and raise the status flag. */
    method DecodeStatus(buffer: seq<Byte>)
      requires Valid() && 12 <= |buffer|
      modifies this
      ensures Valid()
      ensures State() == AfterStatus(k, old(State()), buffer)
    {
      ghost var s := State();
      devStatus := devStatus.(ctrlStatus := buffer[2], driveStatus := buffer[3]);
      data := data.(ctrlMode := buffer[4]);
      devStatus := devStatus.(shaftPos := Int32BE(buffer[5], buffer[6], buffer[7], buffer[8]));
      data := data.(shaftAng := Count2Ang(devStatus.shaftPos));
      var vel := Int16BE(buffer[9], buffer[10]);
      data := data.(shaftVel := vel as real / k.velCoeff);
      ghost var s1 := State();
      if runState.Ord() < Running.Ord() {
        CheckRunState();
      }
      ghost var s2 := State();
      assert s2 == WithCal(s1, if s1.runState.Ord() < Running.Ord() then CalibrationStep(k, s1.config, CalPart(s1), s1.devStatus.shaftPos) else CalPart(s1));
      lastPos := lastPos.(pos := devStatus.shaftPos);
      updates := updates.(statusUpdate := true);
    }

    /** parseReply: see ReplyOutcome and AfterReply. A rejected reply changes
        nothing. */
    method ParseReply(buffer: seq<Byte>) returns (r: Status)
      requires Valid() && ParsableBuffer(k, buffer)
      modifies this
      ensures Valid()
      ensures r == ReplyOutcome(k, old(lastCmd), buffer)
      ensures State() == if r == Ok then AfterReply(k, old(State()), buffer) else old(State())
    {
      if buffer[0] == ACK {
        return Ok;
      } else if buffer[0] == NAK {
        return DevNak;
      } else if buffer[0] == k.replUnchgMsg || buffer[0] == k.replChgMsg {
        var ok := CheckCS(buffer);
        if !ok {
          return ChecksumError;
        }
        if lastCmd == CMD_GETSTAT {
          if buffer[1] != 0x0C {
            return DevReplyInvalid;
          }
          DecodeStatus(buffer);
        } else if lastCmd == CMD_GETPOS {
          if buffer[1] != 0x0D {
            return DevReplyInvalid;
          }
          position := DecodePosition(buffer);
          devStatus := devStatus.(encoderStatus := buffer[9]);
          updates := updates.(posUpdate := true);
        } else if lastCmd == CMD_GETDRVSTAT {
          if buffer[1] != 0x0C {
            return DevReplyInvalid;
          }
          driveStatus := DecodeDriveStatus(buffer);
          updates := updates.(driveStateUpdate := true);
        } else if lastCmd == CMD_GETACTINFO {
          if buffer[1] != 0x0C {
            return DevReplyInvalid;
          }
          info := DecodeActInfo(buffer);
          updates := updates.(actInfoUpdate := true);
        }
      }
      return Ok;
    }
  }
}
