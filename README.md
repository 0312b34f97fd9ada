# Schilling rotary actuator: the ActHandler protocol engine in Dafny

This project models the protocol engine of the driver for Schilling rotary
actuators and proves properties of it. The engine sits between a serial
line and the user of the actuator, and has five parts.

1. **Frame encoder and checksum.** A command frame is `[type, 4 + n, cmd, n argument bytes most significant first, checksum]`. The checksum makes the bytes of the frame sum to a multiple of 256.
2. **Packet extractor.** It scans the received bytes for an ACK or a reply marker. It reports a whole packet, asks for more bytes, or asks to drop leading noise.
3. **Reply decoder.** It checks a received packet against the last command sent. It fills the status, position, drive-status or actuator-information record.
4. **Command queue.** The operations of the handler fill a FIFO of frames. The driver's `writeNext` drains it one frame at a time and remembers the opcode of the frame it sent.
5. **Calibration state machine.** Driven by status replies, it runs RESET, INIT, INITIALIZED, FINDMIN, FINDMAX, SETZERO, GOHOME, RUNNING. It finds the mechanical end stops and centres the travel range.

Files, one module each:

- `bytes.dfy` (`Bytes`): byte sums, the checksum, big-endian extraction and assembly, the C++ conversions that truncate toward zero.
- `act_raw.dfy` (`ActRaw`): opcodes, ACK/NAK, counts per turn, and `DeviceConsts`. `DeviceConsts` holds the constants whose values come from a header outside this model.
- `act_types.dfy` (`ActTypes`): the records, the configuration and their defaults.
- `frame_codec.dfy` (`FrameCodec`): building frames, `setCS`, `checkCS`, `extractPacket`.
- `calibration.dfy` (`Calibration`): run states and their order, unit conversions, the stillness detector, the frames of a position command, one step of `checkRunState`.
- `replies.dfy` (`Replies`): the outcome of `parseReply` for a buffer, the decoders, and reply encoders used to state round trips.
- `handler.dfy` (`Handler`): the handler's state as a value (`HandlerState`), the effect of each operation on it, and the class `ActHandler`, whose methods update the state in place as the C++ members do.
- `driver.dfy` (`SchillingDriver`): `read` and `writeNext` of the driver, over an `ActHandler`.

Each `ActHandler` method is proved against a function on `HandlerState`, for example `State() == AfterSetPos(k, old(State()), count, velCoeff)`. The properties are proved about those functions. Every method also preserves the invariant `Valid()`:

- every queued frame is a well-formed command frame;
- while calibrating, the stillness counter stays below five.

A thrown `MarError` becomes a `Status` result. The handler state is then unchanged, because `parseReply` raises every error before writing any field.

## Model

| member | source | states |
|---|---|---|
| Bytes.Checksum | src/ActHandler.cpp:263-267 | the checksum byte brings the sum of the body plus itself to a multiple of 256 |
| Bytes.ChecksumCompletes | src/ActHandler.cpp:262-267 | a body followed by its checksum byte is an intact frame; its sum is the body's sum plus the checksum |
| Bytes.SingleByteCorruptionDetected | src/ActHandler.cpp:278-285 | changing any one byte of an intact frame to a different value breaks the checksum |
| Bytes.BERoundTrip | src/ActHandler.cpp:219-222 | the n argument bytes of a value in [0, 256^n) read back big-endian give the value |
| Bytes.Int32BE | src/ActHandler.cpp:309-312 | the assembled 32-bit value is in the signed 32-bit range and equals the unsigned big-endian value modulo 2^32 |
| Bytes.Int16BE | src/ActHandler.cpp:314-315 | the int16 velocity is in the signed 16-bit range and equals the unsigned big-endian value modulo 2^16 |
| Bytes.Uint16BE | src/ActHandler.cpp:330-331 | a 16-bit field is in [0, 65536), with the first byte as its high byte and the second as its low byte |
| Bytes.Int32RoundTrip | src/ActHandler.cpp:309-312 | every signed 32-bit value survives splitting into four big-endian bytes and reassembly |
| Bytes.Int16RoundTrip | src/ActHandler.cpp:314-315 | every signed 16-bit value survives splitting into two bytes and reassembly |
| Bytes.TruncToInt | src/ActHandler.cpp:379-382 | `int(x)` truncates toward zero: the result lies within 1 of x, on the side of x toward zero |
| Bytes.TruncDiv | src/ActHandler.cpp:422-424 | C++ integer division: the magnitude is the quotient of the magnitudes and the sign is that of the dividend |
| FrameCodec.CmdFrame | src/ActHandler.cpp:212-225 | the frame has 4 + n bytes: command marker, length 4 + n, the opcode, the n low bytes of the value most significant first, and an intact checksum |
| FrameCodec.CmdFrameIsCmdFrame | src/ActHandler.cpp:212-225 | every frame enqueueCmdMsg builds is well formed: marker, length byte equal to its length, intact checksum |
| FrameCodec.CmdFrameArgument | src/ActHandler.cpp:219-222 | the argument bytes of a frame read back as the argument when it fits into them |
| FrameCodec.CmdFrameInt32Argument | src/ActHandler.cpp:219-222 | a 4-byte argument read as two's complement gives back every signed 32-bit argument, negative ones included |
| FrameCodec.SetCS | src/ActHandler.cpp:256-269 | the byte at position length - 1 is replaced by the checksum of the bytes before it; every other byte is kept |
| FrameCodec.BuildCmdMsg | src/ActHandler.cpp:214-223 | the buffer filled byte by byte and checksummed in place is exactly the frame `CmdFrame` describes |
| FrameCodec.CheckCS | src/ActHandler.cpp:271-287 | accepts exactly the frames (up to the header's length byte) whose bytes sum to a multiple of 256 |
| FrameCodec.MarkerIndex | src/ActHandler.cpp:229-239 | the index of the first ACK or reply marker, or the buffer size when there is none |
| FrameCodec.Extracted | src/ActHandler.cpp:227-254 | bounded by ±size. Positive only for a marker at offset 0: 1 for ACK, the header length for a reply whose bytes are all there. Negative -i only when bytes 0..i-1 hold no marker, and byte i is one. Zero exactly for an empty buffer or an incomplete reply header/frame |
| FrameCodec.ExtractPacket | src/ActHandler.cpp:227-254 | the scanning loop returns exactly `Extracted` |
| FrameCodec.NoiseIsDiscarded | src/ActHandler.cpp:229-242 | leading bytes without a marker are dropped as a whole; what remains starts at the marker |
| FrameCodec.CompleteReplyExtracted | src/ActHandler.cpp:243-249 | a reply frame whose declared length has arrived is extracted whole, whatever follows it |
| FrameCodec.NoiseThenReply | src/ActHandler.cpp:227-254 | noise followed by a reply frame: first exactly the noise is dropped, then the frame is reported |
| FrameCodec.NakIsDiscarded | src/ActHandler.cpp:229-253 | a buffer starting with NAK is never reported as a packet; its leading bytes are dropped |
| FrameCodec.ZeroLengthHeaderWaitsForever | src/ActHandler.cpp:246-250 | a reply header with length byte 0 makes the extractor ask for more bytes however many arrive |
| Calibration.RunStatesTotallyOrdered | src/ActHandler.hpp:14-23 | any two run states are equal or ordered by declaration order |
| Calibration.CalibratingStates | src/ActHandler.cpp:109 | "strictly between INITIALIZED and RUNNING" is exactly FINDMIN, FINDMAX, SETZERO, GOHOME |
| Calibration.Advance | src/ActHandler.cpp:403-447 | the state a still shaft moves to: INIT and each calibrating state go to the next state in declaration order; every other state stays |
| Calibration.Count2Ang | src/ActHandler.cpp:384-387 | counts to degrees: the sign is kept, one full turn (205000 counts) is 360 degrees, and counts within one turn give at most 360 degrees |
| Calibration.Ang2Count | src/ActHandler.cpp:379-382 | degrees to counts, truncated toward zero: for a positive angle the largest count whose angle does not exceed it, for a negative angle the smallest count whose angle is not below it |
| Calibration.Ang2CountInvertsCount2Ang | src/ActHandler.cpp:379-387 | in exact arithmetic ang2count(count2ang(c)) == c |
| Calibration.MovingStep | src/ActHandler.cpp:389-401 | "not moving" exactly when the reading equals the last position and the incremented counter reaches 5. The counter is then 0; a different reading also clears it; the counter stays in 0..4 |
| Calibration.StillNeedsFiveEqualReadings | src/ActHandler.cpp:389-401 | stillness is reported only after five readings in a row that each equal the one before, and not before the (5 - count)-th reading |
| Calibration.RepeatedReadingsStop | src/ActHandler.cpp:389-401 | from counter c, 5 - c readings equal to the last position report stillness at the last one and not before |
| Calibration.FiveEqualReadingsStop | src/ActHandler.cpp:389-401 | five readings in a row equal to their predecessors always include a report of stillness, whatever the counter was |
| Calibration.ClampVelocity | src/ActHandler.cpp:95-100 | the velocity is clamped to [-ACT_VEL_MAX_RPM, ACT_VEL_MAX_RPM]; a velocity inside is unchanged, one outside becomes the nearer bound |
| Calibration.VelocityArg | src/ActHandler.cpp:95-101 | the SETVEL argument: 0 for a zero velocity, and with a positive ACT_VEL_COEFF never beyond ±ACT_VEL_COEFF·ACT_VEL_MAX_RPM |
| Calibration.VelocityFrame | src/ActHandler.cpp:101 | the SETVEL frame setVelocity enqueues: a well-formed 8-byte frame whose four argument bytes are `VelocityArg`, most significant first |
| Calibration.ScaledVelocity | src/ActHandler.cpp:84 | the velocity setPos requests: the configured velocity itself for a coefficient of 1, and half of it for the calibration coefficient 0.5 |
| Calibration.PosFrames | src/ActHandler.cpp:81-85 | a position command is exactly four well-formed frames: CLRERR, SETSHAFTPOS, SETVEL, CLRERR |
| Calibration.ClampCount | src/ActHandler.cpp:71-80 | the target count is clamped into [ang2count(min), ang2count(max)]; a count inside is unchanged |
| Calibration.CalibrationStep | src/ActHandler.cpp:403-447 | at most one step forward: INIT→INITIALIZED setting `initialized`; each calibrating state advances exactly when the shaft is still; entering RUNNING sets `calibrated`; RESET, INITIALIZED, RUNNING are unchanged; leaving FINDMIN stores the raw count as min; leaving FINDMAX sets max = count2ang(range/2) and min = -max; frames are only appended, all well formed; the counter stays in 0..4 |
| Calibration.OnStatus | src/ActHandler.cpp:317-320 | after a status reply the last position is the reported one. Below RUNNING the result is exactly one `CalibrationStep` followed by recording the reading; in RUNNING nothing else changes; frames are only appended, all well formed |
| Calibration.SymmetricTravelGivesHalfTurnBoundaries | src/ActHandler.cpp:419-426 | end stops at -102500 and +102500 counts give boundaries of -180 and +180 degrees |
| Replies.ReplyLength | src/ActHandler.cpp:301-364 | the length required of a reply is 13 (0x0D) for GETPOS and 12 (0x0C) for GETSTAT, GETDRVSTAT and GETACTINFO |
| Replies.ReplyOutcome | src/ActHandler.cpp:289-376 | ACK is accepted. NAK is an error exactly when the packet starts with NAK. A checksum error exactly for a reply frame with a bad checksum. A length error exactly for a decoded command with the wrong length. An accepted decoded reply has the required length |
| Replies.CorruptedReplyRejected | src/ActHandler.cpp:271-287 | corrupting any single byte of an intact reply past its length byte makes parseReply fail with a checksum error |
| Replies.StatusShaftPos | src/ActHandler.cpp:309-312 | the status reply's shaft position, bytes 5..8, is a signed 32-bit count, negative exactly when the top bit of byte 5 is set; its round trip is `Replies.StatusReplyDecodes` |
| Replies.StatusVelocity | src/ActHandler.cpp:314-315 | the status reply's velocity, bytes 9..10, is a signed 16-bit value, negative exactly when the top bit of byte 9 is set |
| Replies.DecodePosition | src/ActHandler.cpp:329-338 | the position record: status bytes 2 and 9, two unsigned 16-bit absolute positions, and a shaft position read from bytes 5..8 exactly as in a status reply; its round trip is `Replies.PositionReplyDecodes` |
| Replies.DecodeDriveStatus | src/ActHandler.cpp:349-357 | the drive-status record: status byte 2 and four unsigned 16-bit words whose high bytes are bytes 3, 5, 7 and 9; its round trip is `Replies.DriveStatusReplyDecodes` |
| Replies.DecodeActInfo | src/ActHandler.cpp:366-368 | the information record: the serial number is `SerialNo` of bytes 6 and 7, so below 256, and the firmware revision is byte 8 |
| Replies.SerialNo | src/ActHandler.cpp:366-367 | the serial number, bytes 7 and 6 OR-ed without a shift, is below 256 |
| Replies.SerialNoIgnoresByteOrder | src/ActHandler.cpp:366-367 | for all bytes, swapping bytes 6 and 7 gives the same serial number; a high byte of 1 reads as 1 |
| Replies.ReplyFrame | src/ActRaw.hpp:46-51 | a reply frame is marker, length byte equal to its length, payload, intact checksum |
| Replies.StatusReplyDecodes | src/ActHandler.cpp:301-322 | a GETSTAT reply is accepted and gives back its status bytes, mode byte, 32-bit position and 16-bit velocity |
| Replies.PositionReplyDecodes | src/ActHandler.cpp:324-342 | a GETPOS reply is accepted and decodes to the position record it was built from |
| Replies.DriveStatusReplyDecodes | src/ActHandler.cpp:344-359 | a GETDRVSTAT reply is accepted and decodes to the drive-status record it was built from |
| Replies.Uint16RoundTrip | src/ActHandler.cpp:330-331 | a 16-bit word survives splitting into two bytes and reassembly |
| Handler.PosIgnored | src/ActHandler.cpp:68-70 | setPos's guard: ignored only in RUNNING, and in RUNNING exactly in velocity mode (the contract is the guard itself) |
| Handler.DefaultConfigIgnoresSetPosWhenRunning | src/Config.hpp:15-19 | with the default configuration (velocity 1250, velocity mode) a handler in RUNNING ignores every setPos |
| Handler.PosTarget | src/ActHandler.cpp:71-80 | outside RUNNING the count is taken as given; in RUNNING it lies within the calibrated boundaries, and a count inside them is unchanged |
| Handler.AfterSetPos | src/ActHandler.cpp:66-86 | skipped exactly in velocity mode while RUNNING; otherwise the stillness counter is cleared and the four frames of `PosFrames` are appended, nothing else changes |
| Handler.RunningSetPosStaysWithinBoundaries | src/ActHandler.cpp:71-83 | in RUNNING (position mode) the SETSHAFTPOS argument that goes out lies within the calibrated boundaries |
| Handler.AfterCalibrate | src/ActHandler.cpp:104-115 | no effect without a control mode or during a calibration. Otherwise the state is FINDMIN and the counter is 0. SETCTRLMODE(position) and a full turn in the negative direction at half speed are appended |
| Handler.AfterSetControlMode | src/ActHandler.cpp:117-130 | no effect during calibration or for the current mode. Otherwise the mode is stored and SETCTRLMODE(mode) is appended, preceded by SETVEL(0) when switching to velocity mode |
| Handler.SetControlModeIdempotent | src/ActHandler.cpp:122-124 | selecting the same mode twice enqueues its frames once |
| Handler.AfterStatus | src/ActHandler.cpp:301-322 | a status reply stores ctrlStatus, driveStatus, mode byte, position, angle and velocity (scaled back by ACT_VEL_COEFF). It sets the last position and raises only the status flag. Other records are kept; frames are only appended |
| Handler.AfterReply | src/ActHandler.cpp:289-376 | an ACK, a non-reply byte or a reply to a command that is not decoded changes nothing; command and configuration are kept; frames are only appended, all well formed |
| Handler.ReplyRaisesItsFlag | src/ActHandler.cpp:289-376 | an accepted reply raises exactly the update flag of the last command, and only if it is a reply frame |
| Handler.StatusReplyStepsCalibration | src/ActHandler.cpp:317-320 | a GETSTAT reply below RUNNING performs exactly one `CalibrationStep` on the run state, boundaries, flags, queue and stillness counter, and in RUNNING none; the reported position becomes the last position |
| Handler.StatusReplyStored | src/ActHandler.cpp:305-320 | a GETSTAT reply stores status bytes, position, angle, mode and velocity, and the last position |
| Handler.OtherReplyKeepsCalibration | src/ActHandler.cpp:324-372 | any reply other than to GETSTAT leaves queue, run state, boundaries, flags, last position and data unchanged |
| Handler.RecordReplyStored | src/ActHandler.cpp:324-369 | the full new state for GETPOS, GETDRVSTAT and GETACTINFO replies: the decoded record is stored (GETPOS also stores the encoder status byte), that command's update flag is raised, and nothing else changes |
| Handler.AfterReplyConsistent | src/ActHandler.cpp:289-376 | decoding an accepted reply keeps the handler invariant |
| Handler.StatusReplyReachesHandler | src/ActHandler.cpp:301-322 | a status reply built by the actuator is accepted; the handler stores exactly its bytes, position, angle and velocity and raises the status flag |
| Handler.PositionReplyReachesHandler | src/ActHandler.cpp:324-342 | a position reply built by the actuator is accepted and stored exactly; calibration and queue are untouched |
| Handler.FindMinStill | src/ActHandler.cpp:411-418 | the FINDMIN step with the shaft still is: store min, enter FINDMAX, setAnglePos(360, 0.5) |
| Handler.FindMaxStill | src/ActHandler.cpp:419-428 | the FINDMAX step with the shaft still is: enter SETZERO, setPos(range/2 + min), then set the symmetric boundaries |
| Handler.SetZeroStill | src/ActHandler.cpp:429-436 | the SETZERO step with the shaft still is: enter GOHOME, enqueue CLRSHAFTPOS, setPos(ang2count(homePos)) |
| Handler.GoHomeStill | src/ActHandler.cpp:437-444 | the GOHOME step with the shaft still is: SETVEL(0), SETCTRLMODE(configured mode), enter RUNNING, set `calibrated` |
| Handler.StillMoving | src/ActHandler.cpp:411-444 | while the shaft moves a calibration step only updates the stillness counter |
| Handler.ActHandler.constructor | src/ActHandler.cpp:14-24 | RESET, empty queue, no command sent, all update flags down, the configured mode in the data record |
| Handler.ActHandler.EnqueueCmdMsg | src/ActHandler.cpp:212-225 | appends exactly one frame, `CmdFrame(cmd, value, length)`, and changes nothing else |
| Handler.ActHandler.InitDevice | src/ActHandler.cpp:26-36 | state INIT and the queue replaced by exactly CLRERR, CLRERR, SETTRAPVEL(0, 3 bytes), SETCTRLMODE(mode, 1 byte), GETSTAT |
| Handler.ActHandler.RequestStatus | src/ActHandler.cpp:38-42 | appends GETSTAT and GETPOS |
| Handler.ActHandler.IsIdle | src/ActHandler.cpp:45-48 | idle exactly when the queue is empty |
| Handler.ActHandler.SetPos | src/ActHandler.cpp:66-86 | the new state is `AfterSetPos` of the old one |
| Handler.ActHandler.SetAnglePos | src/ActHandler.cpp:88-91 | setPos of ang2count(ang) |
| Handler.ActHandler.SetVelocity | src/ActHandler.cpp:93-102 | appends one SETVEL frame carrying int(ACT_VEL_COEFF * clamped velocity), nothing else changes |
| Handler.ActHandler.Calibrate | src/ActHandler.cpp:104-115 | the new state is `AfterCalibrate` of the old one |
| Handler.ActHandler.SetControlMode | src/ActHandler.cpp:117-130 | the new state is `AfterSetControlMode` of the old one |
| Handler.ActHandler.RequestPosition | src/ActHandler.cpp:132-135 | appends GETPOS |
| Handler.ActHandler.RequestDriveStatus | src/ActHandler.cpp:137-140 | appends GETDRVSTAT |
| Handler.ActHandler.RequestActInfo | src/ActHandler.cpp:142-145 | appends GETACTINFO |
| Handler.ActHandler.HasStatusUpdate | src/ActHandler.cpp:168-176 | true exactly when both the status and the position flag are up, and then consumes both |
| Handler.ActHandler.HasPosUpdate | src/ActHandler.cpp:178-185 | reports the position flag and clears it |
| Handler.ActHandler.HasDriveStatusUpdate | src/ActHandler.cpp:187-194 | reports the drive-status flag and clears it |
| Handler.ActHandler.HasActInfoUpdate | src/ActHandler.cpp:196-203 | reports the actuator-info flag and clears it |
| Handler.ActHandler.SetResetState | src/ActHandler.cpp:205-210 | RESET with `initialized` and `calibrated` cleared, nothing else changes |
| Handler.ActHandler.CheckMoving | src/ActHandler.cpp:389-401 | answer and new counter are those of `MovingStep` |
| Handler.ActHandler.CheckRunState | src/ActHandler.cpp:403-447 | the new state is one `CalibrationStep` of the old one |
| Handler.ActHandler.FindMinStep | src/ActHandler.cpp:411-418 | the FINDMIN case is one `CalibrationStep` |
| Handler.ActHandler.FindMaxStep | src/ActHandler.cpp:419-428 | the FINDMAX case is one `CalibrationStep` |
| Handler.ActHandler.SetZeroStep | src/ActHandler.cpp:429-436 | the SETZERO case is one `CalibrationStep` |
| Handler.ActHandler.GoHomeStep | src/ActHandler.cpp:437-444 | the GOHOME case is one `CalibrationStep` |
| Handler.ActHandler.DecodeStatus | src/ActHandler.cpp:301-322 | the GETSTAT case yields `AfterStatus` |
| Handler.ActHandler.ParseReply | src/ActHandler.cpp:289-376 | the result is `ReplyOutcome` for the last command; on success the state is `AfterReply`, on any error it is unchanged |
| SchillingDriver.Delivered | src/Driver.cpp:19-22 | the packets read() can parse: nothing, a lone ACK, or a reply frame whose length byte equals its length, at most 1024 bytes. The lone reply marker that readPacket also hands over, for a length byte of 1, is excluded (see "## Left out") |
| SchillingDriver.LengthOneHeaderDeliversLoneMarker | src/ActHandler.cpp:243-248 | a header with length byte 1 makes the extractor report a one-byte packet, the lone reply marker. `Delivered` excludes it, and in the zero-padded read buffer it is not parsable (length byte 0) |
| SchillingDriver.ReadBuffer | src/Driver.cpp:15-19 | the 1024-byte buffer starts with the packet and is zero after it |
| SchillingDriver.DeliveredPacketParsable | src/Driver.cpp:19-23 | a packet the extractor delivered starts with ACK or a reply marker, never NAK, and its header length fits the buffer |
| SchillingDriver.ReadBufferIsThePacket | src/Driver.cpp:15-24 | parsing the padded buffer gives the same outcome and state as parsing the packet alone, and never a NAK error |
| SchillingDriver.AfterWriteNext | src/Driver.cpp:31-41 | empty queue: nothing happens. Otherwise the last command becomes byte 2 of the front frame and the remaining frames stay, in order, at the front. No NAK error; an empty reply is Ok; the invariant holds |
| SchillingDriver.WriteNextParsesReply | src/Driver.cpp:33-39 | with a frame queued, writeNext dequeues it and its byte 2 becomes the last command. An empty reply leaves that state with result Ok. A non-empty reply is parsed against that opcode: the result is `ReplyOutcome`, and the state is `AfterReply` on Ok and the dequeued state otherwise |
| SchillingDriver.Session | src/Driver.cpp:31-41 | n writeNext calls write at most n frames, and the invariant holds after them; which frames, and in what order, is stated for all replies by `SchillingDriver.FramesSentInQueueOrder` |
| SchillingDriver.SessionWritesFront | src/Driver.cpp:33-37 | with a frame queued, a session first writes the front frame, then what the rest of the session writes from the next state, whose queue starts with the remaining frames |
| SchillingDriver.FramesSentInQueueOrder | src/Driver.cpp:33-37 | whatever the replies, n writeNext calls with at least n frames queued write exactly the first n queued frames, in queue order |
| SchillingDriver.AckedFramesSentInQueueOrder | src/Driver.cpp:33-37 | with every frame answered by an ACK, the first n writeNext calls write exactly the first n queued frames in order and leave the rest queued |
| SchillingDriver.Driver.constructor | src/Driver.cpp:8-11 | a fresh handler holding `config` in its initial state: RESET, an empty queue, no command sent (CMD_NONE), the initial data and records, and every update flag down; nothing written |
| SchillingDriver.Driver.Read | src/Driver.cpp:13-29 | an empty packet changes nothing. Otherwise the result is parseReply's outcome on the packet, never NAK, passed on unchanged, and the handler state is `AfterReply` or unchanged |
| SchillingDriver.Driver.WriteNext | src/Driver.cpp:31-41 | result and handler state are `AfterWriteNext`; the front frame, and only it, is appended to what was written |

## Where the code and its documentation differ

The model follows the code in each of these cases.

- The header says `setPos` only takes effect in position mode. The code skips it only in velocity mode while RUNNING; before RUNNING it enqueues the move in any mode.
- The header says `hasStatusUpdate` reports a status update. The code reports true only when both the status flag and the position flag are up, and then clears both.
- The header gives setVelocity's range as 0 to 960000 RPM. The code clamps to [-ACT_VEL_MAX_RPM, ACT_VEL_MAX_RPM], so negative velocities are sent.

## Behaviour worth noting

- `isIdle` only tests that the queue is empty. A command waiting for its reply does not count.
- `calibrate` proceeds from RESET, INIT, INITIALIZED and RUNNING. It is refused during a calibration and also without a control mode.
- `setPos` and `setVelocity` are not blocked during calibration.
- An ACK does not change the last command. Only `writeNext` sets it.
- The actuator-info decoder ORs bytes 7 and 6 without a shift (`Replies.SerialNoIgnoresByteOrder`).
- During calibration the minimum boundary temporarily holds a raw encoder count.
- A reply header whose length byte is 1 is reported by the extractor as a one-byte packet, the lone marker. In read()'s zero-padded buffer its length byte then reads as 0, so `checkCS` compares against the byte before the buffer (`SchillingDriver.LengthOneHeaderDeliversLoneMarker`).
- The extractor never delivers a packet that starts with NAK. It scans a NAK as noise. So through `read` the NAK branch of `parseReply` is never taken (`SchillingDriver.ReadBufferIsThePacket`).

## Left out

- Serial transport: `readPacket` and `writePacket`, from the base driver, are not part of this model. A written frame is appended to `Driver.written`. A received packet is a parameter of `Read`/`WriteNext`, assumed to be a packet the extractor reports whole (`Delivered`). A transport timeout or I/O error is not modelled.
- SchillingDriver.Delivered: excludes the lone reply marker that the extractor delivers for a header length byte of 1. Its parse in the source is undefined: a length of 0 reaches `checkCS`, which reads before the buffer. So `Read` and `WriteNext` are not modelled on that packet.
- Console output (`cout`) and the timestamps taken from the clock are not modelled.
- Floating point: doubles and the float `velCoeff` are exact reals. Rounding of `count2ang`, `ang2count` and the velocity scaling is not modelled; conversions to `int` truncate toward zero as in C++.
- The constants of the shared header (command marker, reply markers, ACT_VEL_MAX_RPM, ACT_VEL_COEFF) are parameters (`DeviceConsts`). `DeviceConsts.Valid` assumes three things about them. The reply markers differ from ACK and NAK. ACT_VEL_MAX_RPM is not negative; `ClampVelocity` and `VelocityArg` rely on this. ACT_VEL_COEFF is not zero; the velocity a status reply stores is divided by it.
- The getters (`getData`, `getDeviceStatus`, `getState`, `getPosition`, `getDriveStatus`, `getActInfo`, `getBoundaries`) only return a member. They are covered by the `State()` snapshot.
- Members that the constructors leave uninitialised are constructor parameters: the stillness record, the device shaft position, the absolute shaft position and the home position.
- Undefined behaviour in the source is not modelled. This covers a header length byte of 0 given to `setCS`/`checkCS`, and a length byte larger than the buffer. `SetCS`, `CheckCS` and `ParseReply` require a length between 1 and the buffer size. Signed shifts that can overflow are modelled as their intended two's-complement values. This applies to `0xFF << 24` in `enqueueCmdMsg`, modelled as byte extraction. It also applies to `buf[5] << 24` in the GETSTAT and GETPOS decoders of `parseReply`, modelled by `Int32BE`.
- The header declares the update flags under other names (`status_update`, …) than the code uses. They are modelled as the same four flags.
- `Driver` extends `ActHandler` in the source; here it holds one (`handler`) and updates its queue and last command directly.
- The joystick and pan-tilt records have no logic and are not part of this model.
- Handler.ActHandler.CheckRunState: the four calibrating cases of the switch are separate methods (`FindMinStep` … `GoHomeStep`) called from it; the behaviour is the same.
- SerialNo: its own contract gives only the range. The OR of the two bytes is pinned down through `DecodeActInfo` and the all-inputs symmetry `SerialNoIgnoresByteOrder`. Bit-level facts such as `SerialNo(0, b) == b` are not proved, because the bit-vector conversions they need are too costly for the solver.
