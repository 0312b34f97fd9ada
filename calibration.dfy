/** The calibration state machine of the handler as functions of its state:
    the run states and their order, the stillness detector, the frames a
    position or velocity command enqueues, and one step of checkRunState. */
module Calibration {
  import opened Bytes
  import opened ActRaw
  import opened ActTypes
  import opened FrameCodec

  /** Velocity coefficient used for the calibration moves (CAL_VEL_COEFF). */
  const CAL_VEL_COEFF: real := 0.5

  /** Number of successive equal position readings that declare the shaft still. */
  const STILL_COUNT: int := 5

  /** The run states, in the order of their declaration. */
  datatype RunState = Reset | Init | Initialized | FindMin | FindMax | SetZero | GoHome | Running
  {
    /** Position of the state in the declaration order; the handler compares states by it. */
    function Ord(): (n: nat)
      ensures n < 8
    {
      match this
      case Reset => 0
      case Init => 1
      case Initialized => 2
      case FindMin => 3
      case FindMax => 4
      case SetZero => 5
      case GoHome => 6
      case Running => 7
    }

    /** A calibration run is in progress: strictly after INITIALIZED and before RUNNING. */
    predicate Calibrating()
    {
      Initialized.Ord() < Ord() < Running.Ord()
    }
  }

  /** The run states are totally ordered by their declaration order. */
  lemma RunStatesTotallyOrdered(a: RunState, b: RunState)
    ensures a.Ord() < b.Ord() || a == b || b.Ord() < a.Ord()
  {
  }

  /** The calibrating states are exactly FINDMIN, FINDMAX, SETZERO and GOHOME. */
  lemma CalibratingStates(s: RunState)
    ensures s.Calibrating() <==> s in {FindMin, FindMax, SetZero, GoHome}
  {
  }

  /** The state a successful calibration step moves to. */
  function Advance(s: RunState): (t: RunState)
    ensures s == Init || s.Calibrating() ==> t.Ord() == s.Ord() + 1
    ensures !(s == Init || s.Calibrating()) ==> t == s
  {
    match s
    case Init => Initialized
    case FindMin => FindMax
    case FindMax => SetZero
    case SetZero => GoHome
    case GoHome => Running
    case _ => s
  }

  /** count2ang: encoder counts to degrees (exact arithmetic in place of doubles). */
  function Count2Ang(count: int): (a: real)
    ensures 0 <= count <==> 0.0 <= a
    ensures 0 <= count <= FULLPOS ==> a <= 360.0
    ensures count == FULLPOS ==> a == 360.0
  {
    count as real * 360.0 / FULLPOS as real
  }

  /** ang2count: degrees to encoder counts, truncated toward zero by the
      conversion to `int`. */
  function Ang2Count(ang: real): (c: int)
    ensures 0.0 <= ang ==> 0 <= c && Count2Ang(c) <= ang < Count2Ang(c + 1)
    ensures ang < 0.0 ==> c <= 0 && Count2Ang(c - 1) < ang <= Count2Ang(c)
  {
    TruncToInt(ang * FULLPOS as real / 360.0)
  }

  /** In exact arithmetic converting counts to degrees and back loses nothing. */
  lemma Ang2CountInvertsCount2Ang(count: int)
    ensures Ang2Count(Count2Ang(count)) == count
  {
    assert Count2Ang(count) * FULLPOS as real / 360.0 == count as real;
  }

  /** Last position reading and the number of successive equal readings. */
  datatype LastPos = LastPos(pos: int, count: int)

  /** checkMoving: compares a reading with the last one. Returns whether the
      shaft is still moving and the updated counter (the position itself is
      stored by the reply decoder afterwards). */
  function MovingStep(lp: LastPos, pos: int): (r: (bool, LastPos))
    ensures r.1.pos == lp.pos
    ensures !r.0 <==> pos == lp.pos && lp.count + 1 >= STILL_COUNT
    ensures !r.0 || pos != lp.pos ==> r.1.count == 0
    ensures r.0 && pos == lp.pos ==> r.1.count == lp.count + 1
    ensures 0 <= lp.count < STILL_COUNT ==> 0 <= r.1.count < STILL_COUNT
  {
    if pos == lp.pos then
      if lp.count + 1 >= STILL_COUNT then (false, lp.(count := 0))
      else (true, lp.(count := lp.count + 1))
    else
      (true, lp.(count := 0))
  }

  /** The detector's answers to a sequence of status readings, each reading
      becoming the last position for the next one. */
  function Watch(lp: LastPos, readings: seq<int>): (answers: seq<bool>)
    ensures |answers| == |readings|
    decreases |readings|
  {
    if readings == [] then []
    else
      var r := MovingStep(lp, readings[0]);
      [r.0] + Watch(LastPos(readings[0], r.1.count), readings[1..])
  }

  /** The reading the `i`-th one is compared with. */
  function Previous(start: int, readings: seq<int>, i: nat): int
    requires i < |readings|
  {
    if i == 0 then start else readings[i - 1]
  }

  /** Stillness is only declared after five readings in a row that each equal
      the one before; from a cleared counter no earlier than the fifth reading. */
  lemma {:induction false} StillNeedsFiveEqualReadings(lp: LastPos, readings: seq<int>, j: nat)
    requires 0 <= lp.count < STILL_COUNT
    requires j < |readings| && !Watch(lp, readings)[j]
    ensures j >= 4 - lp.count
    ensures forall i :: 0 <= i <= j && j - 4 <= i ==> readings[i] == Previous(lp.pos, readings, i)
    decreases |readings|
  {
    var r := MovingStep(lp, readings[0]);
    var lp' := LastPos(readings[0], r.1.count);
    var tail := readings[1..];
    assert Watch(lp, readings) == [r.0] + Watch(lp', tail);
    if j > 0 {
      StillNeedsFiveEqualReadings(lp', tail, j - 1);
      forall i | 0 <= i <= j && j - 4 <= i
        ensures readings[i] == Previous(lp.pos, readings, i)
      {
        if i > 0 {
          assert readings[i] == tail[i - 1];
          assert Previous(lp'.pos, tail, i - 1) == Previous(lp.pos, readings, i);
        } else {
          // the window reaches the first reading only when its comparison was equal
          assert readings[0] == lp.pos;
        }
      }
    }
  }

  /** From a counter at `c`, 5 - c readings equal to the last position make the
      detector report stillness at the last of them, and not before. */
  lemma {:induction false} RepeatedReadingsStop(lp: LastPos, readings: seq<int>)
    requires 0 <= lp.count < STILL_COUNT && |readings| >= STILL_COUNT - lp.count
    requires forall i :: 0 <= i < STILL_COUNT - lp.count ==> readings[i] == lp.pos
    ensures !Watch(lp, readings)[4 - lp.count]
    ensures forall i :: 0 <= i < 4 - lp.count ==> Watch(lp, readings)[i]
    decreases STILL_COUNT - lp.count
  {
    var r := MovingStep(lp, readings[0]);
    var lp' := LastPos(readings[0], r.1.count);
    var tail := readings[1..];
    assert Watch(lp, readings) == [r.0] + Watch(lp', tail);
    if lp.count < 4 {
      RepeatedReadingsStop(lp', tail);
    }
  }

  /** Five readings in a row that each equal the one before always contain a
      report of stillness, whatever the counter was when they began. */
  lemma {:induction false} FiveEqualReadingsStop(lp: LastPos, readings: seq<int>, j: nat)
    requires 0 <= lp.count < STILL_COUNT
    requires 4 <= j < |readings|
    requires forall i :: j - 4 <= i <= j ==> readings[i] == Previous(lp.pos, readings, i)
    ensures exists i :: j - 4 <= i <= j && !Watch(lp, readings)[i]
    decreases j
  {
    var r := MovingStep(lp, readings[0]);
    var lp' := LastPos(readings[0], r.1.count);
    var tail := readings[1..];
    assert Watch(lp, readings) == [r.0] + Watch(lp', tail);
    if j > 4 {
      forall i | j - 5 <= i <= j - 1
        ensures tail[i] == Previous(lp'.pos, tail, i)
      {
        assert Previous(lp'.pos, tail, i) == Previous(lp.pos, readings, i + 1);
      }
      FiveEqualReadingsStop(lp', tail, j - 1);
      var i' :| j - 5 <= i' <= j - 1 && !Watch(lp', tail)[i'];
      assert !Watch(lp, readings)[i' + 1];
    } else {
      assert Previous(lp.pos, readings, 0) == lp.pos;
      forall i | 0 <= i < STILL_COUNT - lp.count
        ensures readings[i] == lp.pos
      {
        var m := 0;
        while m < i
          invariant 0 <= m <= i && readings[m] == lp.pos
        {
          assert readings[m + 1] == Previous(lp.pos, readings, m + 1);
          m := m + 1;
        }
      }
      RepeatedReadingsStop(lp, readings);
      assert !Watch(lp, readings)[4 - lp.count];
    }
  }

  /** setVelocity's clamp of the requested velocity to [-ACT_VEL_MAX_RPM, ACT_VEL_MAX_RPM]. */
  function ClampVelocity(k: DeviceConsts, vel: real): (v: real)
    ensures 0.0 <= k.velMaxRpm ==> -k.velMaxRpm <= v <= k.velMaxRpm
    ensures -k.velMaxRpm <= vel <= k.velMaxRpm ==> v == vel
    ensures vel < -k.velMaxRpm && 0.0 <= k.velMaxRpm ==> v == -k.velMaxRpm
    ensures vel > k.velMaxRpm ==> v == k.velMaxRpm
  {
    var low := if vel < -k.velMaxRpm then -k.velMaxRpm else vel;
    if low > k.velMaxRpm then k.velMaxRpm else low
  }

  /** The SETVEL frame setVelocity enqueues: the clamped velocity scaled by
      ACT_VEL_COEFF, truncated to an `int`, as a 4-byte argument. */
  function VelocityFrame(k: DeviceConsts, vel: real): (f: Frame)
    ensures |f| == 8 && IsCmdFrame(k, f) && f[2] == CMD_SETVEL
    ensures f[3..7] == BEBytes(VelocityArg(k, vel), 4)
  {
    CmdFrame(k, CMD_SETVEL, VelocityArg(k, vel), 4)
  }

  /** The argument of the SETVEL frame for a requested velocity. */
  function VelocityArg(k: DeviceConsts, vel: real): (n: int)
    ensures vel == 0.0 && 0.0 <= k.velMaxRpm ==> n == 0
    ensures 0.0 < k.velCoeff && 0.0 <= k.velMaxRpm ==>
              -(k.velCoeff * k.velMaxRpm) <= n as real <= k.velCoeff * k.velMaxRpm
  {
    ScaledWithinLimit(k.velCoeff, ClampVelocity(k, vel), k.velMaxRpm);
    TruncToInt(k.velCoeff * ClampVelocity(k, vel))
  }

  /** Scaling by a positive factor and truncating toward zero keeps a value
      within the scaled limit. */
  lemma ScaledWithinLimit(c: real, v: real, m: real)
    ensures 0.0 < c && -m <= v <= m ==> -(c * m) <= TruncToInt(c * v) as real <= c * m
  {
    if 0.0 < c && -m <= v <= m {
      ScaleMonotone(c, v, m);
      ScaleMonotone(c, -m, v);
      assert c * -m == -(c * m);
    }
  }

  /** Multiplying by a positive factor keeps the order. */
  lemma ScaleMonotone(c: real, x: real, y: real)
    requires 0.0 < c && x <= y
    ensures c * x <= c * y
  {
    assert c * y - c * x == c * (y - x);
  }

  /** The velocity setPos requests: the configured velocity scaled by the
      coefficient of the move. */
  function ScaledVelocity(velocity: int, velCoeff: real): (v: real)
    ensures velCoeff == 1.0 ==> v == velocity as real
    ensures velCoeff == CAL_VEL_COEFF ==> v + v == velocity as real
  {
    velocity as real * velCoeff
  }

  /** The frames setPos enqueues for a target count: clear errors, set the
      shaft position, set the configured velocity scaled by `velCoeff`, clear
      errors. */
  function PosFrames(k: DeviceConsts, velocity: int, count: int, velCoeff: real): (fs: seq<Frame>)
    ensures |fs| == 4
    ensures IsCmdFrame(k, fs[0]) && fs[0][2] == CMD_CLRERR
    ensures IsCmdFrame(k, fs[1]) && fs[1][2] == CMD_SETSHAFTPOS
    ensures IsCmdFrame(k, fs[2]) && fs[2][2] == CMD_SETVEL
    ensures IsCmdFrame(k, fs[3]) && fs[3][2] == CMD_CLRERR
  {
    [CmdFrame(k, CMD_CLRERR, 0, 0), CmdFrame(k, CMD_SETSHAFTPOS, count, 4),
     VelocityFrame(k, ScaledVelocity(velocity, velCoeff)), CmdFrame(k, CMD_CLRERR, 0, 0)]
  }

  /** setPos's clamp of a target count, in the RUNNING state, to the counts of
      the calibrated boundaries: first raised to the lower one, then lowered
      to the upper one. */
  function ClampCount(b: ActBoundaries, count: int): (c: int)
    ensures Ang2Count(b.min) <= Ang2Count(b.max) ==> Ang2Count(b.min) <= c <= Ang2Count(b.max)
    ensures Ang2Count(b.min) <= count <= Ang2Count(b.max) ==> c == count
    ensures count < Ang2Count(b.min) <= Ang2Count(b.max) ==> c == Ang2Count(b.min)
    ensures count > Ang2Count(b.max) ==> c == Ang2Count(b.max)
  {
    var low := Ang2Count(b.min);
    var raised := if count < low then low else count;
    var high := Ang2Count(b.max);
    if raised > high then high else raised
  }

  /** The part of the handler's state that checkRunState reads and writes. */
  datatype CalState = CalState(
    runState: RunState,
    lastPos: LastPos,
    boundaries: ActBoundaries,
    flags: ActState,
    queue: seq<Frame>)

  /** checkRunState: one step of the calibration state machine for the shaft
      position of a status reply. */
  function CalibrationStep(k: DeviceConsts, cfg: Config, s: CalState, shaftPos: int): (t: CalState)
    ensures t.runState == s.runState || t.runState == Advance(s.runState)
    ensures s.runState in {Reset, Initialized, Running} ==> t == s
    ensures s.runState == Init ==> t == s.(runState := Initialized, flags := s.flags.(initialized := true))
    ensures s.runState.Calibrating() ==>
              (t.runState != s.runState <==> !MovingStep(s.lastPos, shaftPos).0)
    ensures s.runState.Calibrating() && t.runState == s.runState ==>
              t == s.(lastPos := MovingStep(s.lastPos, shaftPos).1)
    ensures t.flags == if s.runState == Init then s.flags.(initialized := true)
                       else if s.runState == GoHome && t.runState == Running then s.flags.(calibrated := true)
                       else s.flags
    ensures s.queue <= t.queue && forall f :: f in t.queue[|s.queue|..] ==> IsCmdFrame(k, f)
    ensures s.runState == FindMin && t.runState == FindMax ==>
              t.boundaries == s.boundaries.(min := shaftPos as real)
    ensures s.runState == FindMax && t.runState == SetZero ==>
              var half := TruncDiv(TruncToInt(shaftPos as real - s.boundaries.min), 2);
              t.boundaries == ActBoundaries(-Count2Ang(half), Count2Ang(half))
    ensures (!(s.runState == FindMin && t.runState == FindMax) &&
             !(s.runState == FindMax && t.runState == SetZero)) ==> t.boundaries == s.boundaries
    ensures 0 <= s.lastPos.count < STILL_COUNT ==> 0 <= t.lastPos.count < STILL_COUNT
    ensures t.lastPos.pos == s.lastPos.pos
  {
    match s.runState
    case Init =>
      s.(runState := Initialized, flags := s.flags.(initialized := true))
    case FindMin =>
      var m := MovingStep(s.lastPos, shaftPos);
      if m.0 then s.(lastPos := m.1)
      else
        s.(runState := FindMax,
           boundaries := s.boundaries.(min := shaftPos as real),
           lastPos := m.1.(count := 0),
           queue := s.queue + PosFrames(k, cfg.velocity, Ang2Count(360.0), CAL_VEL_COEFF))
    case FindMax =>
      var m := MovingStep(s.lastPos, shaftPos);
      if m.0 then s.(lastPos := m.1)
      else
        var range := TruncToInt(shaftPos as real - s.boundaries.min);
        var half := TruncDiv(range, 2);
        var max := Count2Ang(half);
        s.(runState := SetZero,
           lastPos := m.1.(count := 0),
           queue := s.queue + PosFrames(k, cfg.velocity, TruncToInt(half as real + s.boundaries.min), 1.0),
           boundaries := ActBoundaries(max * -1.0, max))
    case SetZero =>
      var m := MovingStep(s.lastPos, shaftPos);
      if m.0 then s.(lastPos := m.1)
      else
        s.(runState := GoHome,
           lastPos := m.1.(count := 0),
           queue := s.queue + [CmdFrame(k, CMD_CLRSHAFTPOS, 0, 0)] +
                    PosFrames(k, cfg.velocity, Ang2Count(cfg.homePos as real), 1.0))
    case GoHome =>
      var m := MovingStep(s.lastPos, shaftPos);
      if m.0 then s.(lastPos := m.1)
      else
        s.(runState := Running,
           lastPos := m.1,
           flags := s.flags.(calibrated := true),
           queue := s.queue + [VelocityFrame(k, 0.0), CmdFrame(k, CMD_SETCTRLMODE, cfg.ctrlMode.Code(), 1)])
    case _ => s
  }

  /** What a decoded status reply does to the calibration state: one step of
      the state machine while below RUNNING, then the reading becomes the last
      position. */
  function OnStatus(k: DeviceConsts, cfg: Config, s: CalState, shaftPos: int): (t: CalState)
    ensures t.lastPos.pos == shaftPos
    ensures s.runState == Running ==> t == s.(lastPos := s.lastPos.(pos := shaftPos))
    ensures s.runState.Ord() < Running.Ord() ==>
              t == CalibrationStep(k, cfg, s, shaftPos).(lastPos := LastPos(shaftPos, CalibrationStep(k, cfg, s, shaftPos).lastPos.count))
    ensures s.queue <= t.queue && forall f :: f in t.queue[|s.queue|..] ==> IsCmdFrame(k, f)
  {
    var c := if s.runState.Ord() < Running.Ord() then CalibrationStep(k, cfg, s, shaftPos) else s;
    c.(lastPos := c.lastPos.(pos := shaftPos))
  }

  /** Leaving FINDMAX with the minimum at -102500 counts and the shaft still at
      +102500 counts centres the travel range at +/-180 degrees. */
  lemma SymmetricTravelGivesHalfTurnBoundaries(k: DeviceConsts, cfg: Config, s: CalState)
    requires s.runState == FindMax && s.boundaries.min == -102500.0
    requires s.lastPos == LastPos(102500, 4)
    ensures CalibrationStep(k, cfg, s, 102500).runState == SetZero
    ensures CalibrationStep(k, cfg, s, 102500).boundaries == ActBoundaries(-180.0, 180.0)
  {
  }
}
