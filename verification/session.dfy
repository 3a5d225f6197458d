/** The session around the grid: the frame callback that paces generations,
    the Idle/Running machine behind the start, stop, reset and randomize
    controls, the canvas click, and the space-bar handler with its own
    key-state flag. */
module Session {
  import opened GridState
  import opened RuleEngine

  /** The space-bar handler's own record of what it did last ("stop" or
      "start"); it is kept apart from `running`. */
  datatype KeyState = KeyStop | KeyStart

  /** Everything the page keeps between events. `running` stands for a
      pending frame request; timestamps and the interval are whole
      milliseconds, and 0 in `lastUpdateTime` means "no baseline yet". */
  datatype Session = Session(
    rows: nat,
    cols: nat,
    grid: Grid,
    running: bool,
    lastUpdateTime: nat,
    speed: nat,
    keyState: KeyState)

  predicate Valid(s: Session) {
    WellFormed(s.grid, s.rows, s.cols)
  }

  /** The page after loading: an empty grid, idle, no baseline, key state "stop". */
  function Init(rows: nat, cols: nat, speed: nat): (s: Session)
    ensures Valid(s) && s.rows == rows && s.cols == cols && s.speed == speed
    ensures AllDead(s.grid, rows, cols)
    ensures !s.running && s.lastUpdateTime == 0 && s.keyState == KeyStop
  {
    Session(rows, cols, CreateEmpty(rows, cols), false, 0, speed, KeyStop)
  }

  /** The baseline a frame at `timestamp` measures from: the stored one, or the
      frame's own timestamp when none is stored. */
  function Baseline(s: Session, timestamp: nat): nat {
    if s.lastUpdateTime == 0 then timestamp else s.lastUpdateTime
  }

  /** One frame callback: at most one generation, taken only when strictly
      more than `speed` milliseconds have passed since the baseline. */
  function Animate(s: Session, timestamp: nat): (s': Session)
    requires Valid(s)
    ensures Valid(s')
    ensures s'.rows == s.rows && s'.cols == s.cols && s'.speed == s.speed
    ensures s'.running == s.running && s'.keyState == s.keyState
    ensures timestamp - Baseline(s, timestamp) > s.speed ==>
      s'.grid == Step(s.grid, s.rows, s.cols) && s'.lastUpdateTime == timestamp
    ensures timestamp - Baseline(s, timestamp) <= s.speed ==>
      s'.grid == s.grid && s'.lastUpdateTime == Baseline(s, timestamp)
  {
    var last := if s.lastUpdateTime == 0 then timestamp else s.lastUpdateTime;
    var elapsed := timestamp - last;
    if elapsed > s.speed then
      s.(grid := Step(s.grid, s.rows, s.cols), lastUpdateTime := timestamp)
    else
      s.(lastUpdateTime := last)
  }

  /** No catch-up: whatever the elapsed time, one frame advances the grid by
      zero generations or by exactly one. */
  lemma AnimateAtMostOne(s: Session, timestamp: nat)
    requires Valid(s)
    ensures var s' := Animate(s, timestamp);
      s'.grid == s.grid || s'.grid == Step(s.grid, s.rows, s.cols)
  {
  }

  /** A second frame with the same timestamp does nothing more. */
  lemma AnimateSameTimestamp(s: Session, timestamp: nat)
    requires Valid(s)
    ensures Animate(Animate(s, timestamp), timestamp) == Animate(s, timestamp)
  {
  }

  /** Starting the game when idle: running, baseline cleared, nothing else changes;
      starting when already running changes nothing. */
  function StartGame(s: Session): (s': Session)
    ensures s.running ==> s' == s
    ensures !s.running ==> s' == s.(running := true, lastUpdateTime := 0)
  {
    if !s.running then s.(running := true, lastUpdateTime := 0) else s
  }

  /** Stopping the game: idle afterwards; only `running` ever changes. */
  function StopGame(s: Session): (s': Session)
    ensures !s'.running
    ensures s' == s.(running := false)
  {
    if s.running then s.(running := false) else s
  }

  lemma StartIdempotent(s: Session)
    ensures StartGame(StartGame(s)) == StartGame(s)
  {
  }

  lemma StopIdempotent(s: Session)
    ensures StopGame(StopGame(s)) == StopGame(s)
  {
  }

  /** The first frame after a start only sets the baseline: it never advances. */
  lemma FirstFrameAfterStart(s: Session, timestamp: nat)
    requires Valid(s) && !s.running
    ensures var s' := Animate(StartGame(s), timestamp);
      s'.grid == s.grid && s'.lastUpdateTime == timestamp && s'.running
  {
  }

  /** Resetting: stops the game and empties the grid; the key state is left alone. */
  function ResetGame(s: Session): (s': Session)
    requires Valid(s)
    ensures Valid(s') && AllDead(s'.grid, s'.rows, s'.cols) && !s'.running
    ensures s'.rows == s.rows && s'.cols == s.cols && s'.speed == s.speed
    ensures s'.keyState == s.keyState && s'.lastUpdateTime == s.lastUpdateTime
  {
    StopGame(s).(grid := CreateEmpty(s.rows, s.cols))
  }

  /** Threshold a uniform draw must exceed for the cell to start alive. */
  const AliveThreshold: real := 0.7

  /** Randomizing: stops the game and refills every cell from `draw`, which
      stands for one uniform sample in [0, 1) per cell. */
  function Randomize(s: Session, draw: (int, int) -> real): (s': Session)
    requires Valid(s)
    ensures Valid(s') && !s'.running
    ensures s'.rows == s.rows && s'.cols == s.cols && s'.speed == s.speed
    ensures s'.keyState == s.keyState && s'.lastUpdateTime == s.lastUpdateTime
    ensures forall i, j :: 0 <= i < s.rows && 0 <= j < s.cols ==>
      (s'.grid[i][j] == 1 <==> draw(i, j) > AliveThreshold)
  {
    var g := seq(s.rows, i => seq(s.cols, j => if draw(i, j) > AliveThreshold then 1 else 0));
    StopGame(s).(grid := g)
  }

  /** A click on the canvas at offset (px, py): only the grid can change. */
  function ClickCanvas(s: Session, px: int, py: int): (s': Session)
    requires Valid(s)
    ensures Valid(s')
    ensures s' == s.(grid := s'.grid)
    ensures forall i, j :: 0 <= i < s.rows && 0 <= j < s.cols ==>
      s'.grid[i][j] == (if i * CellSize <= py < (i + 1) * CellSize && j * CellSize <= px < (j + 1) * CellSize
                        then 1 - s.grid[i][j] else s.grid[i][j])
  {
    s.(grid := Click(s.grid, s.rows, s.cols, px, py))
  }

  /** The space bar: with key state "stop" it starts the game, with "start" it
      stops it, and the key state flips either way. */
  function PressSpace(s: Session): (s': Session)
    ensures s'.keyState != s.keyState
    ensures s.keyState == KeyStop ==> s' == StartGame(s).(keyState := KeyStart)
    ensures s.keyState == KeyStart ==> s' == StopGame(s).(keyState := KeyStop)
  {
    match s.keyState
    case KeyStop => StartGame(s).(keyState := KeyStart)
    case KeyStart => StopGame(s).(keyState := KeyStop)
  }

  /** The key state agrees with the run state. */
  predicate InStep(s: Session) {
    s.running <==> s.keyState == KeyStart
  }

  /** While the key state agrees with the run state, every press of the space
      bar flips the run state and keeps them in agreement; the grid is never
      touched. */
  lemma PressSpaceInStep(s: Session)
    requires InStep(s)
    ensures var s' := PressSpace(s);
      InStep(s') && s'.running == !s.running && s'.grid == s.grid
  {
  }

  /** The stop button after a space-bar start leaves the key state saying
      "start" while the game is idle; the next press of the space bar is then
      spent on a stop that does nothing, and only the one after restarts. */
  lemma KeyStateDrift(s: Session)
    requires !s.running && s.keyState == KeyStop
    ensures var s1 := StopGame(PressSpace(s));
      !InStep(s1) && !s1.running && s1.keyState == KeyStart
    ensures var s2 := PressSpace(StopGame(PressSpace(s)));
      !s2.running && s2.keyState == KeyStop && s2.grid == s.grid
    ensures PressSpace(PressSpace(StopGame(PressSpace(s)))).running
  {
  }

  // ---------------------------------------------------------------------------
  // Events and the frame driver

  /** A frame callback is delivered only while a frame request is pending. */
  function Frame(s: Session, timestamp: nat): (s': Session)
    requires Valid(s)
    ensures Valid(s')
    ensures !s.running ==> s' == s
  {
    if s.running then Animate(s, timestamp) else s
  }

  /** The inputs the page reacts to. */
  datatype Event =
    | StartClick
    | StopClick
    | ResetClick
    | RandomClick(draw: (int, int) -> real)
    | CanvasClick(px: int, py: int)
    | SpaceKey
    | SpeedInput(interval: nat)
    | FrameAt(timestamp: nat)

  function Handle(s: Session, e: Event): (s': Session)
    requires Valid(s)
    ensures Valid(s') && s'.rows == s.rows && s'.cols == s.cols
  {
    match e
    case StartClick => StartGame(s)
    case StopClick => StopGame(s)
    case ResetClick => ResetGame(s)
    case RandomClick(draw) => Randomize(s, draw)
    case CanvasClick(px, py) => ClickCanvas(s, px, py)
    case SpaceKey => PressSpace(s)
    case SpeedInput(interval) => s.(speed := interval)
    case FrameAt(t) => Frame(s, t)
  }

  /** Handles the events in order. */
  function Run(s: Session, es: seq<Event>): (s': Session)
    requires Valid(s)
    ensures Valid(s') && s'.rows == s.rows && s'.cols == s.cols
    decreases |es|
  {
    if es == [] then s else Run(Handle(s, es[0]), es[1..])
  }

  predicate IsFrame(e: Event) {
    e.FrameAt?
  }

  /** Number of frame callbacks among the events. */
  function FrameCount(es: seq<Event>): nat
    decreases |es|
  {
    if es == [] then 0 else (if IsFrame(es[0]) then 1 else 0) + FrameCount(es[1..])
  }

  /** Only frame callbacks advance generations, at most one each: after a run
      of frames the grid is the start grid advanced by no more generations
      than there were frames. */
  lemma {:induction false} FramesAdvanceAtMostOnce(s: Session, ts: seq<nat>)
    requires Valid(s)
    ensures var es := seq(|ts|, k requires 0 <= k < |ts| => FrameAt(ts[k]));
      exists k :: 0 <= k <= |ts| && Run(s, es).grid == StepN(s.grid, s.rows, s.cols, k)
    decreases |ts|
  {
    var es := seq(|ts|, k requires 0 <= k < |ts| => FrameAt(ts[k]));
    if ts == [] {
      assert Run(s, es).grid == StepN(s.grid, s.rows, s.cols, 0);
    } else {
      var s1 := Handle(s, es[0]);
      var es' := seq(|ts| - 1, k requires 0 <= k < |ts| - 1 => FrameAt(ts[1..][k]));
      assert es[1..] == es';
      FramesAdvanceAtMostOnce(s1, ts[1..]);
      var k :| 0 <= k <= |ts| - 1 && Run(s1, es').grid == StepN(s1.grid, s1.rows, s1.cols, k);
      AnimateAtMostOne(s, ts[0]);
      if s1.grid == s.grid {
        assert Run(s, es).grid == StepN(s.grid, s.rows, s.cols, k);
      } else {
        assert s1.grid == Step(s.grid, s.rows, s.cols);
        assert Run(s, es).grid == StepN(s.grid, s.rows, s.cols, k + 1);
      }
    }
  }

  /** Once the game is stopped, no sequence of frame callbacks changes anything. */
  lemma {:induction false} StoppedFramesInert(s: Session, ts: seq<nat>)
    requires Valid(s) && !s.running
    ensures Run(s, seq(|ts|, k requires 0 <= k < |ts| => FrameAt(ts[k]))) == s
    decreases |ts|
  {
    var es := seq(|ts|, k requires 0 <= k < |ts| => FrameAt(ts[k]));
    if ts != [] {
      var es' := seq(|ts| - 1, k requires 0 <= k < |ts| - 1 => FrameAt(ts[1..][k]));
      assert es[1..] == es';
      StoppedFramesInert(s, ts[1..]);
    }
  }
}
