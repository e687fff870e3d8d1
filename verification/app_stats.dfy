/** The per-frame bookkeeping of the application loop: the statistics overlay
    mode, the ring of in-flight frames, the bounded timing logs and the frame
    counters. Durations are whole nanoseconds. */
module AppStats {
  import opened Wrappers
  import opened Bits

  // ---------------------------------------------------------------------------
  // Statistics overlay

  datatype StatsDisplayMode = NoStats | Basic | Full

  /** The position of a mode in declaration order. */
  function ModeOrdinal(m: StatsDisplayMode): (r: nat)
    ensures r < 3
  {
    match m
    case NoStats => 0
    case Basic => 1
    case Full => 2
  }

  /** `StatsDisplayMode::next`: None, Basic, Full, then None again. */
  function NextMode(m: StatsDisplayMode): (r: StatsDisplayMode)
    ensures r != m
    ensures ModeOrdinal(r) == (ModeOrdinal(m) + 1) % 3
  {
    match m
    case NoStats => Basic
    case Basic => Full
    case Full => NoStats
  }

  /** The overlay starts in the basic mode. */
  const INITIAL_STATS_MODE := Basic

  /** `toggle_stats` advances the mode by one step in declaration order,
      wrapping around: the new mode differs from the old, and two further
      steps return to it. */
  function ToggleStats(m: StatsDisplayMode): (r: StatsDisplayMode)
    ensures r != m && NextMode(NextMode(r)) == m
    ensures ModeOrdinal(r) == (ModeOrdinal(m) + 1) % 3
  {
    NextMode(m)
  }

  /** The modes form a cycle of length three that visits every mode. */
  lemma ModeCycle(m: StatsDisplayMode)
    ensures NextMode(NextMode(NextMode(m))) == m
    ensures NextMode(m) != m && NextMode(NextMode(m)) != m
    ensures {m, NextMode(m), NextMode(NextMode(m))} == {NoStats, Basic, Full}
  {
  }

  // ---------------------------------------------------------------------------
  // In-flight frames

  datatype InFlightFrames = InFlightFrames(frameCount: nat, currentFrame: nat)

  /** `InFlightFrames::new`: the ring starts at frame 0. */
  function NewInFlightFrames(frameCount: nat): (r: InFlightFrames)
    ensures r.frameCount == frameCount && r.currentFrame == 0
  {
    InFlightFrames(frameCount, 0)
  }

  /** `InFlightFrames::next`: the following slot of the ring, wrapping to 0 after
      the last one. An empty ring is a division by zero. */
  function NextFrame(f: InFlightFrames): (r: Result<InFlightFrames, string>)
    requires f.currentFrame < f.frameCount || f.frameCount == 0
    ensures r.Failure? <==> f.frameCount == 0
    ensures r.Success? ==>
      && r.value.frameCount == f.frameCount
      && r.value.currentFrame < f.frameCount
      && (r.value.currentFrame == 0 <==> f.currentFrame == f.frameCount - 1)
      && (r.value.currentFrame != 0 ==> r.value.currentFrame == f.currentFrame + 1)
  {
    if f.frameCount == 0 then Failure("attempt to calculate the remainder with a divisor of zero")
    else Success(f.(currentFrame := (f.currentFrame + 1) % f.frameCount))
  }

  /** Advancing `n` times from slot `c` lands on slot `(c + n) % frameCount`, so the
      ring returns to its start after `frameCount` steps. */
  function Advance(f: InFlightFrames, n: nat): (r: InFlightFrames)
    requires f.currentFrame < f.frameCount
    ensures r.frameCount == f.frameCount && r.currentFrame < f.frameCount
    decreases n
  {
    if n == 0 then f else Advance(NextFrame(f).value, n - 1)
  }

  lemma {:induction false} AdvanceIsModular(f: InFlightFrames, n: nat)
    requires f.currentFrame < f.frameCount
    ensures Advance(f, n).currentFrame == (f.currentFrame + n) % f.frameCount
    decreases n
  {
    if n > 0 {
      var g := NextFrame(f).value;
      AdvanceIsModular(g, n - 1);
      ModAddOne(f.currentFrame, n - 1, f.frameCount);
    }
  }

  lemma ModAddOne(c: nat, m: nat, k: nat)
    requires c < k
    ensures ((c + 1) % k + m) % k == (c + m + 1) % k
  {
    if c + 1 == k {
      assert (c + 1) % k == 0;
      ModPlusDivisor(m, k);
      assert m + k == c + m + 1;
    } else {
      assert (c + 1) % k == c + 1;
    }
  }

  lemma ModPlusDivisor(m: nat, k: nat)
    requires k > 0
    ensures (m + k) % k == m % k
  {
    ModUnique(m + k, k, m / k + 1, m % k);
  }

  lemma RingReturnsToStart(f: InFlightFrames)
    requires f.currentFrame < f.frameCount
    ensures Advance(f, f.frameCount) == f
  {
    var r := Advance(f, f.frameCount);
    AdvanceIsModular(f, f.frameCount);
    ModPlusDivisor(f.currentFrame, f.frameCount);
    ModUnique(f.currentFrame, f.frameCount, 0, f.currentFrame);
    assert r.currentFrame == f.currentFrame;
  }

  // ---------------------------------------------------------------------------
  // Bounded log

  /** `Queue<T>`: the values and the capacity. */
  datatype BoundedQueue<T> = BoundedQueue(items: seq<T>, maxSize: nat) {
    ghost predicate Valid() { |items| <= maxSize }
  }

  function NewQueue<T>(maxSize: nat): (r: BoundedQueue<T>)
    ensures r.Valid() && r.items == [] && r.maxSize == maxSize
  {
    BoundedQueue([], maxSize)
  }

  /** `Queue::push`: a full queue first drops its oldest value; the new value goes
      to the back. A queue of capacity 0 is always full and removing from it
      panics. */
  function Push<T>(q: BoundedQueue<T>, value: T): (r: Result<BoundedQueue<T>, string>)
    requires q.Valid()
    ensures r.Failure? <==> q.maxSize == 0
    ensures r.Success? ==>
      && r.value.Valid() && r.value.maxSize == q.maxSize
      && |r.value.items| > 0 && r.value.items[|r.value.items| - 1] == value
      && (|q.items| < q.maxSize ==> r.value.items == q.items + [value])
      && (|q.items| == q.maxSize ==> r.value.items == q.items[1..] + [value])
  {
    if |q.items| == q.maxSize then
      if |q.items| == 0 then Failure("removal index (is 0) should be < len (is 0)")
      else Success(q.(items := q.items[1..] + [value]))
    else Success(q.(items := q.items + [value]))
  }

  function PushAll<T>(q: BoundedQueue<T>, values: seq<T>): (r: Result<BoundedQueue<T>, string>)
    requires q.Valid()
    ensures r.Success? ==> r.value.Valid() && r.value.maxSize == q.maxSize
    decreases |values|
  {
    if |values| == 0 then Success(q)
    else
      var q' :- Push(q, values[0]);
      PushAll(q', values[1..])
  }

  /** The log holds the most recent values: after any pushes into a queue of
      positive capacity it is the last `min(total, capacity)` values of everything
      ever pushed. */
  lemma {:induction false} PushAllKeepsNewest<T>(q: BoundedQueue<T>, values: seq<T>)
    requires q.Valid() && q.maxSize > 0
    ensures var all := q.items + values;
      var n := if |all| <= q.maxSize then |all| else q.maxSize;
      PushAll(q, values) == Success(BoundedQueue(all[|all| - n..], q.maxSize))
    decreases |values|
  {
    var all := q.items + values;
    if |values| == 0 {
      assert all == q.items;
    } else {
      var q' := Push(q, values[0]).value;
      PushAllKeepsNewest(q', values[1..]);
      var all' := q'.items + values[1..];
      assert PushAll(q, values) == PushAll(q', values[1..]);
      if |q.items| < q.maxSize {
        assert all' == all;
      } else {
        assert all' == all[1..];
      }
    }
  }

  // ---------------------------------------------------------------------------
  // Frame statistics

  const ONE_SEC: nat := 1_000_000_000
  const MAX_LOG_SIZE: nat := 1000

  /** `Duration::as_millis`. */
  function AsMillis(d: nat): nat { d / 1_000_000 }

  function SaturatingSub(a: nat, b: nat): (r: nat)
    ensures r + b >= a && (a >= b ==> r + b == a)
    ensures a < b ==> r == 0
  {
    if a >= b then a - b else 0
  }

  datatype FrameStats = FrameStats(
    previousFrameTime: nat,
    frameTime: nat,
    cpuTime: nat,
    gpuTime: nat,
    frameTimeLog: BoundedQueue<nat>,
    cpuTimeLog: BoundedQueue<nat>,
    gpuTimeLog: BoundedQueue<nat>,
    totalFrameCount: nat,
    frameCount: nat,
    fpsCounter: nat,
    timer: nat)
  {
    ghost predicate Valid() {
      && frameTimeLog.Valid() && cpuTimeLog.Valid() && gpuTimeLog.Valid()
      && frameTimeLog.maxSize == MAX_LOG_SIZE && cpuTimeLog.maxSize == MAX_LOG_SIZE
      && gpuTimeLog.maxSize == MAX_LOG_SIZE
      && IsU32(totalFrameCount) && IsU32(frameCount) && IsU32(fpsCounter)
    }
  }

  function DefaultFrameStats(): (r: FrameStats)
    ensures r.Valid()
    ensures r.totalFrameCount == 0 && r.frameCount == 0 && r.fpsCounter == 0 && r.timer == 0
    ensures r.frameTimeLog.items == [] && r.cpuTimeLog.items == [] && r.gpuTimeLog.items == []
  {
    FrameStats(0, 0, 0, 0, NewQueue(MAX_LOG_SIZE), NewQueue(MAX_LOG_SIZE), NewQueue(MAX_LOG_SIZE),
               0, 0, 0, 0)
  }

  /** `FrameStats::tick`. The counters are `u32`; an increment past `u32::MAX`
      panics in a debug build. */
  function Tick(s: FrameStats): (r: Result<FrameStats, string>)
    requires s.Valid()
    ensures r.Failure? <==> s.totalFrameCount == U32_MAX || s.frameCount == U32_MAX
    ensures r.Success? ==> r.value.Valid()
  {
    var cpu := SaturatingSub(s.previousFrameTime, s.gpuTime);
    var frameLog := Push(s.frameTimeLog, AsMillis(s.previousFrameTime)).value;
    var cpuLog := Push(s.cpuTimeLog, AsMillis(cpu)).value;
    var gpuLog := Push(s.gpuTimeLog, AsMillis(s.gpuTime)).value;
    var total :- CheckedAdd(s.totalFrameCount, 1).ToResult("attempt to add with overflow");
    var count :- CheckedAdd(s.frameCount, 1).ToResult("attempt to add with overflow");
    var timer := s.timer + s.frameTime;
    var s' := s.(cpuTime := cpu, frameTimeLog := frameLog, cpuTimeLog := cpuLog, gpuTimeLog := gpuLog,
                 totalFrameCount := total, frameCount := count, timer := timer);
    if timer > ONE_SEC then
      Success(s'.(fpsCounter := count, frameCount := 0, timer := timer - ONE_SEC))
    else Success(s')
  }

  /** What one tick does: CPU time is the previous frame time minus the GPU time
      (never negative), each log gains exactly one entry at its back, both counters
      advance by one, and once more than a second has accumulated the frame count
      becomes the FPS figure and one second is taken off the timer. */
  lemma TickEffect(s: FrameStats)
    requires s.Valid() && Tick(s).Success?
    ensures var r := Tick(s).value;
      && r.cpuTime + s.gpuTime >= s.previousFrameTime
      && (s.previousFrameTime >= s.gpuTime ==> r.cpuTime == s.previousFrameTime - s.gpuTime)
      && (s.previousFrameTime < s.gpuTime ==> r.cpuTime == 0)
      && OneMore(s.frameTimeLog, r.frameTimeLog, AsMillis(s.previousFrameTime))
      && OneMore(s.cpuTimeLog, r.cpuTimeLog, AsMillis(r.cpuTime))
      && OneMore(s.gpuTimeLog, r.gpuTimeLog, AsMillis(s.gpuTime))
      && r.totalFrameCount == s.totalFrameCount + 1
      && (s.timer + s.frameTime > ONE_SEC ==>
            r.fpsCounter == s.frameCount + 1 && r.frameCount == 0
            && r.timer == s.timer + s.frameTime - ONE_SEC)
      && (s.timer + s.frameTime <= ONE_SEC ==>
            r.fpsCounter == s.fpsCounter && r.frameCount == s.frameCount + 1
            && r.timer == s.timer + s.frameTime)
      && r.previousFrameTime == s.previousFrameTime && r.frameTime == s.frameTime
      && r.gpuTime == s.gpuTime
  {
  }

  /** `after` is `before` with `v` appended, the oldest entry dropped if it was
      full. */
  ghost predicate OneMore(before: BoundedQueue<nat>, after: BoundedQueue<nat>, v: nat) {
    && before.Valid()
    && after.maxSize == before.maxSize
    && after.items == (if |before.items| == before.maxSize && |before.items| > 0 then before.items[1..] else before.items) + [v]
  }

  /** `set_frame_time`: the old frame time becomes the previous one. */
  function SetFrameTime(s: FrameStats, frameTime: nat): (r: FrameStats)
    ensures r.previousFrameTime == s.frameTime && r.frameTime == frameTime
    ensures r.(previousFrameTime := s.previousFrameTime, frameTime := s.frameTime) == s
  {
    s.(previousFrameTime := s.frameTime, frameTime := frameTime)
  }

  /** `set_gpu_time_time`. */
  function SetGpuTime(s: FrameStats, gpuTime: nat): (r: FrameStats)
    ensures r.gpuTime == gpuTime && r.(gpuTime := s.gpuTime) == s
  {
    s.(gpuTime := gpuTime)
  }

  /** `gpu_frame_time_ms`: the span between the two timestamps of the frame, zero
      if the end stamp is not after the start stamp. */
  function GpuFrameTime(startStamp: nat, endStamp: nat): (r: nat)
    ensures startStamp + r >= endStamp
    ensures startStamp <= endStamp ==> startStamp + r == endStamp
    ensures endStamp <= startStamp ==> r == 0
  {
    SaturatingSub(endStamp, startStamp)
  }
}
