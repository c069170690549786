/** The frame pacer (frame_pacer.rs): a rate gate on elapsed milliseconds
    and an adaptive controller that moves the target FPS multiplicatively
    inside `[minFps, maxFps]` in response to packet loss and slow frames.
    Clock readings are parameters (milliseconds); the f32 factors 0.8, 1.1
    and 0.9 are modelled as the integer steps `t*8/10`, `t*11/10`, `t*9/10`. */
module Pacer {
  import opened Bytes

  /** Consecutive slow frames that trigger a reduction. */
  const SlowFrameLimit: nat := 5

  datatype FramePacer = FramePacer(targetFps: u32, lastFrameTime: nat, frameCount: nat, startTime: nat)

  /** `FramePacer::new`: both clocks start at `now`, no frame counted. */
  function New(targetFps: u32, now: nat): (p: FramePacer)
    ensures p.targetFps == targetFps && p.frameCount == 0
    ensures p.lastFrameTime == now && p.startTime == now
  {
    FramePacer(targetFps, now, 0, now)
  }

  /** Milliseconds per frame, `1000 / target_fps` (integer division; the
      source divides by zero when the target is 0). */
  function Spf(p: FramePacer): (ms: nat)
    requires p.targetFps > 0
    ensures ms * p.targetFps <= 1000 < (ms + 1) * p.targetFps
  {
    1000 / p.targetFps
  }

  /** `Instant::elapsed`: saturates at zero if the clock reads earlier. */
  function Elapsed(now: nat, since: nat): (ms: nat)
    ensures now >= since ==> ms + since == now
    ensures now < since ==> ms == 0
  {
    if now >= since then now - since else 0
  }

  /** `should_capture` at time `now`: the verdict and the pacer afterwards. */
  datatype Gate = Gate(capture: bool, pacer: FramePacer)

  function ShouldCapture(p: FramePacer, now: nat): (g: Gate)
    requires p.targetFps > 0
    ensures g.capture <==> Elapsed(now, p.lastFrameTime) >= Spf(p)
    ensures g.capture ==> g.pacer == p.(lastFrameTime := now, frameCount := p.frameCount + 1)
    ensures !g.capture ==> g.pacer == p
  {
    if Elapsed(now, p.lastFrameTime) >= Spf(p) then
      Gate(true, p.(lastFrameTime := now, frameCount := p.frameCount + 1))
    else
      Gate(false, p)
  }

  /** `reset`: the counter returns to zero and both clocks restart at `now`. */
  function Reset(p: FramePacer, now: nat): (r: FramePacer)
    ensures r.frameCount == 0 && r.lastFrameTime == now && r.startTime == now
    ensures r.targetFps == p.targetFps
  {
    p.(frameCount := 0, startTime := now, lastFrameTime := now)
  }

  /** `set_fps`: stores the value as given, with no clamping. */
  function SetFps(p: FramePacer, fps: u32): (r: FramePacer)
    ensures r.targetFps == fps
    ensures r.lastFrameTime == p.lastFrameTime && r.frameCount == p.frameCount && r.startTime == p.startTime
  {
    p.(targetFps := fps)
  }

  /** Right after a capture, a second call at the same instant declines, as
      long as a frame lasts at least one millisecond (target at most 1000). */
  lemma SecondCallDeclines(p: FramePacer, now: nat)
    requires 0 < p.targetFps <= 1000
    requires ShouldCapture(p, now).capture
    ensures !ShouldCapture(ShouldCapture(p, now).pacer, now).capture
  {
  }

  /** A fresh pacer declines until a whole frame time has passed since it
      was created: the first call is not immediately true. */
  lemma NewPacerWaitsOneFrame(fps: u32, created: nat, now: nat)
    requires fps > 0 && now >= created
    ensures ShouldCapture(New(fps, created), now).capture <==> now >= created + 1000 / fps
  {
  }

  /** Above this rate a frame lasts zero whole milliseconds and the gate is
      always open. */
  lemma FastTargetAlwaysCaptures(p: FramePacer, now: nat)
    requires p.targetFps > 1000
    ensures ShouldCapture(p, now).capture
  {
  }

  /** `AdaptiveFramePacer`: the pacer, the FPS bounds and the slow-frame counter. */
  datatype AdaptivePacer = AdaptivePacer(pacer: FramePacer, minFps: u32, maxFps: u32, slowFrames: nat)

  /** `AdaptiveFramePacer::new`: the default FPS is taken as given, even
      outside `[minFps, maxFps]`. */
  function NewAdaptive(defaultFps: u32, minFps: u32, maxFps: u32, now: nat): (a: AdaptivePacer)
    ensures a.pacer == New(defaultFps, now)
    ensures a.minFps == minFps && a.maxFps == maxFps && a.slowFrames == 0
  {
    AdaptivePacer(New(defaultFps, now), minFps, maxFps, 0)
  }

  function Target(a: AdaptivePacer): u32
  {
    a.pacer.targetFps
  }

  /** The target lies within the bounds. */
  predicate Clamped(a: AdaptivePacer)
  {
    a.minFps <= Target(a) <= a.maxFps
  }

  /** The measured loss rate against the 10% threshold: above it, below half
      of it, or in between. */
  datatype LossClass = High | Mid | Low

  function Min(a: int, b: int): int { if a <= b then a else b }
  function Max(a: int, b: int): int { if a >= b then a else b }

  /** `adjust_for_packet_loss`: high loss scales the target by 0.8 but not
      below the minimum; low loss scales it by 1.1 but not above the
      maximum; in between nothing changes. */
  function AdjustForPacketLoss(a: AdaptivePacer, loss: LossClass): (r: AdaptivePacer)
    ensures r.minFps == a.minFps && r.maxFps == a.maxFps && r.slowFrames == a.slowFrames
    ensures r.pacer == a.pacer.(targetFps := Target(r))
    ensures loss == High ==> Target(r) == Max(Target(a) * 8 / 10, a.minFps)
    ensures loss == Low ==> Target(r) == Min(Target(a) * 11 / 10, a.maxFps)
    ensures loss == Mid ==> r == a
  {
    match loss
    case High =>
      var fps := Max(Target(a) * 8 / 10, a.minFps);
      if fps != Target(a) then a.(pacer := SetFps(a.pacer, fps)) else a
    case Low =>
      var fps := Min(Target(a) * 11 / 10, a.maxFps);
      if fps != Target(a) then a.(pacer := SetFps(a.pacer, fps)) else a
    case Mid => a
  }

  /** `adjust_for_slow_frame`: a frame longer than twice the frame time
      counts as slow; the fifth consecutive slow frame scales the target by
      0.9 (not below the minimum) and restarts the count; a frame that is
      not slow restarts it too. */
  function AdjustForSlowFrame(a: AdaptivePacer, frameTimeMs: nat): (r: AdaptivePacer)
    requires Target(a) > 0
    ensures r.minFps == a.minFps && r.maxFps == a.maxFps
    ensures r.pacer == a.pacer.(targetFps := Target(r))
    ensures frameTimeMs <= 2 * (1000 / Target(a)) ==> r == a.(slowFrames := 0)
    ensures frameTimeMs > 2 * (1000 / Target(a)) && a.slowFrames + 1 < SlowFrameLimit ==>
      r == a.(slowFrames := a.slowFrames + 1)
    ensures frameTimeMs > 2 * (1000 / Target(a)) && a.slowFrames + 1 >= SlowFrameLimit ==>
      Target(r) == Max(Target(a) * 9 / 10, a.minFps) && r.slowFrames == 0
  {
    var targetFrameTime := 1000 / Target(a);
    if frameTimeMs > targetFrameTime * 2 then
      var count := a.slowFrames + 1;
      if count >= SlowFrameLimit then
        var fps := Max(Target(a) * 9 / 10, a.minFps);
        a.(pacer := SetFps(a.pacer, fps), slowFrames := 0)
      else
        a.(slowFrames := count)
    else
      a.(slowFrames := 0)
  }

  /** High loss never raises the target and low loss never lowers it, as
      long as the target starts inside the bounds. */
  lemma LossDirection(a: AdaptivePacer)
    requires Clamped(a)
    ensures Target(AdjustForPacketLoss(a, High)) <= Target(a)
    ensures Target(AdjustForPacketLoss(a, Low)) >= Target(a)
  {
  }

  /** Both adjustments keep a clamped target clamped. */
  lemma AdjustmentsKeepClamp(a: AdaptivePacer, loss: LossClass, frameTimeMs: nat)
    requires Clamped(a) && Target(a) > 0
    ensures Clamped(AdjustForPacketLoss(a, loss))
    ensures Clamped(AdjustForSlowFrame(a, frameTimeMs))
  {
  }

  /** After any slow-frame adjustment the counter is below the limit,
      whatever it was before. */
  lemma SlowCounterBounded(a: AdaptivePacer, frameTimeMs: nat)
    requires Target(a) > 0
    ensures AdjustForSlowFrame(a, frameTimeMs).slowFrames < SlowFrameLimit
  {
  }

  /** With bounds 10..60, a target of 30 under high loss drops below 30. */
  lemma HighLossFromThirty(now: nat)
    ensures Target(AdjustForPacketLoss(NewAdaptive(30, 10, 60, now), High)) == 24
  {
  }

  /** Below 10 FPS the 1.1 step truncates back to the same value, so low loss
      cannot raise the target there. */
  lemma LowLossStuckBelowTen(a: AdaptivePacer)
    requires Target(a) < 10
    ensures Target(AdjustForPacketLoss(a, Low)) <= Target(a)
  {
  }

  /** One observation fed to the adaptive pacer. */
  datatype Event = Loss(loss: LossClass) | FrameTime(ms: nat)

  /** Feed one observation to the matching adjustment. */
  function Apply(a: AdaptivePacer, e: Event): (r: AdaptivePacer)
    requires Clamped(a) && a.minFps > 0
    ensures Clamped(r) && r.minFps == a.minFps && r.maxFps == a.maxFps
    ensures e.FrameTime? || a.slowFrames < SlowFrameLimit ==> r.slowFrames < SlowFrameLimit
  {
    match e
    case Loss(l) =>
      AdjustmentsKeepClamp(a, l, 0);
      AdjustForPacketLoss(a, l)
    case FrameTime(ms) =>
      AdjustmentsKeepClamp(a, Mid, ms);
      SlowCounterBounded(a, ms);
      AdjustForSlowFrame(a, ms)
  }

  /** The adaptive pacer after a run of observations. */
  function Run(a: AdaptivePacer, events: seq<Event>): AdaptivePacer
    requires Clamped(a) && a.minFps > 0
    decreases |events|
  {
    if |events| == 0 then a else Run(Apply(a, events[0]), events[1..])
  }

  /** Over any run that starts inside the bounds with a positive minimum, the
      target stays inside the bounds and positive (so the frame time is always
      defined), the bounds never change, and the slow counter stays below the
      limit. */
  lemma {:induction false} RunKeepsClamp(a: AdaptivePacer, events: seq<Event>)
    requires Clamped(a) && a.minFps > 0 && a.slowFrames < SlowFrameLimit
    ensures Clamped(Run(a, events)) && Target(Run(a, events)) > 0
    ensures Run(a, events).minFps == a.minFps && Run(a, events).maxFps == a.maxFps
    ensures Run(a, events).slowFrames < SlowFrameLimit
    decreases |events|
  {
    if |events| > 0 {
      RunKeepsClamp(Apply(a, events[0]), events[1..]);
    }
  }

  /** With a zero minimum, high loss can drive the target to zero, after
      which the frame time `1000 / target_fps` is undefined. */
  lemma ZeroMinimumReachesZero(now: nat)
    ensures Target(AdjustForPacketLoss(NewAdaptive(1, 0, 60, now), High)) == 0
  {
  }
}
