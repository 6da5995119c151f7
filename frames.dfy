/**
 * The bookkeeping `systemDrawScreen` does on every frame the emulator
 * completes: the wrapping frame counter, the FPS sample every 120 frames,
 * the 60-frame tick that drives autosave and the OSD countdown, frame
 * skipping in turbo mode and the choice of overlay line.
 */
module Frames {
  import opened Basics
  import opened Messages

  const FpsPeriod: nat := 120
  const TickPeriod: nat := 60
  const TurboPeriod: nat := 20

  /** `frameCount++` on a `uint32_t`. */
  function NextCount(c: uint32): (r: uint32)
    ensures c as int + 1 < Uint32Modulus ==> r as int == c as int + 1
    ensures c as int + 1 == Uint32Modulus ==> r == 0
  {
    ((c as int + 1) % Uint32Modulus) as uint32
  }

  /** The counter `n` frames after `c`. */
  function Advance(c: uint32, n: nat): (r: uint32)
    ensures c as int + n < Uint32Modulus ==> r as int == c as int + n
  {
    ((c as int + n) % Uint32Modulus) as uint32
  }

  lemma AdvanceStep(c: uint32, n: nat)
    ensures Advance(c, n + 1) == NextCount(Advance(c, n))
  {
  }

  /** The frame whose new count is `c` samples the FPS. */
  predicate FpsDue(c: uint32)
  {
    c as int % FpsPeriod == 0
  }

  /** The frame whose new count is `c` is a 60-frame tick (autosave check, OSD decay). */
  predicate TickDue(c: uint32)
  {
    c as int % TickPeriod == 0
  }

  /** Whether the frame whose new count is `c` is presented: all of them, or every 20th in turbo mode. */
  predicate Presents(c: uint32, turbo: bool)
  {
    !turbo || c as int % TurboPeriod == 0
  }

  /** `currentTime - lastTime` on `uint32_t`: the tick counter may have wrapped. */
  function TickDelta(now: uint32, last: uint32): (d: uint32)
    ensures now >= last ==> d as int == now as int - last as int
    ensures now < last ==> d as int == now as int - last as int + Uint32Modulus
  {
    ((now as int - last as int) % Uint32Modulus) as uint32
  }

  /**
   * `emuFPS = 120 * 1000 / delta`, with a zero delta read as one tick: the
   * frames per second over the last 120 frames, rounded down.
   */
  function SampledFps(now: uint32, last: uint32): (fps: nat)
    ensures var d := if TickDelta(now, last) == 0 then 1 else TickDelta(now, last) as int;
      fps * d <= FpsPeriod * 1000 < (fps + 1) * d
    ensures fps <= FpsPeriod * 1000
    ensures now == last ==> fps == FpsPeriod * 1000
  {
    var d := if TickDelta(now, last) == 0 then 1 else TickDelta(now, last) as int;
    FpsPeriod * 1000 / d
  }

  /** The line drawn over a presented frame. */
  datatype Overlay =
    | OsdOverlay(text: string)                 // the OSD message
    | FpsFifoOverlay(fps: int, fifoLen: int)   // "FPS: %d, fifo: %d"
    | FpsOverlay(fps: int)                     // "FPS: %d"
    | NoOverlay

  datatype FrameShown = Skipped | Presented(overlay: Overlay)

  /**
   * The overlay precedence: a visible OSD message first, then the audio debug
   * line, then the bare FPS line in turbo mode, otherwise nothing.
   */
  function SelectOverlay(osd: Message, debug: bool, turbo: bool, fps: int, fifoLen: int): (o: Overlay)
    ensures o.OsdOverlay? <==> Visible(osd)
    ensures o.OsdOverlay? ==> o.text == osd.text
    ensures o.FpsFifoOverlay? <==> !Visible(osd) && debug
    ensures o.FpsFifoOverlay? ==> o.fps == fps && o.fifoLen == fifoLen
    ensures o.FpsOverlay? <==> !Visible(osd) && !debug && turbo
    ensures o.FpsOverlay? ==> o.fps == fps
    ensures o.NoOverlay? <==> !Visible(osd) && !debug && !turbo
  {
    if Visible(osd) then OsdOverlay(osd.text)
    else if debug then FpsFifoOverlay(fps, fifoLen)
    else if turbo then FpsOverlay(fps)
    else NoOverlay
  }

  /** What one frame with new count `c` puts on the screen. */
  function FrameOutput(c: uint32, turbo: bool, osd: Message, debug: bool, fps: int, fifoLen: int): (s: FrameShown)
    ensures s.Skipped? <==> turbo && c as int % TurboPeriod != 0
    ensures s.Presented? ==> s.overlay == SelectOverlay(osd, debug, turbo, fps, fifoLen)
  {
    if Presents(c, turbo) then Presented(SelectOverlay(osd, debug, turbo, fps, fifoLen)) else Skipped
  }

  /** How many of the `n` frames after count `c` have a new count divisible by `p`. */
  function Hits(c: uint32, n: nat, p: nat): nat
    requires p > 0
    decreases n
  {
    if n == 0 then 0
    else Hits(c, n - 1, p) + (if Advance(c, n) as int % p == 0 then 1 else 0)
  }

  /** Euclidean division is determined by quotient and remainder. */
  lemma DivModUnique(x: int, p: int, q: int, r: int)
    requires p > 0 && x == p * q + r && 0 <= r < p
    ensures x / p == q && x % p == r
  {
    var d := x / p - q;
    assert p * d == p * (x / p) - p * q;
    MulSign(p, d);
  }

  lemma MulSign(p: int, d: int)
    requires p > 0
    ensures d >= 1 ==> p * d >= p
    ensures d <= -1 ==> p * d <= -p
  {
  }

  /** Counting one more frame passes a multiple of `p` exactly when the new count is one. */
  lemma StepBoundary(x: nat, p: nat)
    requires p > 0
    ensures (x + 1) / p == x / p + (if (x + 1) % p == 0 then 1 else 0)
  {
    var q := x / p;
    var r := x % p;
    if r + 1 < p {
      DivModUnique(x + 1, p, q, r + 1);
    } else {
      assert x + 1 == p * (q + 1) + 0;
      DivModUnique(x + 1, p, q + 1, 0);
    }
  }

  /** Without wrap-around, the event due every `p` frames happens `(c + n) / p - c / p` times. */
  lemma {:induction false} HitsCount(c: uint32, n: nat, p: nat)
    requires p > 0 && c as int + n < Uint32Modulus
    ensures Hits(c, n, p) == (c as int + n) / p - c as int / p
  {
    if n > 0 {
      HitsCount(c, n - 1, p);
      StepBoundary(c as int + n - 1, p);
    }
  }

  /** How many of the `n` frames after count `c` are presented. */
  function PresentedCount(c: uint32, n: nat, turbo: bool): nat
    decreases n
  {
    if n == 0 then 0
    else PresentedCount(c, n - 1, turbo) + (if Presents(Advance(c, n), turbo) then 1 else 0)
  }

  /** Every frame is presented outside turbo mode; in turbo mode only those at multiples of 20. */
  lemma {:induction false} PresentedFrames(c: uint32, n: nat, turbo: bool)
    ensures !turbo ==> PresentedCount(c, n, turbo) == n
    ensures turbo ==> PresentedCount(c, n, turbo) == Hits(c, n, TurboPeriod)
  {
    if n > 0 {
      PresentedFrames(c, n - 1, turbo);
    }
  }

  /** In turbo mode, without wrap-around, one frame in 20 is presented. */
  lemma TurboPresentsOneIn20(c: uint32, n: nat)
    requires c as int + n < Uint32Modulus
    ensures PresentedCount(c, n, true) == (c as int + n) / TurboPeriod - c as int / TurboPeriod
    ensures c as int % TurboPeriod == 0 ==> PresentedCount(c, n, true) == n / TurboPeriod
  {
    PresentedFrames(c, n, true);
    HitsCount(c, n, TurboPeriod);
    if c as int % TurboPeriod == 0 {
      var k := c as int / TurboPeriod;
      DivModUnique(c as int + n, TurboPeriod, k + n / TurboPeriod, n % TurboPeriod);
    }
  }

  /** The OSD countdown after the `n` frames following count `c`: it decays on 60-frame ticks outside turbo mode. */
  function OsdAfter(c: uint32, osd: Message, n: nat, turbo: bool): Message
    decreases n
  {
    if n == 0 then osd
    else
      var prev := OsdAfter(c, osd, n - 1, turbo);
      if TickDue(Advance(c, n)) && !turbo then Decayed(prev) else prev
  }

  /**
   * Outside turbo mode the message decays once per 60-frame tick; in turbo
   * mode it is frozen.
   */
  lemma {:induction false} OsdDecaysOnTicks(c: uint32, osd: Message, n: nat, turbo: bool)
    ensures !turbo ==> OsdAfter(c, osd, n, turbo) == DecayedTimes(osd, Hits(c, n, TickPeriod))
    ensures turbo ==> OsdAfter(c, osd, n, turbo) == osd
  {
    if n > 0 {
      OsdDecaysOnTicks(c, osd, n - 1, turbo);
    }
  }

  /**
   * If the OSD holds countdown `cnt` at the end of a tick frame, after that
   * frame's own decay, it is drawn on that frame and the `60 * cnt - 1`
   * frames after it, outside turbo mode (absent wrap-around and new
   * messages); frame `n` after the tick shows it iff `n < 60 * cnt`.
   */
  lemma OsdVisibleFor(c: uint32, osd: Message, n: nat)
    requires c as int % TickPeriod == 0 && c as int + n < Uint32Modulus && osd.count >= 0
    ensures Visible(OsdAfter(c, osd, n, false)) <==> n < TickPeriod * osd.count
  {
    OsdDecaysOnTicks(c, osd, n, false);
    HitsCount(c, n, TickPeriod);
    var k := c as int / TickPeriod;
    DivModUnique(c as int + n, TickPeriod, k + n / TickPeriod, n % TickPeriod);
    CountdownRunsOut(osd, n / TickPeriod);
  }

  /**
   * The counter wraps at 2^32, which is not a multiple of 120: the FPS
   * sample after the wrap comes 16 frames after the previous one, not 120.
   */
  lemma WrapShortensFpsWindow()
    ensures FpsDue(0xFFFF_FFF0) && FpsDue(Advance(0xFFFF_FFF0, 16))
    ensures forall k :: 0 < k < 16 ==> !FpsDue(Advance(0xFFFF_FFF0, k))
  {
  }
}
