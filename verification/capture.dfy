/** The capture paths of screen_capture.rs: the bounded retry loop and the
    size, stride and pixel checks of `capture_screen_scrap`, the alpha strip
    of `encode_rgba_to_jpeg`, the channel swap of
    `capture_screen_with_quality`, and the choice between the DXGI and scrap
    back ends made by `capture_screen`. The image library's resizing and
    JPEG compression are outside the model: an operation's result is the
    image it hands to the library (`JpegRequest`). */
module Capture {
  import opened Bytes
  import opened Pixels
  import Dxgi

  /** WouldBlock results tolerated before the scrap capture gives up. */
  const MaxRetries: nat := 30

  /** JPEG quality of `capture_screen` (both back ends). */
  const JpegQuality: byte := 50

  /** Wider images are scaled down to this width before encoding. */
  const MaxWidth: nat := 1280

  /** The error messages of the capture paths, one constructor each. */
  datatype CaptureError =
    | CaptureTimeout      // 30 WouldBlocks in a row
    | FrameFailed         // any other error from `Capturer::frame`
    | BufferTooSmall      // fewer than `width * height * 4` bytes
    | BadStride           // fewer than `width * 4` bytes per row
    | ImageBufferFailed   // `ImageBuffer::from_raw` declined the buffer

  /** A capture step ends with a value, an error, or a panic (the division
      by a zero display height). */
  datatype Outcome<T> = Ok(value: T) | Err(error: CaptureError) | Panic

  /** An image handed to the image library for JPEG encoding:
      `channels`-sample pixels, `width` by `height`, the quality, and whether
      the library first scales it down to `MaxWidth`. */
  datatype JpegRequest = JpegRequest(samples: seq<byte>, channels: nat, width: nat, height: nat,
                                     quality: byte, downscaled: bool)

  // ---------------------------------------------------------------------
  // The bounded retry loop of `capture_screen_scrap`

  /** What one call of `Capturer::frame` returns. */
  datatype FrameResult = Frame(buffer: seq<byte>) | WouldBlock | FrameError

  /** The loop's outcome and the number of `frame()` calls it made. */
  datatype Retried = Retried(outcome: Outcome<seq<byte>>, calls: nat)

  /** The index of the first `frame()` call from `from` on that does not
      block, or `MaxRetries` if every call up to the limit blocks. */
  function FirstUnblocked(frame: nat -> FrameResult, from: nat): (k: nat)
    requires from <= MaxRetries
    ensures from <= k <= MaxRetries
    ensures forall j :: from <= j < k ==> frame(j).WouldBlock?
    ensures k < MaxRetries ==> !frame(k).WouldBlock?
    decreases MaxRetries - from
  {
    if from == MaxRetries || !frame(from).WouldBlock? then from else FirstUnblocked(frame, from + 1)
  }

  /** The retry loop; `frame(k)` is what the `k`-th call of `Capturer::frame`
      returns (the 10 ms sleeps are left out). */
  method CaptureWithRetry(frame: nat -> FrameResult) returns (r: Retried)
    ensures 1 <= r.calls <= MaxRetries && !r.outcome.Panic?
    // Every call but the last one blocked.
    ensures forall k :: 0 <= k < r.calls - 1 ==> frame(k).WouldBlock?
    // A frame is returned as soon as one arrives.
    ensures frame(r.calls - 1).Frame? ==> r.outcome == Ok(frame(r.calls - 1).buffer)
    // Any other error ends the loop at once.
    ensures frame(r.calls - 1).FrameError? ==> r.outcome == Err(FrameFailed)
    // The timeout comes after exactly 30 consecutive WouldBlocks, and only then.
    ensures frame(r.calls - 1).WouldBlock? ==> r.outcome == Err(CaptureTimeout) && r.calls == MaxRetries
    ensures r.outcome == Err(CaptureTimeout) <==> forall k :: 0 <= k < MaxRetries ==> frame(k).WouldBlock?
    // The loop stops at the first call that does not block.
    ensures FirstUnblocked(frame, 0) < MaxRetries ==> r.calls == FirstUnblocked(frame, 0) + 1
    ensures FirstUnblocked(frame, 0) == MaxRetries ==> r.outcome == Err(CaptureTimeout)
  {
    var retries := 0;
    while true
      invariant 0 <= retries < MaxRetries
      invariant forall k :: 0 <= k < retries ==> frame(k).WouldBlock?
      decreases MaxRetries - retries
    {
      match frame(retries)
      case Frame(b) =>
        return Retried(Ok(b), retries + 1);
      case FrameError =>
        return Retried(Err(FrameFailed), retries + 1);
      case WouldBlock =>
        retries := retries + 1;
        if retries >= MaxRetries {
          return Retried(Err(CaptureTimeout), retries);
        }
    }
  }

  // ---------------------------------------------------------------------
  // Size, stride and pixel conversion of `capture_screen_scrap`

  /** With a positive height, `len / height >= 4w` exactly when
      `len >= 4wh`: the stride check repeats the size check. */
  lemma StrideCheckRedundant(len: nat, w: nat, h: nat)
    requires h > 0
    ensures len / h >= 4 * w <==> len >= 4 * w * h
  {
    var q := len / h;
    assert len == h * q + len % h && len % h < h;
    if q >= 4 * w {
      MulMono(h, 4 * w, h, q);
    } else {
      MulMono(h, q + 1, h, 4 * w);
    }
  }

  /** The size check, the stride check and the BGRA→RGBA loop, up to the
      `ImageBuffer::from_raw` call. `width * height * 4` is taken without
      `usize` overflow. */
  function ScrapConvert(buf: seq<byte>, w: nat, h: nat): (r: Outcome<seq<byte>>)
    ensures r == Err(BufferTooSmall) <==> |buf| < 4 * w * h
    // A zero height passes the size check and then divides by zero.
    ensures r.Panic? <==> h == 0
    // The stride check and `from_raw` never decline what the size check let through.
    ensures r.Ok? <==> h > 0 && |buf| >= 4 * w * h
    ensures r.Ok? ==> |r.value| == 4 * w * h
  {
    if |buf| < 4 * w * h then Err(BufferTooSmall)
    else if h == 0 then Panic
    else
      var stride := |buf| / h;
      StrideCheckRedundant(|buf|, w, h);
      if stride < 4 * w then Err(BadStride)
      else
        var rgba := Strided(buf, w, h, stride);
        ScrapCovered(|buf|, w, h);
        StridedFullLength(buf, w, h, stride);
        FromRawFitsExact(4, w, h);
        if !FromRawFits(|rgba|, 4, w, h) then Err(ImageBufferFailed) else Ok(rgba)
  }

  /** A buffer that passed the size check is covered at stride `len / h`:
      every pixel's guard in the conversion loop holds. */
  lemma ScrapCovered(len: nat, w: nat, h: nat)
    requires h > 0 && len >= 4 * w * h
    ensures Covered(len, w, h, len / h)
    ensures forall x, y :: 0 <= x < w && 0 <= y < h ==> y * (len / h) + 4 * x + 3 < len
  {
    StrideCheckRedundant(len, w, h);
    assert h * (len / h) <= len;
    StrideCovers(len, w, h, len / h);
    forall x, y | 0 <= x < w && 0 <= y < h
      ensures y * (len / h) + 4 * x + 3 < len
    {
      RowInside(len, w, h, len / h, y);
    }
  }

  /** Byte `c` of output pixel `(x, y)` is byte `2, 1, 0, 3` (for
      `c = 0, 1, 2, 3`) of the buffer pixel at `y * stride + 4x`, with
      `stride = len / h`. */
  lemma ScrapPixel(buf: seq<byte>, w: nat, h: nat, x: nat, y: nat, c: nat)
    requires ScrapConvert(buf, w, h).Ok?
    requires x < w && y < h && c < 4
    ensures SameByte(ScrapConvert(buf, w, h).value, 4 * (w * y + x) + c,
                     buf, y * (|buf| / h) + 4 * x + SwapIndex(c))
  {
    var stride := |buf| / h;
    assert Covered(|buf|, w, h, stride) by {
      ScrapCovered(|buf|, w, h);
    }
    StridedPixel(buf, w, h, stride, x, y, c);
  }

  /** `capture_screen_scrap` up to the image library: retry, then convert. */
  method CaptureScreenScrap(w: nat, h: nat, frame: nat -> FrameResult) returns (r: Outcome<JpegRequest>)
    ensures r == Err(CaptureTimeout) <==> forall k :: 0 <= k < MaxRetries ==> frame(k).WouldBlock?
    ensures r.Ok? ==> |r.value.samples| == 4 * w * h && r.value.channels == 4
    ensures r.Ok? ==> r.value.width == w && r.value.height == h && r.value.quality == JpegQuality
    ensures r.Ok? ==> r.value.downscaled == (AsU32(w) > MaxWidth)
    ensures r.Ok? || r.Panic? || r.error != ImageBufferFailed
    ensures r.Ok? || r.Panic? || r.error != BadStride
    // The first frame that does not block is the one converted.
    ensures var k := FirstUnblocked(frame, 0);
      r.Ok? <==> k < MaxRetries && frame(k).Frame? && h > 0 && |frame(k).buffer| >= 4 * w * h
    ensures var k := FirstUnblocked(frame, 0);
      r.Ok? ==> r.value.samples == ScrapConvert(frame(k).buffer, w, h).value
    ensures var k := FirstUnblocked(frame, 0);
      r == Err(FrameFailed) <==> k < MaxRetries && frame(k).FrameError?
    ensures var k := FirstUnblocked(frame, 0);
      r == Err(BufferTooSmall) <==> k < MaxRetries && frame(k).Frame? && |frame(k).buffer| < 4 * w * h
    ensures var k := FirstUnblocked(frame, 0);
      r.Panic? <==> k < MaxRetries && frame(k).Frame? && h == 0
  {
    var got := CaptureWithRetry(frame);
    if got.outcome.Err? {
      return Err(got.outcome.error);
    }
    match ScrapConvert(got.outcome.value, w, h) {
      case Ok(rgba) => r := Ok(JpegRequest(rgba, 4, w, h, JpegQuality, AsU32(w) > MaxWidth));
      case Err(e) => r := Err(e);
      case Panic => r := Panic;
    }
  }

  // ---------------------------------------------------------------------
  // `encode_rgba_to_jpeg` and `capture_screen_with_quality`

  /** `encode_rgba_to_jpeg`: drop the alpha byte of every whole pixel and
      hand the RGB image to the encoder if `from_raw` accepts it. */
  function EncodeRgbaToJpeg(rgba: seq<byte>, w: nat, h: nat): (r: Outcome<JpegRequest>)
    ensures r.Ok? <==> FromRawFits(3 * (|rgba| / 4), 3, w, h)
    ensures !r.Ok? ==> r == Err(ImageBufferFailed)
    ensures r.Ok? ==> r.value.samples == StripAlpha(rgba) && |r.value.samples| == 3 * (|rgba| / 4)
    ensures r.Ok? ==> r.value.channels == 3 && r.value.width == w && r.value.height == h
    ensures r.Ok? ==> r.value.quality == JpegQuality && r.value.downscaled == (AsU32(w) > MaxWidth)
  {
    var rgb := StripAlpha(rgba);
    if !FromRawFits(|rgb|, 3, w, h) then Err(ImageBufferFailed)
    else Ok(JpegRequest(rgb, 3, w, h, JpegQuality, AsU32(w) > MaxWidth))
  }

  /** An RGBA buffer of exactly `4wh` bytes always gets past `from_raw`. */
  lemma EncodeFullFrame(rgba: seq<byte>, w: nat, h: nat)
    requires |rgba| == 4 * w * h
    ensures EncodeRgbaToJpeg(rgba, w, h).Ok?
    ensures |EncodeRgbaToJpeg(rgba, w, h).value.samples| == 3 * w * h
  {
    assert |rgba| / 4 == w * h;
    FromRawFitsExact(3, w, h);
  }

  /** Byte `c` of RGB pixel `i` is byte `c` of RGBA pixel `i`: only the
      alpha byte is dropped. */
  lemma EncodePixel(rgba: seq<byte>, w: nat, h: nat, i: nat, c: nat)
    requires EncodeRgbaToJpeg(rgba, w, h).Ok?
    requires i < |rgba| / 4 && c < 3
    ensures SameByte(EncodeRgbaToJpeg(rgba, w, h).value.samples, 3 * i + c, rgba, 4 * i + c)
  {
    StripAlphaPixel(rgba, i, c);
  }

  /** `capture_screen_with_quality` after its (unbounded) wait for a frame:
      swap every whole BGRA pixel to RGBA and hand the image, at the
      caller's quality, to the library if `from_raw` accepts it. */
  function WithQualityConvert(buf: seq<byte>, w: nat, h: nat, quality: byte): (r: Outcome<JpegRequest>)
    ensures r.Ok? <==> FromRawFits(4 * (|buf| / 4), 4, w, h)
    ensures !r.Ok? ==> r == Err(ImageBufferFailed)
    ensures r.Ok? ==> |r.value.samples| == 4 * (|buf| / 4) && r.value.channels == 4
    ensures r.Ok? ==> r.value.width == w && r.value.height == h && r.value.quality == quality
    ensures r.Ok? ==> !r.value.downscaled
    // Swapping back gives the whole pixels of the captured buffer.
    ensures r.Ok? ==> SwapChannels(r.value.samples) == buf[..4 * (|buf| / 4)]
  {
    var rgba := SwapChannels(buf);
    SwapChannelsInvolution(buf);
    if !FromRawFits(|rgba|, 4, w, h) then Err(ImageBufferFailed)
    else Ok(JpegRequest(rgba, 4, w, h, quality, false))
  }

  /** Byte `c` of pixel `i` of the swapped image is byte `2, 1, 0, 3` of
      buffer pixel `i`. */
  lemma WithQualityPixel(buf: seq<byte>, w: nat, h: nat, quality: byte, i: nat, c: nat)
    requires WithQualityConvert(buf, w, h, quality).Ok?
    requires i < |buf| / 4 && c < 4
    ensures SameByte(WithQualityConvert(buf, w, h, quality).value.samples, 4 * i + c, buf, 4 * i + SwapIndex(c))
  {
    SwapChannelsPixel(buf, i, c);
  }

  // ---------------------------------------------------------------------
  // The back-end choice of `capture_screen`

  /** The two statics: whether DXGI initialisation was tried, and the DXGI
      capturer if one is installed. */
  datatype Backend = Backend(triedDxgi: bool, dxgi: Option<Dxgi.Capturer>)

  /** The statics at program start. */
  const Initial: Backend := Backend(false, None)

  /** What the environment provides to one call: whether DXGI is available,
      the result of `create_dxgi_capturer` (None for an error), and the
      result of `capture_frame` on the installed capturer. */
  datatype CallEnv = CallEnv(available: bool, created: Option<Dxgi.Capturer>, frame: Dxgi.FrameResult)

  /** Which path served the call. */
  datatype Served =
    | ByDxgi(encoded: Outcome<JpegRequest>)  // DXGI frame passed to `encode_rgba_to_jpeg`
    | PassedWouldBlock                       // DXGI had no new frame
    | ByScrap                                // `capture_screen_scrap` runs

  /** The statics after the call, the path taken, and whether this call
      attempted DXGI initialisation. */
  datatype Selection = Selection(next: Backend, served: Served, initAttempted: bool)

  /** The one-time initialisation block: on the first call, install the
      capturer if DXGI is available and its creation succeeds, and mark
      DXGI as tried either way; on later calls, nothing. */
  function AfterInit(s: Backend, env: CallEnv): (s1: Backend)
    ensures s1.triedDxgi
    ensures s.triedDxgi ==> s1 == s
    ensures !s.triedDxgi && env.available && env.created.Some? ==> s1.dxgi == env.created
    ensures !s.triedDxgi && !(env.available && env.created.Some?) ==> s1.dxgi == s.dxgi
  {
    if s.triedDxgi then s
    else if env.available && env.created.Some? then Backend(true, env.created)
    else s.(triedDxgi := true)
  }

  /** The back-end choice of one `capture_screen` call on a build for
      Windows with the `dxgi` feature, the only build that has the statics
      and the DXGI block. */
  function CaptureScreen(s: Backend, env: CallEnv): (r: Selection)
    // Initialisation is attempted exactly on the first call; afterwards it is marked as tried.
    ensures r.initAttempted <==> !s.triedDxgi
    ensures r.next.triedDxgi
    // An installed capturer with no new frame passes the WouldBlock through and stays.
    ensures r.served == PassedWouldBlock <==>
      AfterInit(s, env).dxgi.Some? && env.frame == Dxgi.Failed(Dxgi.WouldBlock)
    ensures r.served == PassedWouldBlock ==> r.next == AfterInit(s, env)
    // Any other DXGI error removes the capturer for good and falls back to scrap.
    ensures AfterInit(s, env).dxgi.Some? && env.frame.Failed? && env.frame.error != Dxgi.WouldBlock ==>
      r.next.dxgi.None? && r.served == ByScrap
    // A frame from an installed capturer is served by DXGI, and the capturer stays.
    ensures AfterInit(s, env).dxgi.Some? && env.frame.Frame? ==> r.served.ByDxgi? && r.next == AfterInit(s, env)
    ensures AfterInit(s, env).dxgi.Some? && env.frame.Failed? && env.frame.error != Dxgi.WouldBlock ==>
      r.next == AfterInit(s, env).(dxgi := None)
    // Without a capturer, scrap serves and nothing is installed later on.
    ensures AfterInit(s, env).dxgi.None? ==> r.served == ByScrap && r.next == AfterInit(s, env)
    // A DXGI frame is encoded at the capturer's size.
    ensures r.served.ByDxgi? ==>
      && r.next.dxgi.Some? && env.frame.Frame?
      && r.served.encoded == EncodeRgbaToJpeg(env.frame.rgba, r.next.dxgi.value.width, r.next.dxgi.value.height)
  {
    var s1 := AfterInit(s, env);
    var r := match s1.dxgi
      case None => Selection(s1, ByScrap, false)
      case Some(c) =>
        match env.frame
        case Frame(rgba) => Selection(s1, ByDxgi(EncodeRgbaToJpeg(rgba, c.width, c.height)), false)
        case Failed(e) =>
          if e == Dxgi.WouldBlock then Selection(s1, PassedWouldBlock, false)
          else Selection(s1.(dxgi := None), ByScrap, false);
    r.(initAttempted := !s.triedDxgi)
  }

  /** `capture_screen` on any build: without Windows and the `dxgi` feature
      the DXGI block and its statics are compiled out, and every call goes
      straight to scrap, consulting nothing of the environment. */
  function CaptureScreenOnBuild(dxgiBuild: bool, s: Backend, env: CallEnv): (r: Selection)
    ensures !dxgiBuild ==> r.served == ByScrap && r.next == s && !r.initAttempted
    ensures dxgiBuild ==> r == CaptureScreen(s, env)
  {
    if dxgiBuild then CaptureScreen(s, env) else Selection(s, ByScrap, false)
  }

  /** The statics are reachable: until DXGI has been tried no capturer is installed. */
  predicate Reachable(s: Backend)
  {
    !s.triedDxgi ==> s.dxgi.None?
  }

  /** The paths taken by a run of calls, and the statics afterwards. */
  datatype RunResult = RunResult(last: Backend, served: seq<Served>, inits: nat)

  /** Successive `capture_screen` calls on the Windows `dxgi` build. */
  function Run(s: Backend, envs: seq<CallEnv>): RunResult
    decreases |envs|
  {
    if |envs| == 0 then RunResult(s, [], 0)
    else
      var r := CaptureScreen(s, envs[0]);
      var rest := Run(r.next, envs[1..]);
      RunResult(rest.last, [r.served] + rest.served, (if r.initAttempted then 1 else 0) + rest.inits)
  }

  /** Over any run of the Windows `dxgi` build, DXGI initialisation is
      attempted at most once, and exactly once from the initial statics when
      the run is not empty. */
  lemma {:induction false} InitAtMostOnce(s: Backend, envs: seq<CallEnv>)
    ensures Run(s, envs).inits <= 1
    ensures s.triedDxgi ==> Run(s, envs).inits == 0
    ensures !s.triedDxgi && |envs| > 0 ==> Run(s, envs).inits == 1
    ensures |Run(s, envs).served| == |envs|
    decreases |envs|
  {
    if |envs| > 0 {
      InitAtMostOnce(CaptureScreen(s, envs[0]).next, envs[1..]);
    }
  }

  /** Once the scrap fallback is taken for good, every later call uses it. */
  lemma {:induction false} ScrapIsPermanent(s: Backend, envs: seq<CallEnv>)
    requires s.triedDxgi && s.dxgi.None?
    ensures Run(s, envs).last == s
    ensures forall k :: 0 <= k < |Run(s, envs).served| ==> Run(s, envs).served[k] == ByScrap
    ensures |Run(s, envs).served| == |envs|
    decreases |envs|
  {
    if |envs| > 0 {
      ScrapIsPermanent(s, envs[1..]);
    }
  }

  /** If DXGI is unavailable at the first call, every call of the run is
      served by scrap. */
  lemma DxgiUnavailableMeansScrap(envs: seq<CallEnv>)
    requires |envs| > 0 && !envs[0].available
    ensures forall k :: 0 <= k < |Run(Initial, envs).served| ==> Run(Initial, envs).served[k] == ByScrap
    ensures |Run(Initial, envs).served| == |envs|
  {
    var first := CaptureScreen(Initial, envs[0]);
    ScrapIsPermanent(first.next, envs[1..]);
  }

  /** Every call keeps the statics reachable. */
  lemma CaptureScreenReachable(s: Backend, env: CallEnv)
    requires Reachable(s)
    ensures Reachable(CaptureScreen(s, env).next)
  {
  }

  /** A full DXGI frame (row pitch at least `4 * width`) always gets past
      `from_raw` in `encode_rgba_to_jpeg`. */
  lemma DxgiFrameEncodes(c: Dxgi.Capturer, d: Dxgi.Driver)
    requires Dxgi.MappingCovers(c, d) && Dxgi.CaptureFrame(c, d).Frame?
    requires d.mapping.value.rowPitch >= 4 * c.width
    ensures EncodeRgbaToJpeg(Dxgi.CaptureFrame(c, d).rgba, c.width, c.height).Ok?
  {
    EncodeFullFrame(Dxgi.CaptureFrame(c, d).rgba, c.width, c.height);
  }
}
