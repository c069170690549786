/** One call of `DxgiCapturer::capture_frame` (dxgi_capture.rs): the checks
    on the capturer's components, the classification of the acquire result,
    and the row-pitch BGRA→RGBA conversion of the mapped texture. The
    Direct3D calls themselves are replaced by a `Driver` record saying how
    each of them turned out. */
module Dxgi {
  import opened Bytes
  import opened Pixels

  /** The capturer fields `capture_frame` reads: which COM objects are
      present, and the desktop size taken from the output description. */
  datatype Capturer = Capturer(duplication: bool, device: bool, context: bool, width: nat, height: nat)

  /** Outcome of `AcquireNextFrame`. */
  datatype AcquireStatus = Acquired | WaitTimeout | AccessLost | AcquireError

  /** The error strings `capture_frame` can return, one constructor each. */
  datatype DxgiError =
    | DuplicationMissing | DeviceMissing | ContextMissing
    | WouldBlock | AccessLostError | AcquireFailed
    | ResourceMissing | CastFailed | StagingFailed | MapFailed | ReleaseFailed

  /** The mapped staging texture: its row pitch and the bytes behind `pData`. */
  datatype Mapping = Mapping(rowPitch: nat, data: seq<byte>)

  /** How each driver call of one `capture_frame` turns out. */
  datatype Driver = Driver(
    acquire: AcquireStatus,
    resource: bool,        // AcquireNextFrame filled in the desktop resource
    cast: bool,            // the resource casts to a 2-D texture
    staging: bool,         // CreateTexture2D of the staging copy succeeds
    mapping: Option<Mapping>,  // Map succeeds with this mapping
    release: bool)         // ReleaseFrame succeeds

  datatype FrameResult = Frame(rgba: seq<byte>) | Failed(error: DxgiError)

  /** The match on the acquire result: a timeout becomes the "WouldBlock"
      string the caller recognises, a lost output its own message, and any
      other failure a generic one. */
  function ClassifyAcquire(s: AcquireStatus): (e: Option<DxgiError>)
    ensures e.None? <==> s == Acquired
    ensures e == Some(WouldBlock) <==> s == WaitTimeout
    ensures e == Some(AccessLostError) <==> s == AccessLost
    ensures e.Some? ==> e.value in {WouldBlock, AccessLostError, AcquireFailed}
  {
    match s
    case Acquired => None
    case WaitTimeout => Some(WouldBlock)
    case AccessLost => Some(AccessLostError)
    case AcquireError => Some(AcquireFailed)
  }

  /** All three COM objects are present. */
  predicate Ready(c: Capturer)
  {
    c.duplication && c.device && c.context
  }

  /** The mapping covers `rowPitch * height` bytes, which is what the source
      reads through `slice::from_raw_parts` without checking. */
  predicate MappingCovers(c: Capturer, d: Driver)
  {
    d.mapping.Some? ==> |d.mapping.value.data| >= d.mapping.value.rowPitch * c.height
  }

  /** The pixel loop over `src_data = pData[..rowPitch * height]`. */
  function Convert(c: Capturer, m: Mapping): seq<byte>
    requires |m.data| >= m.rowPitch * c.height
  {
    Strided(m.data[..m.rowPitch * c.height], c.width, c.height, m.rowPitch)
  }

  /** `capture_frame`. */
  function CaptureFrame(c: Capturer, d: Driver): (r: FrameResult)
    requires MappingCovers(c, d)
    // The components are checked in order, before anything is acquired.
    ensures !c.duplication ==> r == Failed(DuplicationMissing)
    ensures c.duplication && !c.device ==> r == Failed(DeviceMissing)
    ensures c.duplication && c.device && !c.context ==> r == Failed(ContextMissing)
    // "WouldBlock" is returned exactly on an acquire timeout of a ready capturer.
    ensures r == Failed(WouldBlock) <==> Ready(c) && d.acquire == WaitTimeout
    // A frame comes back exactly when every driver call succeeds.
    ensures r.Frame? <==>
      Ready(c) && d.acquire == Acquired && d.resource && d.cast && d.staging && d.mapping.Some? && d.release
    // Whatever the pitch, only whole pixels and never more than the desktop.
    ensures r.Frame? ==> |r.rgba| <= 4 * c.width * c.height && |r.rgba| % 4 == 0
    // With rows at least `4 * width` bytes apart, every pixel is emitted.
    ensures r.Frame? && d.mapping.value.rowPitch >= 4 * c.width ==> |r.rgba| == 4 * c.width * c.height
  {
    if !c.duplication then Failed(DuplicationMissing)
    else if !c.device then Failed(DeviceMissing)
    else if !c.context then Failed(ContextMissing)
    else match ClassifyAcquire(d.acquire)
      case Some(e) => Failed(e)
      case None =>
        if !d.resource then Failed(ResourceMissing)
        else if !d.cast then Failed(CastFailed)
        else if !d.staging then Failed(StagingFailed)
        else match d.mapping
          case None => Failed(MapFailed)
          case Some(m) =>
            var rgba := Convert(c, m);
            StridedBounded(m.data[..m.rowPitch * c.height], c.width, c.height, m.rowPitch);
            StridedWholePixels(m.data[..m.rowPitch * c.height], c.width, c.height, m.rowPitch);
            PitchCovers(c, m);
            if !d.release then Failed(ReleaseFailed) else Frame(rgba)
  }

  /** With rows at least `4 * width` bytes apart, the pixel loop's guard
      holds for every pixel and the whole desktop is emitted. */
  lemma PitchCovers(c: Capturer, m: Mapping)
    requires |m.data| >= m.rowPitch * c.height
    ensures m.rowPitch >= 4 * c.width ==> Covered(m.rowPitch * c.height, c.width, c.height, m.rowPitch)
    ensures m.rowPitch >= 4 * c.width ==> |Convert(c, m)| == 4 * c.width * c.height
  {
    if m.rowPitch >= 4 * c.width {
      StrideCovers(m.rowPitch * c.height, c.width, c.height, m.rowPitch);
      StridedFullLength(m.data[..m.rowPitch * c.height], c.width, c.height, m.rowPitch);
    }
  }

  /** With rows at least `4 * width` bytes apart, byte `ch` of output pixel
      `(x, y)` is the swapped byte of the mapped pixel at `y * rowPitch + 4x`. */
  lemma FramePixel(c: Capturer, d: Driver, x: nat, y: nat, ch: nat)
    requires MappingCovers(c, d) && CaptureFrame(c, d).Frame?
    requires d.mapping.value.rowPitch >= 4 * c.width
    requires x < c.width && y < c.height && ch < 4
    ensures SameByte(CaptureFrame(c, d).rgba, 4 * (c.width * y + x) + ch,
                     d.mapping.value.data, y * d.mapping.value.rowPitch + 4 * x + SwapIndex(ch))
  {
    var m := d.mapping.value;
    var src := m.data[..m.rowPitch * c.height];
    PitchCovers(c, m);
    StridedPixel(src, c.width, c.height, m.rowPitch, x, y, ch);
  }
}
