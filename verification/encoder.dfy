/** The encoder abstraction of hw_encoder.rs: the encoder kinds, the
    configuration record, the JPEG software encoder, the placeholder
    hardware H.264 encoder, the `create_encoder` factory with its JPEG
    fallbacks, and `auto_detect_encoder`. JPEG compression itself is not
    modelled; a successful encode is the request handed to the image
    library. */
module Encoder {
  import opened Bytes
  import opened Pixels
  import Capture

  datatype EncoderType = Software | HardwareH264 | HardwareH265

  /** `EncoderConfig`; `width` and `height` are `usize` in the source. */
  datatype EncoderConfig = EncoderConfig(
    width: nat, height: nat, fps: u32, bitrate: u32, encoderType: EncoderType, quality: byte)

  /** The two concrete encoders behind `Box<dyn VideoEncoder>`. */
  datatype Encoder =
    | Jpeg(quality: byte, width: nat, height: nat)
    | H264(width: nat, height: nat, bitrate: u32, fps: u32)

  /** The error strings of this file, one constructor each. */
  datatype EncoderError = HardwareUnavailable | ImageBufferFailed | H264NotImplemented

  datatype Result<T> = Ok(value: T) | Err(error: EncoderError)

  /** What `JpegEncoder::encode` hands to the JPEG codec: the RGB samples,
      the dimensions cast to `u32`, and the quality. */
  datatype JpegFrame = JpegFrame(samples: seq<byte>, width: u32, height: u32, quality: byte)

  /** `H264HardwareEncoder::is_available`: no platform probe is implemented. */
  const HardwareAvailable: bool := false

  /** Quality (CRF) chosen for the hardware encoder by auto-detection. */
  const HardwareQuality: byte := 23

  /** JPEG quality chosen by auto-detection. */
  const SoftwareQuality: byte := 70

  /** `encoder_type` of each encoder. */
  function Kind(e: Encoder): (t: EncoderType)
    ensures t == Software <==> e.Jpeg?
    ensures t == HardwareH264 <==> e.H264?
    ensures t != HardwareH265
  {
    match e
    case Jpeg(_, _, _) => Software
    case H264(_, _, _, _) => HardwareH264
  }

  /** `JpegEncoder::new`: keeps the quality and the size, never fails. */
  function JpegNew(config: EncoderConfig): Encoder
  {
    Jpeg(config.quality, config.width, config.height)
  }

  /** `H264HardwareEncoder::new`, with the availability probe as a parameter. */
  function H264New(config: EncoderConfig, available: bool): (r: Result<Encoder>)
    ensures r.Ok? <==> available
    ensures r.Err? ==> r.error == HardwareUnavailable
    ensures r.Ok? ==> r.value == H264(config.width, config.height, config.bitrate, config.fps)
  {
    if !available then Err(HardwareUnavailable)
    else Ok(H264(config.width, config.height, config.bitrate, config.fps))
  }

  /** `create_encoder`, for a build with or without the `hwcodec` feature.
      Every request other than a hardware H.264 one on a hwcodec build with
      an available encoder falls back to JPEG with the requested quality and
      size, so the factory never fails. */
  function CreateEncoder(config: EncoderConfig, hwcodec: bool, available: bool): (r: Result<Encoder>)
    ensures r.Ok?
    ensures r.value.H264? <==> hwcodec && config.encoderType == HardwareH264 && available
    ensures r.value.Jpeg? ==>
      r.value.quality == config.quality && r.value.width == config.width && r.value.height == config.height
    ensures r.value.H264? ==> r.value == H264New(config, available).value
    ensures Kind(r.value) == Software <==> !(hwcodec && config.encoderType == HardwareH264 && available)
  {
    match config.encoderType
    case Software => Ok(JpegNew(config))
    case HardwareH264 =>
      if hwcodec then
        match H264New(config, available)
        case Ok(e) => Ok(e)
        case Err(_) => Ok(JpegNew(config.(encoderType := Software)))
      else Ok(JpegNew(config.(encoderType := Software)))
    case HardwareH265 => Ok(JpegNew(config.(encoderType := Software)))
  }

  /** With the availability probe as written, every configuration gets the
      JPEG encoder with its own quality and size. */
  lemma AlwaysJpeg(config: EncoderConfig, hwcodec: bool)
    ensures CreateEncoder(config, hwcodec, HardwareAvailable) == Ok(Jpeg(config.quality, config.width, config.height))
  {
  }

  /** `encode`: the JPEG encoder drops every fourth byte of the whole pixels
      and asks the image library for an RGB buffer of the configured size;
      the hardware encoder always fails. */
  function Encode(e: Encoder, rgba: seq<byte>): (r: Result<JpegFrame>)
    ensures e.H264? ==> r == Err(H264NotImplemented)
    ensures e.Jpeg? ==> (r.Ok? <==> FromRawFits(3 * (|rgba| / 4), 3, e.width, e.height))
    ensures e.Jpeg? && r.Err? ==> r.error == ImageBufferFailed
    ensures r.Ok? ==> r.value.samples == StripAlpha(rgba) && |r.value.samples| == 3 * (|rgba| / 4)
    ensures r.Ok? ==> r.value.width == AsU32(e.width) && r.value.height == AsU32(e.height)
    ensures r.Ok? ==> r.value.quality == e.quality
  {
    match e
    case H264(_, _, _, _) => Err(H264NotImplemented)
    case Jpeg(quality, width, height) =>
      var rgb := StripAlpha(rgba);
      if !FromRawFits(|rgb|, 3, width, height) then Err(ImageBufferFailed)
      else Ok(JpegFrame(rgb, AsU32(width), AsU32(height), quality))
  }

  /** A full `4 * width * height` RGBA frame is always accepted by the JPEG
      encoder, and yields `3 * width * height` samples. */
  lemma EncodeFullFrame(q: byte, w: nat, h: nat, rgba: seq<byte>)
    requires |rgba| == 4 * w * h
    ensures Encode(Jpeg(q, w, h), rgba).Ok?
    ensures |Encode(Jpeg(q, w, h), rgba).value.samples| == 3 * w * h
  {
    assert 4 * w * h == 4 * (w * h);
    assert 3 * w * h == 3 * (w * h);
    FromRawFitsExact(3, w, h);
  }

  /** Sample `c` of pixel `i` of an encoded frame is byte `c` of RGBA pixel `i`. */
  lemma EncodePixel(e: Encoder, rgba: seq<byte>, i: nat, c: nat)
    requires Encode(e, rgba).Ok? && c < 3 && 4 * i + 3 < |rgba|
    ensures 3 * i + c < |Encode(e, rgba).value.samples|
    ensures Encode(e, rgba).value.samples[3 * i + c] == rgba[4 * i + c]
  {
    StripAlphaPixel(rgba, i, c);
  }

  /** The JPEG encoder and the capture path's `encode_rgba_to_jpeg` accept
      the same frames and produce the same samples. */
  lemma EncodeAgreesWithCapture(q: byte, w: nat, h: nat, rgba: seq<byte>)
    ensures Encode(Jpeg(q, w, h), rgba).Ok? <==> Capture.EncodeRgbaToJpeg(rgba, w, h).Ok?
    ensures Encode(Jpeg(q, w, h), rgba).Ok? ==>
      Encode(Jpeg(q, w, h), rgba).value.samples == Capture.EncodeRgbaToJpeg(rgba, w, h).value.samples
  {
  }

  /** `set_bitrate`: ignored by JPEG, stored by the hardware encoder; both
      return Ok. */
  function SetBitrate(e: Encoder, bitrate: u32): (r: Encoder)
    ensures Kind(r) == Kind(e)
    ensures e.Jpeg? ==> r == e
    ensures r.H264? ==> r.bitrate == bitrate && r.width == e.width && r.height == e.height && r.fps == e.fps
  {
    match e
    case Jpeg(_, _, _) => e
    case H264(width, height, _, fps) => H264(width, height, bitrate, fps)
  }

  /** `set_fps`: ignored by JPEG, stored by the hardware encoder; both
      return Ok. */
  function SetFps(e: Encoder, fps: u32): (r: Encoder)
    ensures Kind(r) == Kind(e)
    ensures e.Jpeg? ==> r == e
    ensures r.H264? ==> r.fps == fps && r.width == e.width && r.height == e.height && r.bitrate == e.bitrate
  {
    match e
    case Jpeg(_, _, _) => e
    case H264(width, height, bitrate, _) => H264(width, height, bitrate, fps)
  }

  /** Only the last setting counts, and the two setters are independent. */
  lemma SettersCommute(e: Encoder, b1: u32, b2: u32, f: u32)
    ensures SetBitrate(SetBitrate(e, b1), b2) == SetBitrate(e, b2)
    ensures SetFps(SetBitrate(e, b1), f) == SetBitrate(SetFps(e, f), b1)
  {
  }

  /** Setting the values an encoder already has changes nothing. */
  lemma SettersIdempotent(e: Encoder)
    requires e.H264?
    ensures SetBitrate(e, e.bitrate) == e && SetFps(e, e.fps) == e
  {
  }

  /** `auto_detect_encoder`, for a build with or without `hwcodec`; the
      floating-point `calculate_bitrate` is the parameter `hwBitrate`. */
  function AutoDetect(w: nat, h: nat, fps: u32, hwcodec: bool, available: bool, hwBitrate: u32): (c: EncoderConfig)
    ensures c.width == w && c.height == h && c.fps == fps
    ensures c.encoderType == HardwareH264 <==> hwcodec && available
    ensures c.encoderType != HardwareH265
    ensures c.encoderType == Software ==> c.bitrate == 0 && c.quality == SoftwareQuality
    ensures c.encoderType == HardwareH264 ==> c.bitrate == hwBitrate && c.quality == HardwareQuality
  {
    if hwcodec && available then EncoderConfig(w, h, fps, hwBitrate, HardwareH264, HardwareQuality)
    else EncoderConfig(w, h, fps, 0, Software, SoftwareQuality)
  }

  /** Feeding the detected configuration to the factory (with the same
      build and probe) yields the hardware encoder exactly when it was
      detected, and otherwise JPEG at quality 70 with the requested size. */
  lemma DetectThenCreate(w: nat, h: nat, fps: u32, hwcodec: bool, available: bool, hwBitrate: u32)
    ensures var e := CreateEncoder(AutoDetect(w, h, fps, hwcodec, available, hwBitrate), hwcodec, available).value;
      e == if hwcodec && available then H264(w, h, hwBitrate, fps) else Jpeg(SoftwareQuality, w, h)
  {
  }
}
