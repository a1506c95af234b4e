/**
  CaptureFrame from the point where a source reader exists: the media-type
  scan, the frame-size query, the ReadSample loop, the conversion of the
  captured sample to BGRA and the call to SaveBitmapToWebP under a name made
  from the local time.
*/
module Capture {
  import opened Common
  import Yuy2Convert
  import opened WebPSave
  import opened Negotiation
  import opened SampleRead
  import opened CaptureName

  /** What GetCurrentMediaType and MFGetAttributeSize report: the frame size, or the HRESULT of a failure. */
  datatype CurrentType = FrameSize(width: nat, height: nat) | CurrentTypeFailed(hr: HResult)

  /**
    The status CaptureFrame returns, None while it has not returned because
    the read loop is still retrying, and the SaveBitmapToWebP call it made, if any.
  */
  datatype CaptureOutcome = CaptureOutcome(status: Option<int>, saved: Option<SaveOutcome>)

  /**
    What the program silently assumes of a sample: a YUY2 frame has an even
    pixel count and at least 2*width*height bytes; an RGB32 frame has at
    least 4*width*height bytes.
  */
  predicate SampleFits(subtype: Subtype, bytes: seq<Byte>, width: nat, height: nat)
  {
    if subtype.Yuy2? then (width * height) % 2 == 0 && |bytes| >= 2 * (width * height)
    else |bytes| >= width * height * 4
  }

  /** The BGRA frame built from a sample: converted from YUY2, or the first width*height*4 bytes of RGB32. */
  function SampleToBgra(subtype: Subtype, bytes: seq<Byte>, width: nat, height: nat): (bgra: seq<Byte>)
    requires Supported(subtype) && SampleFits(subtype, bytes, width, height)
    ensures |bgra| == width * height * 4
    ensures subtype.Yuy2? ==> Yuy2Convert.AgreesWithPixels(bytes, bgra)
    ensures subtype.Rgb32? ==> bgra == bytes[..width * height * 4]
  {
    if subtype.Yuy2? then Yuy2Convert.Yuy2ToRgb32(bytes, width, height)
    else bytes[..width * height * 4]
  }

  /** The assumption of SampleFits, for the one sample the loop would capture. */
  predicate CapturedSampleFits(native: seq<Option<NativeType>>, current: CurrentType, outcomes: seq<ReadOutcome>)
  {
    var n := Negotiate(native);
    var r := ReadLoop(outcomes);
    (n.Selected? && Supported(n.subtype) && current.FrameSize? && r.Captured?) ==>
      SampleFits(n.subtype, r.bytes, current.width, current.height)
  }

  /**
    CaptureFrame after the source reader is created. `native` lists what
    GetNativeMediaType yields, `current` what the frame-size query reports,
    `outcomes` what successive ReadSample calls meet, `clock` the local time
    read when a sample arrives, `tempDir` the Temp directory, and `encode` and
    `fileOpens` what SaveBitmapToWebP meets.
  */
  function CaptureFrame(native: seq<Option<NativeType>>, current: CurrentType, outcomes: seq<ReadOutcome>,
                        clock: SystemTime, tempDir: string,
                        encode: EncodeRequest -> seq<Byte>, fileOpens: bool): (c: CaptureOutcome)
    requires CapturedSampleFits(native, current, outcomes)
    ensures Negotiate(native).Unsupported? ==> c == CaptureOutcome(Some(ErrorUnsupportedType), None)
    ensures Negotiate(native).Selected? && current.CurrentTypeFailed? ==> c == CaptureOutcome(Some(AsDword(current.hr)), None)
    ensures Negotiate(native).Selected? && current.FrameSize? && !ReadLoop(outcomes).StillRetrying? ==> c.status == Some(StatusOk)
    ensures c.status.None? <==> Negotiate(native).Selected? && current.FrameSize? && ReadLoop(outcomes).StillRetrying?
    ensures c.status.None? ==> c.saved.None?
    ensures c.saved.Some? <==> Negotiate(native).Selected? && current.FrameSize? && ReadLoop(outcomes).Captured?
    ensures c.saved.Some? ==> |c.saved.value.request.rgba| == current.width * current.height * 4
    ensures c.saved.Some? && c.saved.value.file.Some? ==> c.saved.value.file.value.path == CapturePath(tempDir, clock)
  {
    match Negotiate(native)
    case Unsupported => CaptureOutcome(Some(ErrorUnsupportedType), None)
    case Selected(_, subtype) =>
      match current
      case CurrentTypeFailed(hr) => CaptureOutcome(Some(AsDword(hr)), None)
      case FrameSize(width, height) =>
        match ReadLoop(outcomes)
        case Captured(_, bytes) =>
          var bgra := SampleToBgra(subtype, bytes, width, height);
          CaptureOutcome(Some(StatusOk), Some(SaveBitmapToWebP(bgra, width, height, CapturePath(tempDir, clock), encode, fileOpens)))
        case Aborted(_, _) => CaptureOutcome(Some(StatusOk), None)
        case StillRetrying => CaptureOutcome(None, None)
  }

  /** A captured sample of a negotiated type, with a known frame size, goes to SaveBitmapToWebP as its BGRA frame. */
  lemma CapturedFrameIsSaved(native: seq<Option<NativeType>>, current: CurrentType, outcomes: seq<ReadOutcome>,
                             clock: SystemTime, tempDir: string,
                             encode: EncodeRequest -> seq<Byte>, fileOpens: bool)
    requires CapturedSampleFits(native, current, outcomes)
    requires Negotiate(native).Selected? && current.FrameSize? && ReadLoop(outcomes).Captured?
    ensures var n := Negotiate(native);
      var bytes := ReadLoop(outcomes).bytes;
      var c := CaptureFrame(native, current, outcomes, clock, tempDir, encode, fileOpens);
      && SampleFits(n.subtype, bytes, current.width, current.height)
      && c.saved == Some(SaveBitmapToWebP(SampleToBgra(n.subtype, bytes, current.width, current.height),
                                          current.width, current.height, CapturePath(tempDir, clock), encode, fileOpens))
  {
  }

  /** Swapping a converted frame turns pixel k into R, G, B, 255. */
  lemma SwappedConvertedPixel(bytes: seq<Byte>, bgra: seq<Byte>, rgba: seq<Byte>, k: nat)
    requires Yuy2Convert.AgreesWithPixels(bytes, bgra) && SwappedPrefix(bgra, rgba)
    requires 4 * k + 4 <= |rgba|
    ensures 4 * (k / 2) + 3 < |bytes|
    ensures var y, u, v := bytes[2 * k], bytes[4 * (k / 2) + 1], bytes[4 * (k / 2) + 3];
      && rgba[4 * k + 0] == Yuy2Convert.Red(y, v)
      && rgba[4 * k + 1] == Yuy2Convert.Green(y, u, v)
      && rgba[4 * k + 2] == Yuy2Convert.Blue(y, u)
      && rgba[4 * k + 3] == 255
  {
    SwappedPixel(bgra, rgba, k);
    Yuy2Convert.ConvertedPixel(bytes, bgra, k);
  }

  /**
    End to end for a YUY2 camera: pixel k of the buffer handed to the encoder
    is R, G, B, 255 computed from luma byte 2k and the U and V bytes of its pair.
  */
  lemma Yuy2CaptureEncodesRgba(native: seq<Option<NativeType>>, current: CurrentType, outcomes: seq<ReadOutcome>,
                               clock: SystemTime, tempDir: string,
                               encode: EncodeRequest -> seq<Byte>, fileOpens: bool, k: nat)
    requires CapturedSampleFits(native, current, outcomes)
    requires Negotiate(native).Selected? && Negotiate(native).subtype == Yuy2
    requires current.FrameSize? && ReadLoop(outcomes).Captured?
    requires k < current.width * current.height
    ensures var bytes := ReadLoop(outcomes).bytes;
      var c := CaptureFrame(native, current, outcomes, clock, tempDir, encode, fileOpens);
      && 4 * (k / 2) + 3 < |bytes|
      && c.saved.Some? && 4 * k + 4 <= |c.saved.value.request.rgba|
      && var rgba := c.saved.value.request.rgba;
      var y, u, v := bytes[2 * k], bytes[4 * (k / 2) + 1], bytes[4 * (k / 2) + 3];
      && rgba[4 * k + 0] == Yuy2Convert.Red(y, v)
      && rgba[4 * k + 1] == Yuy2Convert.Green(y, u, v)
      && rgba[4 * k + 2] == Yuy2Convert.Blue(y, u)
      && rgba[4 * k + 3] == 255
  {
    var bytes := ReadLoop(outcomes).bytes;
    var w, h := current.width, current.height;
    CapturedFrameIsSaved(native, current, outcomes, clock, tempDir, encode, fileOpens);
    var bgra := SampleToBgra(Yuy2, bytes, w, h);
    var s := SaveBitmapToWebP(bgra, w, h, CapturePath(tempDir, clock), encode, fileOpens);
    assert 4 * k + 4 <= w * h * 4;
    SwappedConvertedPixel(bytes, bgra, s.request.rgba, k);
  }

  /**
    End to end for an RGB32 camera: pixel k of the buffer handed to the
    encoder is the sample's pixel k with its first and third bytes exchanged.
  */
  lemma Rgb32CaptureEncodesRgba(native: seq<Option<NativeType>>, current: CurrentType, outcomes: seq<ReadOutcome>,
                                clock: SystemTime, tempDir: string,
                                encode: EncodeRequest -> seq<Byte>, fileOpens: bool, k: nat)
    requires CapturedSampleFits(native, current, outcomes)
    requires Negotiate(native).Selected? && Negotiate(native).subtype == Rgb32
    requires current.FrameSize? && ReadLoop(outcomes).Captured?
    requires k < current.width * current.height
    ensures var bytes := ReadLoop(outcomes).bytes;
      var c := CaptureFrame(native, current, outcomes, clock, tempDir, encode, fileOpens);
      && 4 * k + 4 <= |bytes|
      && c.saved.Some? && 4 * k + 4 <= |c.saved.value.request.rgba|
      && var rgba := c.saved.value.request.rgba;
      && rgba[4 * k + 0] == bytes[4 * k + 2]
      && rgba[4 * k + 1] == bytes[4 * k + 1]
      && rgba[4 * k + 2] == bytes[4 * k + 0]
      && rgba[4 * k + 3] == bytes[4 * k + 3]
  {
    var bytes := ReadLoop(outcomes).bytes;
    var w, h := current.width, current.height;
    CapturedFrameIsSaved(native, current, outcomes, clock, tempDir, encode, fileOpens);
    var bgra := SampleToBgra(Rgb32, bytes, w, h);
    var s := SaveBitmapToWebP(bgra, w, h, CapturePath(tempDir, clock), encode, fileOpens);
    assert 4 * k + 4 <= w * h * 4;
    SwappedPixel(bgra, s.request.rgba, k);
  }
}
