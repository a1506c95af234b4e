# snap.cpp capture core in Dafny

This project models the part of the camera snapshot tool that turns one camera
frame into one WebP file:

- the media-type scan that picks the first native type that is RGB32 or YUY2
  and that the source reader accepts;
- the `ReadSample` retry loop;
- the YUY2 to BGRA conversion (`YUY2ToRGB32`);
- the BGRA to RGBA channel swap that `SaveBitmapToWebP` does before it encodes;
- the `capture_YYYYMMDD_HHMMSS.webp` file name built from the local time;
- `CaptureFrame`, which ties these together and decides the status it returns.

Everything is a pure function over immutable values. The only exceptions are
the loop forms of the conversion and the swap, which are methods over arrays.
Each of those methods is proved equal to its functional counterpart.

Files, one module each:

| file | module | contents |
|---|---|---|
| common.dfy | `Common` | `Byte`, `Option`, HRESULT and its DWORD reading, the status codes |
| yuy2.dfy | `Yuy2Convert` | the BT.601 integer conversion, the per-pixel reference, the functional and loop forms of `YUY2ToRGB32` |
| webp_save.dfy | `WebPSave` | the channel swap (functional and nested-loop forms) and `SaveBitmapToWebP` with the encoder as a parameter |
| negotiation.dfy | `Negotiation` | the `GetNativeMediaType` / `SetCurrentMediaType` scan |
| sample_read.dfy | `SampleRead` | the `ReadSample` loop over a sequence of per-call outcomes |
| capture_name.dfy | `CaptureName` | `%04d%02d%02d_%02d%02d%02d` formatting, a parser, the round trip |
| capture_frame.dfy | `Capture` | `CaptureFrame` from the source reader onwards, with end-to-end pixel lemmas |

How the program's surroundings appear in the model:

- COM and Media Foundation calls become data:
  - a sequence of `Option<NativeType>` is what `GetNativeMediaType` yields at each index;
  - a `CurrentType` is what the frame-size query reports;
  - a sequence of `ReadOutcome` is what each pass of the read loop meets.
- `WebPEncodeRGBA` is a function parameter `encode`. Its result is written to the file as it is, and its length decides the `webpSize == 0` early return.
- Whether the output file opens is a boolean parameter.
- The local time is a `SystemTime` parameter.
- The Temp directory path is a string parameter.
- `>> 8` on a possibly negative `int` is the arithmetic shift of the target compiler. `Yuy2Convert.Shr8` defines it by steps of 256 and `Yuy2Convert.Shr8IsFloor` proves it is floor division by 256.
- The 0..255 range of every colour channel holds by type: `Clamp` returns a `Byte`.

## Model

| member | source | states |
|---|---|---|
| Common.AsDword | snap.cpp:219-225 | an HRESULT returned from a DWORD function reads as itself when non-negative and as itself plus 2^32 when negative, always below 2^32 |
| Yuy2Convert.Shr8IsFloor | snap.cpp:121-127 | the `>> 8` applied to each channel sum rounds toward minus infinity: it equals floor division by 256, negative sums included |
| Yuy2Convert.Yuy2ToRgb32 | snap.cpp:103-139 | a frame of w*h pixels (w*h even, at least 2wh input bytes) becomes exactly 4wh bytes; byte j is lane j%4 of reference pixel j/4, computed from luma byte 2(j/4) and the U and V bytes of its pair |
| Yuy2Convert.OpaqueAlpha | snap.cpp:132-137 | in any output that agrees with the reference pixels, every fourth byte (the alpha lane) is 255 |
| Yuy2Convert.ConvertGroups | snap.cpp:104-138 | converting a whole number of 4-byte YUY2 groups yields twice as many bytes, each equal to its lane of the reference pixel |
| Yuy2Convert.ConvertPixelsLoop | snap.cpp:104-138 | the program's `i += 2` loop writing pixels i and i+1 into a fresh 4n-byte array leaves every byte equal to its lane of the reference pixel |
| Yuy2Convert.Yuy2ToRgb32Loop | snap.cpp:103-139 | the loop form computes the same buffer as the functional conversion, for every admissible input |
| Yuy2Convert.ConvertedPixel | snap.cpp:116-137 | in any converted frame, pixel k is (B, G, R, 255) with the BT.601 integer formulas applied to Y = byte 2k and to the U and V of its pair |
| Yuy2Convert.NeutralChromaIsGray | snap.cpp:116-127 | with U = V = 128 the three channels are equal; luma at or below 16 gives black and luma at or above 235 gives white |
| Yuy2Convert.EqualLumaEqualLanes | snap.cpp:116-137 | in any output that agrees with the reference pixels, the two pixels of a group whose two luma bytes are equal have the same lanes |
| Yuy2Convert.EqualLumaEqualPixels | snap.cpp:116-137 | equal Y0 and Y1 in a group give two identical output pixels in the converted frame |
| WebPSave.BgraToRgba | snap.cpp:63-78 | the RGBA buffer has the length of the BGRA buffer, and each of its pixels is the same pixel of the input with its first and third bytes (blue and red) exchanged |
| WebPSave.BgraToRgbaChannels | snap.cpp:68-76 | RGBA pixel k holds input bytes 4k+2, 4k+1, 4k, 4k+3: red and blue exchanged, green and alpha kept |
| WebPSave.SwappedPixel | snap.cpp:68-76 | any buffer that is a swapped prefix of the input holds, at pixel k, the input's lanes 2, 1, 0, 3 of pixel k |
| WebPSave.BgraToRgbaInvolutive | snap.cpp:69-76 | swapping red and blue twice gives back the original buffer |
| WebPSave.SwapPixel | snap.cpp:69-76 | one pass of the inner loop body, writing the four bytes at a pixel offset, extends the swapped prefix by exactly that pixel |
| WebPSave.SwapRow | snap.cpp:68-77 | one pass of the inner loop over a row extends the swapped prefix by exactly that row's width*4 bytes |
| WebPSave.BgraToRgbaRows | snap.cpp:63-78 | the nested row and column loop over a fresh width*height*4 buffer computes the channel swap of the first width*height*4 input bytes |
| WebPSave.SaveBitmapToWebP | snap.cpp:61-97 | the encoder receives the swapped RGBA image with the frame's width and height, stride width*4 and quality 80; a file is written iff the encoding is non-empty and the file opens, and it then holds exactly the encoded bytes at the given path |
| Negotiation.ScanFrom | snap.cpp:190-208 | scanning from index i selects an index at or after i that is reached and acceptable, with no acceptable index before it; no selection means no reached index is acceptable |
| Negotiation.Negotiate | snap.cpp:187-215 | the selected type is the lowest-indexed acceptable one (readable RGB32 or YUY2 subtype, accepted by SetCurrentMediaType) before the first enumeration failure; Unsupported holds exactly when no reached type is acceptable |
| Negotiation.ScanStopsAtFailure | snap.cpp:190-193 | whatever follows the first failed GetNativeMediaType call cannot change the outcome |
| SampleRead.ReadFrom | snap.cpp:230-287 | from call i on, the loop ends at the first non-empty outcome: Captured with its bytes or Aborted with its failing step, with only empty samples before it |
| SampleRead.ReadLoop | snap.cpp:229-287 | the loop captures or aborts at the first non-empty outcome, and keeps retrying exactly when every outcome so far was an empty sample |
| SampleRead.EmptySamplesAreRetried | snap.cpp:241-245 | any number of leading empty samples only delays the result by that many calls |
| SampleRead.LaterReadsIgnored | snap.cpp:229-287 | once the loop has captured or aborted, further read outcomes change nothing |
| CaptureName.ZeroPadded | snap.cpp:278-279 | `%0Nd` gives decimal digits whose value is the number; the text is exactly N digits (one digit when N is 0) when the number fits and never shorter than N; a number of 10^N or more is printed in full with no leading zero, so the text is determined for every input |
| CaptureName.FileName | snap.cpp:278-279 | the name starts with `capture_` and ends with `.webp`, and is 28 characters long when every field fits its width |
| CaptureName.CapturePath | snap.cpp:277-279 | the path is the Temp directory, one backslash and the file name |
| CaptureName.FileNameRoundTrip | snap.cpp:278-279 | parsing the name of an in-range time gives back year, month, day, hour, minute and second |
| CaptureName.SameNameIffSameSecond | snap.cpp:275-279 | two in-range times give the same name iff they agree on year, month, day, hour, minute and second; day of week and milliseconds play no part |
| Capture.SampleToBgra | snap.cpp:265-272 | a YUY2 sample is converted and agrees with the reference pixels; an RGB32 sample's first width*height*4 bytes are copied unchanged; either way the frame is width*height*4 bytes |
| Capture.CaptureFrame | snap.cpp:187-292 | no acceptable type gives ERROR_UNSUPPORTED_TYPE (1630) and no save; a failed frame-size query gives its HRESULT as a DWORD and no save; otherwise the status is S_OK once a sample with data is saved or a read step fails, and there is no status at all (the call has not returned) while every read so far gave no sample; a save happens iff a sample with data is read before any failure; the saved frame has width*height*4 bytes and is written under the capture path |
| Capture.Yuy2CaptureEncodesRgba | snap.cpp:265-281 | end to end for YUY2: pixel k handed to the encoder is (R, G, B, 255) computed from luma byte 2k and the U and V bytes of its pair |
| Capture.Rgb32CaptureEncodesRgba | snap.cpp:270-281 | end to end for RGB32: pixel k handed to the encoder is the sample's pixel k with its first and third bytes exchanged |

## Left out

- Device enumeration and activation (snap.cpp:142-185): COM and Media Foundation objects with no logic of their own. The model starts at an existing source reader. The `count == 0` exit returns whatever `hr` holds and is part of that setup.
- `CaptureFrameLoop`, `ServiceMain`, `ServiceCtrlHandler` and `wmain`: COM initialisation, the service lifecycle, and the timing of the loop. That covers the 10 s wait, the 2 s sleep and the escape-key check, none of which is in scope.
- There is no control endpoint and no runtime-adjustable capture interval: the program has neither.
- `LogToFile` and `EnsureTempDirectory` are file-system I/O. The Temp directory is a parameter.
- `WebPEncodeRGBA` and `WebPFree` are foreign code. The encoder is a function parameter and only the `webpSize == 0` exit is modelled.
- `Sleep(100)` between empty samples: timing. A retry is modelled as the next outcome in the sequence.
- Buffer `Unlock` and `Release`, `pSource->Stop` and the other reference counting: resource management with no effect on the result.
- `currentLen` from `Lock` is ignored by the program too. The model's `SampleFits` states what the program silently assumes about the buffer length.
- `MFGetAttributeSize`'s own result is ignored by the program: a failure leaves width and height at 0. The model expresses that case as `FrameSize(0, 0)`.
- A successful `GetCurrentMediaType` that returns a null type makes the program return that `hr`, i.e. S_OK. The model expresses that case as `CurrentTypeFailed(0)`.
- The `else` branch for a subtype that is neither YUY2 nor RGB32 (snap.cpp:265-272) cannot be reached after negotiation, so the model has no case for it.
- Yuy2Convert.Yuy2ToRgb32: requires an even pixel count and at least 2*width*height input bytes. The program checks neither. With an odd count it writes one pixel past the end of the output, and with a short buffer it reads past the input. Neither has a defined result to model.
- Yuy2Convert.Yuy2ToRgb32: the output size `width * height * 4` and the pixel count (snap.cpp:104, 129-137) are `UINT32` products in the program and wrap for frames of 2^30 pixels or more. The model uses unbounded naturals and does not model the wrap.
- Capture.SampleToBgra: an RGB32 sample must hold width*height*4 bytes, which the program copies without checking the locked length. A shorter buffer is an out-of-bounds read.
- Capture.SampleToBgra: the buffer size `width * height * 4` (snap.cpp:267, 271) is a `UINT32` product in the program and wraps for frames of 2^30 pixels or more. The model uses unbounded naturals and does not model the wrap.
- WebPSave.SaveBitmapToWebP: width and height are unbounded naturals. The program's `UINT32` products `width * height * 4` and `y * width * 4` wrap for frames of 2^30 pixels or more. Cameras do not produce such frames, and the wrap is not modelled.
- CaptureName.CapturePath: `swprintf_s` into a `MAX_PATH` buffer fails when the Temp path is longer than about 230 characters. That failure is not modelled, so the path is always the full concatenation.
- CaptureName.FileName: a field wider than its `%0Nd` width (a year of 10000 or more) prints in full. The model follows this, but the exact-length and round-trip statements cover only in-range times.

Three behaviours of the program that the model reproduces as they are:

- A failed read (`ReadSample`, `ConvertToContiguousBuffer` or `Lock`) ends the read loop without saving, but `CaptureFrame` still returns S_OK. No read error is reported to the caller.
- The read loop never looks at the `flags` that `ReadSample` reports (snap.cpp:231-245). A call that succeeds with no sample, as at end of stream, is followed by `Sleep(100)` and another call, with no limit on the number of retries. If the reader keeps returning no sample, `CaptureFrame` never returns. The model represents this as `SampleRead.ReadLoop` giving `StillRetrying` and `Capture.CaptureFrame` giving no status (`status == None`) and no save.
- Negotiation does not stop at the first RGB32 or YUY2 type. That type must also be accepted by `SetCurrentMediaType`; otherwise the scan moves on to the next index.
