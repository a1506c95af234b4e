/**
  SaveBitmapToWebP: the BGRA frame is rewritten as RGBA, handed to the WebP
  encoder at quality 80 with a stride of 4*width bytes, and the encoded bytes
  are written to the capture file unless the encoder produced nothing or the
  file could not be opened.
*/
module WebPSave {
  import opened Common

  /** The encoder quality SaveBitmapToWebP passes to WebPEncodeRGBA. */
  const WebPQuality: real := 80.0

  /**
    Byte j of the RGBA buffer is copied from this byte of the BGRA buffer:
    lanes 0 (blue / red) and 2 (red / blue) of each pixel trade places, lanes 1
    (green) and 3 (alpha) stay where they are.
  */
  function SourceLane(j: nat): nat
  {
    if j % 4 == 0 then j + 2 else if j % 4 == 2 then j - 2 else j
  }

  /** Lane c of the pixel at byte offset p (a multiple of 4) is read from lane [2, 1, 0, 3][c]. */
  lemma LaneOfPixel(p: nat, c: nat)
    requires p % 4 == 0 && c < 4
    ensures SourceLane(p + c) == p + [2, 1, 0, 3][c]
  {
    assert (p + c) % 4 == c;
  }

  /** `rgba` is the channel-swapped image of the first |rgba| bytes of `bgra`. */
  ghost predicate SwappedPrefix(bgra: seq<Byte>, rgba: seq<Byte>)
  {
    forall j :: 0 <= j < |rgba| ==> SourceLane(j) < |bgra| && rgba[j] == bgra[SourceLane(j)]
  }

  /** Swapping one more pixel, the one at byte offset p = |done|, extends a swapped prefix. */
  lemma AppendSwappedPixel(bgra: seq<Byte>, done: seq<Byte>)
    requires |done| % 4 == 0 && |done| + 4 <= |bgra|
    requires SwappedPrefix(bgra, done)
    ensures var p := |done|;
      SwappedPrefix(bgra, done + [bgra[p + 2], bgra[p + 1], bgra[p + 0], bgra[p + 3]])
  {
    var p := |done|;
    var out := done + [bgra[p + 2], bgra[p + 1], bgra[p + 0], bgra[p + 3]];
    forall j | 0 <= j < |out|
      ensures SourceLane(j) < |bgra| && out[j] == bgra[SourceLane(j)]
    {
      if j >= p {
        LaneOfPixel(p, j - p);
      } else {
        assert out[j] == done[j];
      }
    }
  }

  /** Pixel k of `rgba` is pixel k of `bgra` with its first and third bytes exchanged. */
  predicate RedBlueSwapped(bgra: seq<Byte>, rgba: seq<Byte>, k: nat)
  {
    && 4 * k + 4 <= |bgra| && 4 * k + 4 <= |rgba|
    && rgba[4 * k + 0] == bgra[4 * k + 2] && rgba[4 * k + 1] == bgra[4 * k + 1]
    && rgba[4 * k + 2] == bgra[4 * k + 0] && rgba[4 * k + 3] == bgra[4 * k + 3]
  }

  /** Every whole pixel of `rgba` is the red/blue exchange of the same pixel of `bgra`. */
  ghost predicate PixelsSwapped(bgra: seq<Byte>, rgba: seq<Byte>)
  {
    forall k: nat :: k < |rgba| / 4 ==> RedBlueSwapped(bgra, rgba, k)
  }

  /**
    The BGRA to RGBA rewrite of SaveBitmapToWebP over a whole buffer of pixels:
    every output byte is read from its source lane in the same pixel.
  */
  function BgraToRgba(bgra: seq<Byte>): (rgba: seq<Byte>)
    requires |bgra| % 4 == 0
    ensures |rgba| == |bgra|
    ensures PixelsSwapped(bgra, rgba)
  {
    var rgba := seq(|bgra|, j requires 0 <= j < |bgra| => bgra[SourceLane(j)]);
    PrefixPixelsSwapped(bgra, rgba);
    rgba
  }

  /**
    Pixel k of the RGBA buffer holds R, G, B, A: red and blue are exchanged,
    green and alpha are copied unchanged.
  */
  lemma BgraToRgbaChannels(bgra: seq<Byte>, k: nat)
    requires |bgra| % 4 == 0 && 4 * k + 4 <= |bgra|
    ensures var rgba := BgraToRgba(bgra);
      && rgba[4 * k + 0] == bgra[4 * k + 2]
      && rgba[4 * k + 1] == bgra[4 * k + 1]
      && rgba[4 * k + 2] == bgra[4 * k + 0]
      && rgba[4 * k + 3] == bgra[4 * k + 3]
  {
    var p := 4 * k;
    assert (p + 0) % 4 == 0 && (p + 1) % 4 == 1 && (p + 2) % 4 == 2 && (p + 3) % 4 == 3;
  }

  /** Pixel k of a swapped prefix holds lanes 2, 1, 0, 3 of pixel k of the input buffer. */
  lemma SwappedPixel(bgra: seq<Byte>, rgba: seq<Byte>, k: nat)
    requires SwappedPrefix(bgra, rgba) && 4 * k + 4 <= |rgba|
    ensures 4 * k + 4 <= |bgra|
    ensures rgba[4 * k + 0] == bgra[4 * k + 2] && rgba[4 * k + 1] == bgra[4 * k + 1]
    ensures rgba[4 * k + 2] == bgra[4 * k + 0] && rgba[4 * k + 3] == bgra[4 * k + 3]
  {
    var p := 4 * k;
    LaneOfPixel(p, 0);
    LaneOfPixel(p, 1);
    LaneOfPixel(p, 2);
    LaneOfPixel(p, 3);
    assert rgba[p + 0] == bgra[SourceLane(p + 0)];
    assert rgba[p + 1] == bgra[SourceLane(p + 1)];
    assert rgba[p + 2] == bgra[SourceLane(p + 2)];
    assert rgba[p + 3] == bgra[SourceLane(p + 3)];
  }

  /** Every whole pixel of a swapped prefix has its red and blue exchanged. */
  lemma PrefixPixelsSwapped(bgra: seq<Byte>, rgba: seq<Byte>)
    requires SwappedPrefix(bgra, rgba)
    ensures PixelsSwapped(bgra, rgba)
  {
    forall k: nat | k < |rgba| / 4
      ensures RedBlueSwapped(bgra, rgba, k)
    {
      SwappedPixel(bgra, rgba, k);
    }
  }

  /** Exchanging red and blue twice gives back the original buffer. */
  lemma BgraToRgbaInvolutive(bgra: seq<Byte>)
    requires |bgra| % 4 == 0
    ensures BgraToRgba(BgraToRgba(bgra)) == bgra
  {
    var once := BgraToRgba(bgra);
    var twice := BgraToRgba(once);
    forall j | 0 <= j < |bgra|
      ensures twice[j] == bgra[j]
    {
      var p := j - j % 4;
      LaneOfPixel(p, j % 4);
      LaneOfPixel(p, SourceLane(j) - p);
    }
  }

  /** Row y of a frame `width` pixels wide spans bytes y*width*4 .. (y+1)*width*4 and lies inside the frame. */
  lemma RowBounds(y: nat, width: nat, height: nat)
    requires y < height
    ensures y * width * 4 + width * 4 == (y + 1) * width * 4
    ensures (y + 1) * width * 4 <= width * height * 4
    ensures (y * width * 4) % 4 == 0
  {
    assert (y + 1) * width <= height * width;
  }

  /** A complete swapped image of the first `size` bytes is the functional rewrite of them. */
  lemma SwappedFrame(pData: seq<Byte>, size: nat, rgba: seq<Byte>)
    requires size % 4 == 0 && size <= |pData| && |rgba| == size
    requires SwappedPrefix(pData, rgba)
    ensures rgba == BgraToRgba(pData[..size])
  {
  }

  /** Swaps the one pixel at byte offset p, as one pass of the program's inner loop body. */
  method SwapPixel(pData: seq<Byte>, out: array<Byte>, p: nat)
    modifies out
    requires p % 4 == 0 && p + 4 <= out.Length <= |pData|
    requires SwappedPrefix(pData, out[..p])
    ensures SwappedPrefix(pData, out[..p + 4])
  {
    var b := pData[p + 0];
    var g := pData[p + 1];
    var r := pData[p + 2];
    var a := pData[p + 3];
    ghost var before := out[..p];
    out[p + 0] := r;
    out[p + 1] := g;
    out[p + 2] := b;
    out[p + 3] := a;
    assert out[..p + 4] == before + [r, g, b, a];
    AppendSwappedPixel(pData, before);
  }

  /**
    The inner loop of SaveBitmapToWebP: the `width` pixels of the row that
    starts at byte rowStart are swapped into `out`, after the rows before it.
  */
  method SwapRow(pData: seq<Byte>, out: array<Byte>, rowStart: nat, width: nat)
    modifies out
    requires rowStart % 4 == 0 && rowStart + width * 4 <= out.Length <= |pData|
    requires SwappedPrefix(pData, out[..rowStart])
    ensures SwappedPrefix(pData, out[..rowStart + width * 4])
  {
    var x := 0;
    while x < width
      invariant 0 <= x <= width
      invariant SwappedPrefix(pData, out[..rowStart + x * 4])
    {
      SwapPixel(pData, out, rowStart + x * 4);
      x := x + 1;
    }
  }

  /**
    The nested row / column loop of SaveBitmapToWebP over a fresh buffer of
    width*height*4 bytes. Row y starts at byte y*width*4 of both buffers; the
    loop computes the same RGBA buffer as the functional rewrite.
  */
  method BgraToRgbaRows(pData: seq<Byte>, width: nat, height: nat) returns (rgba: seq<Byte>)
    requires |pData| >= width * height * 4
    ensures rgba == BgraToRgba(pData[..width * height * 4])
  {
    var size := width * height * 4;
    var out := new Byte[size];
    var y := 0;
    var rowStart := 0;
    while y < height
      invariant 0 <= y <= height
      invariant rowStart == y * width * 4
      invariant SwappedPrefix(pData, out[..rowStart])
    {
      RowBounds(y, width, height);
      SwapRow(pData, out, rowStart, width);
      y := y + 1;
      rowStart := rowStart + width * 4;
    }
    assert height * width * 4 == size;
    rgba := out[..];
    SwappedFrame(pData, size, rgba);
  }

  /** The arguments SaveBitmapToWebP passes to WebPEncodeRGBA. */
  datatype EncodeRequest = EncodeRequest(rgba: seq<Byte>, width: nat, height: nat, stride: nat, quality: real)

  /** A file the capture program wrote: its path and its bytes. */
  datatype WrittenFile = WrittenFile(path: string, contents: seq<Byte>)

  /** What one SaveBitmapToWebP call does: the request it encodes and the file it writes, if any. */
  datatype SaveOutcome = SaveOutcome(request: EncodeRequest, file: Option<WrittenFile>)

  /**
    SaveBitmapToWebP. The encoder is a parameter: `encode` stands for
    WebPEncodeRGBA, its result's length for the returned size, and `fileOpens`
    for whether the output stream could be opened. An empty encoding or a
    file that will not open ends the call without writing anything.
  */
  function SaveBitmapToWebP(pData: seq<Byte>, width: nat, height: nat, filePath: string,
                            encode: EncodeRequest -> seq<Byte>, fileOpens: bool): (s: SaveOutcome)
    requires |pData| >= width * height * 4
    ensures |s.request.rgba| == width * height * 4
    ensures SwappedPrefix(pData, s.request.rgba)
    ensures s.request.width == width && s.request.height == height
    ensures s.request.stride == width * 4 && s.request.quality == WebPQuality
    ensures s.file.Some? <==> |encode(s.request)| > 0 && fileOpens
    ensures s.file.Some? ==> s.file.value == WrittenFile(filePath, encode(s.request))
  {
    var rgba := BgraToRgba(pData[..width * height * 4]);
    var request := EncodeRequest(rgba, width, height, width * 4, WebPQuality);
    var webp := encode(request);
    if |webp| == 0 then SaveOutcome(request, None)
    else if !fileOpens then SaveOutcome(request, None)
    else SaveOutcome(request, Some(WrittenFile(filePath, webp)))
  }
}
