/**
  The packed 4:2:2 to BGRA conversion (YUY2ToRGB32). Every 4-byte group
  (Y0, U, Y1, V) yields two 4-byte pixels in the order B, G, R, A. The channel
  values use the integer BT.601 coefficients, an arithmetic shift right by 8
  and a clamp to the byte range; alpha is always 255.
*/
module Yuy2Convert {
  import opened Common

  /** Saturates an intermediate channel value to the byte range. */
  function Clamp(v: int): Byte
  {
    if v < 0 then 0 else if v > 255 then 255 else v
  }

  /**
    `v >> 8` on a signed int, as the number of whole steps of 256 that v lies
    above the range 0..255 (negative below it). MSVC shifts negative values
    arithmetically, so the result is the floor of v / 256 (Shr8IsFloor).
  */
  function Shr8(v: int): int
    decreases if v < 0 then 256 - v else v
  {
    if v < 0 then Shr8(v + 256) - 1
    else if v < 256 then 0
    else Shr8(v - 256) + 1
  }

  /** The shift rounds toward minus infinity: it is floor division by 256. */
  lemma {:induction false} Shr8IsFloor(v: int)
    ensures Shr8(v) == v / 256
    decreases if v < 0 then 256 - v else v
  {
    if v < 0 {
      Shr8IsFloor(v + 256);
    } else if v >= 256 {
      Shr8IsFloor(v - 256);
    }
  }

  function Blue(y: Byte, u: Byte): Byte
  {
    Clamp(Shr8(298 * (y - 16) + 516 * (u - 128) + 128))
  }

  function Green(y: Byte, u: Byte, v: Byte): Byte
  {
    Clamp(Shr8(298 * (y - 16) - 100 * (u - 128) - 208 * (v - 128) + 128))
  }

  function Red(y: Byte, v: Byte): Byte
  {
    Clamp(Shr8(298 * (y - 16) + 409 * (v - 128) + 128))
  }

  /** One BGRA pixel from its own luma and the chroma its pair shares. */
  function PixelBytes(y: Byte, u: Byte, v: Byte): seq<Byte>
  {
    [Blue(y, u), Green(y, u, v), Red(y, v), 255]
  }

  /** The highest YUY2 byte index pixel k reads: the V byte of its pair. */
  function LastByteOfPair(k: nat): nat
  {
    4 * (k / 2) + 3
  }

  /**
    Reference definition, pixel by pixel: pixel k takes its luma from byte 2k
    and the chroma of the group it belongs to, bytes 4(k/2)+1 (U) and 4(k/2)+3 (V).
  */
  function PixelAt(yuy2: seq<Byte>, k: nat): seq<Byte>
    requires LastByteOfPair(k) < |yuy2|
  {
    PixelBytes(yuy2[2 * k], yuy2[4 * (k / 2) + 1], yuy2[4 * (k / 2) + 3])
  }

  /** The four lanes of pixel k, named by channel. */
  lemma PixelLanes(yuy2: seq<Byte>, k: nat)
    requires LastByteOfPair(k) < |yuy2|
    ensures var y, u, v := yuy2[2 * k], yuy2[4 * (k / 2) + 1], yuy2[4 * (k / 2) + 3];
      && PixelAt(yuy2, k)[0] == Blue(y, u)
      && PixelAt(yuy2, k)[1] == Green(y, u, v)
      && PixelAt(yuy2, k)[2] == Red(y, v)
      && PixelAt(yuy2, k)[3] == 255
  {
  }

  /**
    `out` holds the first |out| bytes of the BGRA image of `yuy2`: byte j is
    channel j % 4 of the reference pixel j / 4.
  */
  ghost predicate AgreesWithPixels(yuy2: seq<Byte>, out: seq<Byte>)
  {
    forall j :: 0 <= j < |out| ==> LastByteOfPair(j / 4) < |yuy2| && out[j] == PixelAt(yuy2, j / 4)[j % 4]
  }

  /** A pixel only reads bytes of its own group, so a longer buffer gives the same pixel. */
  lemma PixelAtPrefix(yuy2: seq<Byte>, m: nat, k: nat)
    requires LastByteOfPair(k) < m <= |yuy2|
    ensures PixelAt(yuy2[..m], k) == PixelAt(yuy2, k)
  {
  }

  /** What agrees with a prefix of the input agrees with the whole input. */
  lemma {:induction false} AgreesWithLonger(yuy2: seq<Byte>, m: nat, out: seq<Byte>)
    requires m <= |yuy2| && AgreesWithPixels(yuy2[..m], out)
    ensures AgreesWithPixels(yuy2, out)
  {
    forall j | 0 <= j < |out|
      ensures LastByteOfPair(j / 4) < |yuy2| && out[j] == PixelAt(yuy2, j / 4)[j % 4]
    {
      PixelAtPrefix(yuy2, m, j / 4);
    }
  }

  /** Pixels 2q and 2q+1 are the two pixels of group q, whose bytes are 4q..4q+3. */
  lemma PairPixels(yuy2: seq<Byte>, q: nat)
    requires 4 * q + 3 < |yuy2|
    ensures LastByteOfPair(2 * q) == 4 * q + 3 && LastByteOfPair(2 * q + 1) == 4 * q + 3
    ensures PixelAt(yuy2, 2 * q) == PixelBytes(yuy2[4 * q], yuy2[4 * q + 1], yuy2[4 * q + 3])
    ensures PixelAt(yuy2, 2 * q + 1) == PixelBytes(yuy2[4 * q + 2], yuy2[4 * q + 1], yuy2[4 * q + 3])
  {
    assert (2 * q) / 2 == q && (2 * q + 1) / 2 == q;
    assert 2 * (2 * q) == 4 * q && 2 * (2 * q + 1) == 4 * q + 2;
  }

  /** Byte j of group q's eight output bytes belongs to pixel 2q or 2q+1, lane j % 4. */
  lemma GroupLanes(q: nat, j: nat)
    requires 8 * q <= j < 8 * q + 8
    ensures j < 8 * q + 4 ==> j / 4 == 2 * q && j % 4 == j - 8 * q
    ensures 8 * q + 4 <= j ==> j / 4 == 2 * q + 1 && j % 4 == j - 8 * q - 4
  {
  }

  /**
    One step of the program's loop at even pixel index i: bytes 2i..2i+3 are
    Y0, U, Y1, V and give pixels i and i+1.
  */
  function PixelPairAt(yuy2: seq<Byte>, i: nat): seq<Byte>
    requires 2 * i + 4 <= |yuy2|
  {
    var y0 := yuy2[i * 2 + 0];
    var u := yuy2[i * 2 + 1];
    var y1 := yuy2[i * 2 + 2];
    var v := yuy2[i * 2 + 3];
    PixelBytes(y0, u, v) + PixelBytes(y1, u, v)
  }

  /** Appending reference pixel k after k whole pixels keeps the output in agreement. */
  lemma AppendPixel(yuy2: seq<Byte>, k: nat, done: seq<Byte>)
    requires LastByteOfPair(k) < |yuy2| && |done| == 4 * k
    requires AgreesWithPixels(yuy2, done)
    ensures AgreesWithPixels(yuy2, done + PixelAt(yuy2, k))
  {
    var out := done + PixelAt(yuy2, k);
    forall j | 0 <= j < |out|
      ensures LastByteOfPair(j / 4) < |yuy2| && out[j] == PixelAt(yuy2, j / 4)[j % 4]
    {
      if j < |done| {
        assert out[j] == done[j];
      } else {
        assert j / 4 == k && j % 4 == j - 4 * k;
      }
    }
  }

  /** Appending the bytes of group q to the image of groups 0..q-1 gives the image of groups 0..q. */
  lemma PairAtGroup(yuy2: seq<Byte>, q: nat)
    requires 4 * q + 4 <= |yuy2|
    ensures LastByteOfPair(2 * q + 1) < |yuy2|
    ensures PixelPairAt(yuy2, 2 * q) == PixelAt(yuy2, 2 * q) + PixelAt(yuy2, 2 * q + 1)
  {
    PairPixels(yuy2, q);
    assert 2 * q * 2 == 4 * q;
  }

  lemma AppendGroup(yuy2: seq<Byte>, q: nat, done: seq<Byte>)
    requires 4 * q + 4 <= |yuy2| && |done| == 8 * q
    requires AgreesWithPixels(yuy2, done)
    ensures AgreesWithPixels(yuy2, done + PixelPairAt(yuy2, 2 * q))
  {
    var p0 := PixelAt(yuy2, 2 * q);
    var p1 := PixelAt(yuy2, 2 * q + 1);
    PairAtGroup(yuy2, q);
    AppendPixel(yuy2, 2 * q, done);
    AppendPixel(yuy2, 2 * q + 1, done + p0);
    assert done + p0 + p1 == done + (p0 + p1);
  }

  /**
    Converts whole groups in index order, as the loop of snap.cpp does, the last
    group being handled after all the earlier ones.
  */
  function ConvertGroups(yuy2: seq<Byte>): (out: seq<Byte>)
    requires |yuy2| % 4 == 0
    ensures |out| == 2 * |yuy2|
    ensures AgreesWithPixels(yuy2, out)
  {
    if |yuy2| == 0 then []
    else
      var m := |yuy2| - 4;
      var q := m / 4;
      assert m == 4 * q;
      var prefix := ConvertGroups(yuy2[..m]);
      AgreesWithLonger(yuy2, m, prefix);
      AppendGroup(yuy2, q, prefix);
      prefix + PixelPairAt(yuy2, 2 * q)
  }

  /** Every fourth byte of the image, the alpha channel, is 255. */
  lemma OpaqueAlpha(yuy2: seq<Byte>, out: seq<Byte>)
    requires AgreesWithPixels(yuy2, out)
    ensures forall j :: 0 <= j < |out| && j % 4 == 3 ==> out[j] == 255
  {
  }


  /**
    YUY2ToRGB32 for a frame of width x height pixels: reads the first
    2*width*height input bytes and fills a buffer of 4*width*height bytes.
    The loop writes pixel i+1 for every even i, so the pixel count must be
    even; it never checks the input length, so the caller must supply enough.
  */
  function Yuy2ToRgb32(yuy2: seq<Byte>, width: nat, height: nat): (bgra: seq<Byte>)
    requires (width * height) % 2 == 0
    requires |yuy2| >= 2 * (width * height)
    ensures |bgra| == 4 * (width * height)
    ensures AgreesWithPixels(yuy2, bgra)
  {
    var n := width * height;
    var input := yuy2[..2 * n];
    assert |input| == 4 * (n / 2);
    var out := ConvertGroups(input);
    AgreesWithLonger(yuy2, 2 * n, out);
    out
  }

  /**
    With neutral chroma (U = V = 128, so d = e = 0) the three channels agree,
    luma 16 and below gives black and luma 235 and above gives white.
  */
  lemma NeutralChromaIsGray(y: Byte)
    ensures Blue(y, 128) == Green(y, 128, 128) == Red(y, 128)
    ensures y <= 16 ==> PixelBytes(y, 128, 128) == [0, 0, 0, 255]
    ensures y >= 235 ==> PixelBytes(y, 128, 128) == [255, 255, 255, 255]
  {
    Shr8IsFloor(298 * (y - 16) + 128);
  }

  /** Lane c of pixel k of an output that agrees with the pixels is lane c of the reference pixel k. */
  lemma ConvertedLane(yuy2: seq<Byte>, bgra: seq<Byte>, k: nat, c: nat)
    requires AgreesWithPixels(yuy2, bgra) && 4 * k + 4 <= |bgra| && c < 4
    ensures LastByteOfPair(k) < |yuy2|
    ensures bgra[4 * k + c] == PixelAt(yuy2, k)[c]
  {
    assert (4 * k + c) / 4 == k && (4 * k + c) % 4 == c;
  }

  /**
    Pixel k of a converted frame: B, G, R from luma byte 2k and the U and V
    bytes of its pair, then an opaque alpha.
  */
  lemma ConvertedPixel(yuy2: seq<Byte>, bgra: seq<Byte>, k: nat)
    requires AgreesWithPixels(yuy2, bgra) && 4 * k + 4 <= |bgra|
    ensures 4 * (k / 2) + 3 < |yuy2|
    ensures var y, u, v := yuy2[2 * k], yuy2[4 * (k / 2) + 1], yuy2[4 * (k / 2) + 3];
      && bgra[4 * k + 0] == Blue(y, u)
      && bgra[4 * k + 1] == Green(y, u, v)
      && bgra[4 * k + 2] == Red(y, v)
      && bgra[4 * k + 3] == 255
  {
    ConvertedLane(yuy2, bgra, k, 0);
    ConvertedLane(yuy2, bgra, k, 1);
    ConvertedLane(yuy2, bgra, k, 2);
    ConvertedLane(yuy2, bgra, k, 3);
    PixelLanes(yuy2, k);
  }

  /** Equal luma bytes in a group give equal pixels, the chroma being shared. */
  lemma SharedChroma(yuy2: seq<Byte>, q: nat)
    requires 4 * q + 3 < |yuy2| && yuy2[4 * q] == yuy2[4 * q + 2]
    ensures LastByteOfPair(2 * q + 1) < |yuy2|
    ensures PixelAt(yuy2, 2 * q) == PixelAt(yuy2, 2 * q + 1)
  {
    PairPixels(yuy2, q);
  }

  /** Within any output that agrees with the pixels, lanes c of pixels 2p and 2p+1 coincide when their luma does. */
  lemma EqualLumaEqualLanes(yuy2: seq<Byte>, bgra: seq<Byte>, p: nat, c: nat)
    requires AgreesWithPixels(yuy2, bgra)
    requires 8 * p + 7 < |bgra| && c < 4
    requires 4 * p + 3 < |yuy2| && yuy2[4 * p] == yuy2[4 * p + 2]
    ensures bgra[8 * p + c] == bgra[8 * p + 4 + c]
  {
    SharedChroma(yuy2, p);
    GroupLanes(p, 8 * p + c);
    GroupLanes(p, 8 * p + 4 + c);
    assert bgra[8 * p + c] == PixelAt(yuy2, 2 * p)[c];
    assert bgra[8 * p + 4 + c] == PixelAt(yuy2, 2 * p + 1)[c];
  }

  /**
    The two pixels of group p share d and e, so a group whose two luma bytes
    are equal yields two identical output pixels.
  */
  lemma EqualLumaEqualPixels(yuy2: seq<Byte>, width: nat, height: nat, p: nat, c: nat)
    requires (width * height) % 2 == 0
    requires |yuy2| >= 2 * (width * height)
    requires 2 * p + 1 < width * height && c < 4
    requires yuy2[4 * p] == yuy2[4 * p + 2]
    ensures 8 * p + 4 + c < 4 * (width * height)
    ensures Yuy2ToRgb32(yuy2, width, height)[8 * p + c] == Yuy2ToRgb32(yuy2, width, height)[8 * p + 4 + c]
  {
    var n := width * height;
    var bgra := Yuy2ToRgb32(yuy2, width, height);
    assert |bgra| == 4 * n && 8 * p + 7 < 4 * n;
    EqualLumaEqualLanes(yuy2, bgra, p, c);
  }

  /**
    The program's loop over a fresh output array of 4n bytes: i steps by 2 and
    each step writes pixels i and i+1 from bytes 2i..2i+3. Every output byte
    ends up equal to the reference pixel it belongs to.
  */
  method ConvertPixelsLoop(yuy2: seq<Byte>, n: nat) returns (bgra: seq<Byte>)
    requires n % 2 == 0 && |yuy2| >= 2 * n
    ensures |bgra| == 4 * n
    ensures AgreesWithPixels(yuy2, bgra)
  {
    ghost var groups := n / 2;
    assert n == 2 * groups;
    var out := new Byte[4 * n];
    var i := 0;
    ghost var g := 0;
    while i < n
      invariant 0 <= g <= groups && i == 2 * g
      invariant AgreesWithPixels(yuy2, out[..4 * i])
    {
      var pixels := PixelPairAt(yuy2, i);
      assert i + 2 <= n;
      ghost var before := out[..4 * i];
      // bytes i*4 .. i*4+3 hold pixel i and bytes (i+1)*4 .. (i+1)*4+3 pixel i+1
      forall k | 0 <= k < 8 {
        out[i * 4 + k] := pixels[k];
      }
      assert out[..4 * i] == before;
      assert out[..4 * i + 8] == before + pixels;
      AppendGroup(yuy2, g, before);
      i := i + 2;
      g := g + 1;
    }
    bgra := out[..];
  }

  /** YUY2ToRGB32 as the loop computes it equals the functional conversion. */
  method Yuy2ToRgb32Loop(yuy2: seq<Byte>, width: nat, height: nat) returns (bgra: seq<Byte>)
    requires (width * height) % 2 == 0
    requires |yuy2| >= 2 * (width * height)
    ensures bgra == Yuy2ToRgb32(yuy2, width, height)
  {
    bgra := ConvertPixelsLoop(yuy2, width * height);
    ghost var spec := Yuy2ToRgb32(yuy2, width, height);
    assert forall j :: 0 <= j < |bgra| ==> bgra[j] == spec[j];
  }
}
