/**
 * The two helpers shared by both video decoders: packing an interleaved RGB picture into
 * `0xRRGGBB` pixels, and the frame size read from the sequence parameter sets (SPS, NAL unit
 * type 7) of the track's codec-private data.
 */
module JCodecUtil {

  import opened JavaInt

  /** A Java `byte`: the picture planes hold signed samples centred on zero. */
  type SByte = x: int | -128 <= x < 128

  /** A picture in jcodec's RGB colour space: plane 0 holds r, g, b per pixel, row by row. */
  datatype RgbPicture = RgbPicture(width: nat, height: nat, plane: seq<SByte>)
  {
    /**
     * The plane holds a sample triple for every pixel. `BufferedImage` accepts only positive
     * dimensions, and the sample index `i * 3` is an `int`, so every index fits in one.
     */
    predicate WellFormed()
    {
      && 0 < width && 0 < height
      && 3 * (width * height) <= INT_MAX
      && 3 * (width * height) <= |plane|
    }
  }

  /** A `TYPE_INT_RGB` image: one packed `int` per pixel, row by row. */
  datatype Image = Image(width: nat, height: nat, pixels: seq<int>)

  /** Sample `s` re-biased into an unsigned channel value. */
  function Unbias(s: SByte): (c: nat)
    ensures c < 256
  {
    s + 128
  }

  /**
   * One pixel as the conversion loop builds it: `(r+128) << 16 | (g+128) << 8 | (b+128)`; the
   * shifted channels stay below 2^24, so each shift is a multiplication without wrap-around.
   */
  function Pack(r: SByte, g: SByte, b: SByte): nat
  {
    Or(Or(Unbias(r) * 0x1_0000, Unbias(g) * 0x100), Unbias(b))
  }

  /** `((p >> shift) & 0xFF) - 128`: a channel read back from a packed pixel. */
  function Channel(p: int, shift: nat): int
  {
    // for a positive divisor Dafny's `/` and `%` are the arithmetic shift and the mask
    p / Pow2(shift) % 256 - 128
  }

  /** The channels do not overlap, so the bitwise or is plain addition and stays within 24 bits. */
  lemma {:induction false} PackIsSum(r: SByte, g: SByte, b: SByte)
    ensures Pack(r, g, b) == Unbias(r) * 65536 + Unbias(g) * 256 + Unbias(b)
    ensures 0 <= Pack(r, g, b) <= 0xFF_FFFF
  {
    assert Pow2(8) == 256;
    assert Pow2(16) == 65536;
    OrOfDisjointIsSum(Unbias(r), Unbias(g) * 256, 16);
    var rg := Unbias(r) * 256 + Unbias(g);
    assert Unbias(r) * 65536 + Unbias(g) * 256 == rg * Pow2(8);
    OrOfDisjointIsSum(rg, Unbias(b), 8);
  }

  /** Unpacking a packed pixel recovers the three signed samples. */
  lemma UnpackPack(r: SByte, g: SByte, b: SByte)
    ensures Channel(Pack(r, g, b), 16) == r
    ensures Channel(Pack(r, g, b), 8) == g
    ensures Channel(Pack(r, g, b), 0) == b
  {
    PackIsSum(r, g, b);
    assert Pow2(0) == 1 && Pow2(8) == 256 && Pow2(16) == 65536;
    RedByte(Unbias(r), Unbias(g), Unbias(b));
    GreenByte(Unbias(r), Unbias(g), Unbias(b));
    BlueByte(Unbias(r), Unbias(g), Unbias(b));
  }

  /** The top byte of a 24-bit sum of bytes is its first byte. */
  lemma RedByte(red: nat, green: nat, blue: nat)
    requires red < 256 && green < 256 && blue < 256
    ensures (red * 65536 + green * 256 + blue) / 65536 % 256 == red
  {
    var low := green * 256 + blue;
    assert low < 65536;
    assert (red * 65536 + low) / 65536 == red;
  }

  /** The middle byte of a 24-bit sum of bytes is its second byte. */
  lemma GreenByte(red: nat, green: nat, blue: nat)
    requires red < 256 && green < 256 && blue < 256
    ensures (red * 65536 + green * 256 + blue) / 256 % 256 == green
  {
    var high := red * 256 + green;
    assert red * 65536 + green * 256 + blue == high * 256 + blue;
    assert (high * 256 + blue) / 256 == high;
    assert high % 256 == green;
  }

  /** The low byte of a 24-bit sum of bytes is its third byte. */
  lemma BlueByte(red: nat, green: nat, blue: nat)
    requires red < 256 && green < 256 && blue < 256
    ensures (red * 65536 + green * 256 + blue) / 1 % 256 == blue
  {
    var high := red * 256 + green;
    assert red * 65536 + green * 256 + blue == high * 256 + blue;
    assert (high * 256 + blue) % 256 == blue;
  }

  /** The first `n` pixels packed from a plane of sample triples. */
  function PackedPixels(plane: seq<SByte>, n: nat): (r: seq<int>)
    requires 3 * n <= |plane|
    ensures |r| == n
  {
    if n == 0 then []
    else PackedPixels(plane, n - 1) + [Pack(plane[3 * (n - 1)], plane[3 * (n - 1) + 1], plane[3 * (n - 1) + 2])]
  }

  /** The image `toBufferedImage` builds from an RGB picture. */
  function ToImage(src: RgbPicture): Image
    requires src.WellFormed()
  {
    Image(src.width, src.height, PackedPixels(src.plane, src.width * src.height))
  }

  /** Pixel `i` is built from samples `3i`, `3i+1` and `3i+2` and nothing else. */
  lemma {:induction false} PackedPixelAt(plane: seq<SByte>, n: nat, i: nat)
    requires 3 * n <= |plane| && i < n
    ensures PackedPixels(plane, n)[i] == Pack(plane[3 * i], plane[3 * i + 1], plane[3 * i + 2])
  {
    if i < n - 1 {
      PackedPixelAt(plane, n - 1, i);
    }
  }

  /** Every packed pixel is a 24-bit colour value. */
  lemma PackedPixelsInRange(plane: seq<SByte>, n: nat)
    requires 3 * n <= |plane|
    ensures forall i :: 0 <= i < n ==> 0 <= PackedPixels(plane, n)[i] <= 0xFF_FFFF
  {
    forall i | 0 <= i < n
      ensures 0 <= PackedPixels(plane, n)[i] <= 0xFF_FFFF
    {
      PackedPixelAt(plane, n, i);
      PackIsSum(plane[3 * i], plane[3 * i + 1], plane[3 * i + 2]);
    }
  }

  /** The samples read back from packed pixels, three per pixel: r, g, then b. */
  function UnpackedSamples(pixels: seq<int>): (s: seq<int>)
  {
    seq(3 * |pixels|, j requires 0 <= j < 3 * |pixels| => Channel(pixels[j / 3], 16 - 8 * (j % 3)))
  }

  /** Round trip: unpacking the packed image gives back the first `3n` samples of the plane. */
  lemma UnpackPackedPixels(plane: seq<SByte>, n: nat)
    requires 3 * n <= |plane|
    ensures UnpackedSamples(PackedPixels(plane, n)) == plane[..3 * n]
  {
    forall j | 0 <= j < 3 * n
      ensures UnpackedSamples(PackedPixels(plane, n))[j] == plane[j]
    {
      UnpackedSampleAt(plane, n, j);
    }
  }

  /** One sample of the round trip: sample `j` is channel `j % 3` of pixel `j / 3`. */
  lemma UnpackedSampleAt(plane: seq<SByte>, n: nat, j: nat)
    requires 3 * n <= |plane| && j < 3 * n
    ensures UnpackedSamples(PackedPixels(plane, n))[j] == plane[j]
  {
    var i, c := j / 3, j % 3;
    SampleIndex(j);
    PackedPixelAt(plane, n, i);
    var pixel := PackedPixels(plane, n)[i];
    assert UnpackedSamples(PackedPixels(plane, n))[j] == Channel(pixel, 16 - 8 * c);
    UnpackPack(plane[3 * i], plane[3 * i + 1], plane[3 * i + 2]);
    if c == 0 {
      assert Channel(pixel, 16) == plane[3 * i];
    } else if c == 1 {
      assert Channel(pixel, 8) == plane[3 * i + 1];
    } else {
      assert Channel(pixel, 0) == plane[3 * i + 2];
    }
  }

  /** Sample `j` lies in pixel `j / 3`, at channel offset `j % 3`. */
  lemma SampleIndex(j: nat)
    ensures j == 3 * (j / 3) + j % 3
    ensures j % 3 == 0 || j % 3 == 1 || j % 3 == 2
  {
  }

  /** A picture whose samples are all zero converts to mid-grey `0x808080` everywhere. */
  lemma ZeroPlaneIsMidGrey(plane: seq<SByte>, n: nat)
    requires 3 * n <= |plane|
    requires forall j :: 0 <= j < |plane| ==> plane[j] == 0
    ensures forall i :: 0 <= i < n ==> PackedPixels(plane, n)[i] == 0x80_8080
  {
    forall i | 0 <= i < n
      ensures PackedPixels(plane, n)[i] == 0x80_8080
    {
      PackedPixelAt(plane, n, i);
      PackIsSum(0, 0, 0);
    }
  }

  /** `toBufferedImage` for a picture already in RGB: fills the pixel array one pixel at a time. */
  method ToBufferedImage(src: RgbPicture) returns (dst: Image)
    requires src.WellFormed()
    ensures dst == ToImage(src)
  {
    var n: Int32 := src.width * src.height;
    var data := new int[n];
    for i := 0 to data.Length
      invariant forall j :: 0 <= j < i ==> data[j] == PackedPixels(src.plane, n)[j]
    {
      var at: Int32 := i * 3;
      assert at == 3 * i && at + 2 < |src.plane|;
      var color := Or(Unbias(src.plane[at]) * 0x1_0000, Unbias(src.plane[at + 1]) * 0x100);
      color := Or(color, Unbias(src.plane[at + 2]));
      PackedPixelAt(src.plane, n, i);
      data[i] := color;
    }
    dst := Image(src.width, src.height, data[..]);
  }

  // ---------------------------------------------------------------------------------------
  // Frame size from the sequence parameter sets

  /**
   * The two SPS values the size depends on: `pic_width_in_mbs_minus1` and the frame height in
   * macroblocks, as defined in section 7.4.2.1.1 of ITU-T Rec. H.264 (the bit parsing is jcodec's).
   */
  datatype Sps = Sps(picWidthInMbsMinus1: Int32, picHeightInMbs: Int32)

  /** A NAL unit of the codec-private data: a sequence parameter set, or a unit of another type. */
  datatype NalUnit = SpsUnit(sps: Sps) | OtherUnit

  datatype Dimension = Width | Height

  /** Size in macroblocks along `dim`; the width is `picWidthInMbsMinus1 + 1` in `int` arithmetic. */
  function MbCount(sps: Sps, dim: Dimension): Int32
  {
    match dim
    case Width => Wrap32(sps.picWidthInMbsMinus1 + 1)
    case Height => sps.picHeightInMbs
  }

  /** The running maximum over the SPS units, starting from `Integer.MIN_VALUE`. */
  function MaxMbs(units: seq<NalUnit>, dim: Dimension): Int32
    decreases |units|
  {
    if units == [] then INT_MIN
    else
      var before := MaxMbs(units[..|units| - 1], dim);
      match units[|units| - 1]
      case OtherUnit => before
      case SpsUnit(sps) => if MbCount(sps, dim) > before then MbCount(sps, dim) else before
  }

  datatype Size = Size(width: Int32, height: Int32)

  /** The buffer size: 16 pixels per macroblock, via the `int` shift `<< 4`. */
  function FrameSize(units: seq<NalUnit>): Size
  {
    Size(ShiftLeft(MaxMbs(units, Width), 4), ShiftLeft(MaxMbs(units, Height), 4))
  }

  predicate HasSps(units: seq<NalUnit>)
  {
    exists i :: 0 <= i < |units| && units[i].SpsUnit?
  }

  /**
   * `MaxMbs` is the maximum of the SPS values: no SPS value exceeds it, and unless there is no
   * SPS at all (when it stays `Integer.MIN_VALUE`) some SPS attains it.
   */
  lemma {:induction false} MaxMbsIsMaximum(units: seq<NalUnit>, dim: Dimension)
    ensures forall i :: 0 <= i < |units| && units[i].SpsUnit? ==> MbCount(units[i].sps, dim) <= MaxMbs(units, dim)
    ensures HasSps(units) ==> exists i :: 0 <= i < |units| && units[i].SpsUnit? && MbCount(units[i].sps, dim) == MaxMbs(units, dim)
    ensures !HasSps(units) ==> MaxMbs(units, dim) == INT_MIN
    decreases |units|
  {
    if units != [] {
      var init := units[..|units| - 1];
      MaxMbsIsMaximum(init, dim);
      assert forall i :: 0 <= i < |init| ==> init[i] == units[i];
      if HasSps(init) {
        var i :| 0 <= i < |init| && init[i].SpsUnit? && MbCount(init[i].sps, dim) == MaxMbs(init, dim);
        assert units[i].SpsUnit?;
      }
      if !HasSps(units) {
        assert !HasSps(init);
      }
    }
  }

  /** Only the SPS units of the codec-private data. */
  function SpsUnits(units: seq<NalUnit>): (r: seq<NalUnit>)
    ensures forall i :: 0 <= i < |r| ==> r[i].SpsUnit?
    decreases |units|
  {
    if units == [] then []
    else
      var last := units[|units| - 1];
      SpsUnits(units[..|units| - 1]) + (if last.SpsUnit? then [last] else [])
  }

  /** Units of other types never affect the frame size. */
  lemma {:induction false} OtherUnitsIgnored(units: seq<NalUnit>, dim: Dimension)
    ensures MaxMbs(SpsUnits(units), dim) == MaxMbs(units, dim)
    decreases |units|
  {
    if units != [] {
      var init := units[..|units| - 1];
      OtherUnitsIgnored(init, dim);
      var r := SpsUnits(units);
      if units[|units| - 1].SpsUnit? {
        assert r[..|r| - 1] == SpsUnits(init);
      } else {
        assert r == SpsUnits(init);
      }
    }
  }

  /** Without any SPS both accumulators stay `Integer.MIN_VALUE`, and `<< 4` turns them into 0. */
  lemma NoSpsGivesEmptySize(units: seq<NalUnit>)
    requires !HasSps(units)
    ensures FrameSize(units) == Size(0, 0)
  {
    MaxMbsIsMaximum(units, Width);
    MaxMbsIsMaximum(units, Height);
    ShiftLeft4OfMin();
  }

  /**
   * The most macroblocks a frame side may span: Annex A of ITU-T Rec. H.264 bounds both
   * PicWidthInMbs and FrameHeightInMbs by Sqrt(MaxFS * 8), and the largest MaxFS of its
   * Table A-1 is 139264.
   */
  const MAX_MBS: int := 1055

  /** Every SPS describes a frame the H.264 level limits allow. */
  predicate WithinLevelLimits(units: seq<NalUnit>)
  {
    forall i :: 0 <= i < |units| && units[i].SpsUnit? ==>
      0 <= units[i].sps.picWidthInMbsMinus1 < MAX_MBS && 0 <= units[i].sps.picHeightInMbs <= MAX_MBS
  }

  /** A frame size no larger than the level limits allow: at most 16 pixels per macroblock. */
  predicate FitsLevelLimits(size: Size)
  {
    0 <= size.width <= 16 * MAX_MBS && 0 <= size.height <= 16 * MAX_MBS
  }

  /** Such a frame has few enough pixels that neither a pixel count nor a sample index wraps. */
  lemma LevelLimitedArea(size: Size)
    requires FitsLevelLimits(size)
    ensures 0 <= size.width * size.height <= 16 * MAX_MBS * (16 * MAX_MBS)
    ensures 3 * (size.width * size.height) <= INT_MAX
  {
    ProductAtMost(size.width, size.height, 16 * MAX_MBS, 16 * MAX_MBS);
  }

  /**
   * With at least one SPS and realistic values, the width is 16 times the largest
   * `picWidthInMbsMinus1 + 1` and the height 16 times the largest height in macroblocks;
   * either way neither dimension is negative.
   */
  lemma {:induction false} FrameSizeIsSixteenTimesMaximum(units: seq<NalUnit>)
    requires WithinLevelLimits(units)
    ensures HasSps(units) ==> FrameSize(units).width == 16 * MaxMbs(units, Width) >= 16
    ensures HasSps(units) ==> FrameSize(units).height == 16 * MaxMbs(units, Height) >= 0
    ensures FitsLevelLimits(FrameSize(units))
  {
    MaxMbsIsMaximum(units, Width);
    MaxMbsIsMaximum(units, Height);
    if HasSps(units) {
      var i :| 0 <= i < |units| && units[i].SpsUnit? && MbCount(units[i].sps, Width) == MaxMbs(units, Width);
      var j :| 0 <= j < |units| && units[j].SpsUnit? && MbCount(units[j].sps, Height) == MaxMbs(units, Height);
      ShiftLeft4Scales(MaxMbs(units, Width));
      ShiftLeft4Scales(MaxMbs(units, Height));
    } else {
      NoSpsGivesEmptySize(units);
    }
  }

  /**
   * Beyond the level limits the shift wraps: an SPS 2^28 macroblocks wide gives a width of 16,
   * not 16 times its macroblock count.
   */
  lemma FrameSizeWrapsBeyondLimits()
    ensures MaxMbs([SpsUnit(Sps(0x1000_0000, 1))], Width) == 0x1000_0001
    ensures FrameSize([SpsUnit(Sps(0x1000_0000, 1))]).width == 16
  {
    var units := [SpsUnit(Sps(0x1000_0000, 1))];
    assert units[..0] == [];
    assert Pow2(4) == 16;
    assert Wrap32(0x1000_0001 * 16) == 16;
  }

  /** `calcBufferSize`: scans the NAL units keeping the largest width and height seen. */
  method CalcBufferSize(codecPrivate: seq<NalUnit>) returns (size: Size)
    ensures size == FrameSize(codecPrivate)
  {
    var w: Int32 := INT_MIN;
    var h: Int32 := INT_MIN;
    var i := 0;
    while i < |codecPrivate|
      invariant i <= |codecPrivate|
      invariant w == MaxMbs(codecPrivate[..i], Width) && h == MaxMbs(codecPrivate[..i], Height)
    {
      var unit := codecPrivate[i];
      assert codecPrivate[..i + 1][..i] == codecPrivate[..i];
      i := i + 1;
      if !unit.SpsUnit? {
        continue;
      }
      var tempW := Wrap32(unit.sps.picWidthInMbsMinus1 + 1);
      if tempW > w {
        w := tempW;
      }
      var tempH := unit.sps.picHeightInMbs;
      if tempH > h {
        h := tempH;
      }
    }
    assert codecPrivate[..i] == codecPrivate;
    size := Size(ShiftLeft(w, 4), ShiftLeft(h, 4));
  }
}
