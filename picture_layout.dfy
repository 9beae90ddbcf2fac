/**
 * The planar scratch layout jcodec derives from a colour space's component tables
 * (`Picture.createCropped`, copied into `getPictureBuffer`): one byte plane per plane index
 * that some component contributes samples to, allocated in ascending plane index.
 */
module PictureLayout {

  import opened JavaInt
  import opened JCodecUtil

  /** `Picture.MAX_PLANES`. */
  const MAX_PLANES: nat := 4

  /**
   * A colour space's component tables: for component `i`, the plane it is stored in and the
   * right shifts applied to the width and height (its subsampling).
   */
  datatype ColorSpace = ColorSpace(nComp: nat, compPlane: seq<nat>, compWidth: seq<nat>, compHeight: seq<nat>)
  {
    predicate WellFormed()
    {
      && |compPlane| == nComp && |compWidth| == nComp && |compHeight| == nComp
      && (forall i :: 0 <= i < nComp ==> compPlane[i] < MAX_PLANES)
      && (forall i :: 0 <= i < nComp ==> compWidth[i] < 32 && compHeight[i] < 32)
    }
  }

  /** Three full-resolution components, one per plane. */
  const YUV444: ColorSpace := ColorSpace(3, [0, 1, 2], [0, 0, 0], [0, 0, 0])

  /**
   * Samples component `i` needs: `(width >> compWidth[i]) * (height >> compHeight[i])`, an `int`
   * product that wraps to 32 bits. Without wrap-around it is at most `width * height`.
   */
  function ComponentSize(cs: ColorSpace, i: nat, width: Int32, height: Int32): (size: Int32)
    requires cs.WellFormed() && i < cs.nComp
    ensures 0 <= width && 0 <= height && width * height <= INT_MAX ==> 0 <= size <= width * height
  {
    var w, h := ShiftRight(width, cs.compWidth[i]), ShiftRight(height, cs.compHeight[i]);
    if 0 <= width && 0 <= height then
      ProductAtMost(w, h, width, height);
      Wrap32(w * h)
    else
      Wrap32(w * h)
  }

  /** The size of plane `p`: the first `n` components stored in it added up with `int` `+=`. */
  function PlaneSize(cs: ColorSpace, p: nat, width: Int32, height: Int32, n: nat): Int32
    requires cs.WellFormed() && n <= cs.nComp
  {
    if n == 0 then 0
    else if cs.compPlane[n - 1] == p then
      Wrap32(PlaneSize(cs, p, width, height, n - 1) + ComponentSize(cs, n - 1, width, height))
    else
      PlaneSize(cs, p, width, height, n - 1)
  }

  /** The size of every plane index below `MAX_PLANES`. */
  function PlaneSizes(cs: ColorSpace, width: Int32, height: Int32): (sizes: seq<int>)
    requires cs.WellFormed()
    ensures |sizes| == MAX_PLANES
  {
    seq(MAX_PLANES, p requires 0 <= p < MAX_PLANES => PlaneSize(cs, p, width, height, cs.nComp))
  }

  /** The non-zero sizes, in ascending plane index: the planes that get allocated. */
  function NonZero(sizes: seq<int>): (r: seq<int>)
    ensures |r| <= |sizes|
    ensures forall j :: 0 <= j < |r| ==> r[j] != 0
    decreases |sizes|
  {
    if sizes == [] then []
    else
      var last := sizes[|sizes| - 1];
      NonZero(sizes[..|sizes| - 1]) + (if last != 0 then [last] else [])
  }

  /**
   * When every plane's samples add up within an `int`, nothing wraps: with non-negative
   * dimensions plane `p` holds at most `n` frames' worth of samples and is never negative.
   */
  lemma {:induction false} PlaneSizeNonNegative(cs: ColorSpace, p: nat, width: Int32, height: Int32, n: nat)
    requires cs.WellFormed() && n <= cs.nComp && 0 <= width && 0 <= height
    requires cs.nComp * (width * height) <= INT_MAX
    ensures 0 <= PlaneSize(cs, p, width, height, n) <= n * (width * height)
  {
    if n > 0 {
      PlaneSizeNonNegative(cs, p, width, height, n - 1);
      ProductAtMost(width, height, width, height);
      CountedAreas(n, cs.nComp, width * height);
    }
  }

  /** `n` areas of `a` pixels stay within `c` of them, and one more area adds `a`. */
  lemma CountedAreas(n: nat, c: nat, a: int)
    requires 1 <= n <= c && 0 <= a && c * a <= INT_MAX
    ensures a <= INT_MAX && (n - 1) * a + a == n * a && 0 <= n * a <= c * a
  {
    ProductAtMost(n, a, c, a);
  }

  /**
   * A YUV 4:4:4 buffer of a frame of at most `INT_MAX` pixels is three planes of `width * height`
   * bytes each; an empty frame gets no plane at all.
   */
  lemma Yuv444Layout(width: Int32, height: Int32)
    requires 0 <= width && 0 <= height && width * height <= INT_MAX
    ensures PlaneSizes(YUV444, width, height) == [width * height, width * height, width * height, 0]
    ensures NonZero(PlaneSizes(YUV444, width, height)) == if width * height == 0 then [] else [width * height, width * height, width * height]
  {
    var sizes := PlaneSizes(YUV444, width, height);
    var a := width * height;
    ProductAtMost(width, height, width, height);
    assert Wrap32(a) == a;
    forall p | 0 <= p < MAX_PLANES
      ensures sizes[p] == if p < 3 then a else 0
    {
      Yuv444PlaneSize(width, height, p);
    }
    assert sizes == [a, a, a, 0];
    NonZeroOfThreeEqual(a);
  }

  /**
   * Plane `p` of a YUV 4:4:4 buffer holds one full-size component, its size wrapped to an `int`,
   * and nothing past the third.
   */
  lemma Yuv444PlaneSize(width: Int32, height: Int32, p: nat)
    ensures PlaneSize(YUV444, p, width, height, 3) == if p < 3 then Wrap32(width * height) else 0
  {
    var a := Wrap32(width * height);
    assert ShiftRight(width, 0) == width && ShiftRight(height, 0) == height;
    assert ComponentSize(YUV444, 0, width, height) == a;
    assert ComponentSize(YUV444, 1, width, height) == a;
    assert ComponentSize(YUV444, 2, width, height) == a;
    assert PlaneSize(YUV444, p, width, height, 1) == if p == 0 then a else 0;
    assert PlaneSize(YUV444, p, width, height, 2) == if p <= 1 then a else 0;
  }

  /** The non-zero entries of three equal sizes and a zero. */
  lemma NonZeroOfThreeEqual(a: int)
    ensures NonZero([a, a, a, 0]) == if a == 0 then [] else [a, a, a]
  {
    assert [a, a, a, 0][..3] == [a, a, a] && [a, a, a][..2] == [a, a] && [a, a][..1] == [a] && [a][..0] == [];
    assert NonZero([a]) == if a == 0 then [] else [a];
    assert NonZero([a, a]) == if a == 0 then [] else [a, a];
    assert NonZero([a, a, a]) == if a == 0 then [] else [a, a, a];
  }

  /** A 65536 x 65536 frame has 2^32 pixels, which wrap to 0: no plane is allocated. */
  lemma Yuv444WrapsToEmpty()
    ensures PlaneSizes(YUV444, 65536, 65536) == [0, 0, 0, 0]
    ensures NonZero(PlaneSizes(YUV444, 65536, 65536)) == []
  {
    var sizes := PlaneSizes(YUV444, 65536, 65536);
    assert Wrap32(65536 * 65536) == 0;
    forall p | 0 <= p < MAX_PLANES
      ensures sizes[p] == 0
    {
      Yuv444PlaneSize(65536, 65536, p);
    }
    assert sizes == [0, 0, 0, 0];
    NonZeroOfThreeEqual(0);
  }

  /**
   * A 46352 x 46352 frame has more than `INT_MAX` pixels, which wrap to a negative plane size:
   * allocating that plane throws.
   */
  lemma Yuv444WrapsNegative()
    ensures PlaneSizes(YUV444, 46352, 46352)[0] < 0
  {
    assert Wrap32(46352 * 46352) == 46352 * 46352 - 0x1_0000_0000;
    Yuv444PlaneSize(46352, 46352, 0);
  }

  /**
   * The plane sizes of the YUV 4:4:4 scratch picture the H.264 decoder writes into, for frames of
   * the given size: three full-size planes, none for an empty frame (`Yuv444Layout` shows this is
   * what the plane sizes of YUV 4:4:4 come to when the pixel count fits in an `int`).
   */
  ghost function ScratchLayout(size: Size): seq<int>
  {
    var area := size.width * size.height;
    if area == 0 then [] else [area, area, area]
  }

  /** The first loop: each component adds its size to the plane it is stored in. */
  method ComputePlaneSizes(cs: ColorSpace, width: Int32, height: Int32) returns (planeSizes: seq<int>)
    requires cs.WellFormed()
    ensures planeSizes == PlaneSizes(cs, width, height)
  {
    var sizes := new int[MAX_PLANES](_ => 0);
    for i := 0 to cs.nComp
      invariant forall p :: 0 <= p < MAX_PLANES ==> sizes[p] == PlaneSize(cs, p, width, height, i)
    {
      var plane := cs.compPlane[i];
      sizes[plane] := Wrap32(sizes[plane] + Wrap32(ShiftRight(width, cs.compWidth[i]) * ShiftRight(height, cs.compHeight[i])));
    }
    planeSizes := sizes[..];
  }

  /** The planes of a scratch buffer: present, and sized as `sizes` lists them. */
  ghost predicate HasLayout(data: array<array?<bv8>>, sizes: seq<int>)
    reads data
  {
    data.Length == |sizes| && forall j :: 0 <= j < data.Length ==> data[j] != null && data[j].Length == sizes[j]
  }

  /** Every plane is an array of its own, allocated by this call: no two planes share one. */
  twostate predicate FreshPlanes(new data: array<array?<bv8>>)
    reads data
  {
    && (forall j :: 0 <= j < data.Length ==> fresh(data[j]))
    && (forall j, k :: 0 <= j < k < data.Length ==> data[j] != data[k])
  }

  /**
   * The scratch planes of a picture: the plane sizes, then one byte array per non-zero plane in
   * ascending plane index. A negative plane size, which only a wrapped `int` can produce, makes
   * Java's allocation throw `NegativeArraySizeException`; callers rule it out.
   */
  method AllocatePlanes(cs: ColorSpace, width: Int32, height: Int32) returns (data: array<array?<bv8>>)
    requires cs.WellFormed()
    requires forall p :: 0 <= p < MAX_PLANES ==> PlaneSizes(cs, width, height)[p] >= 0
    ensures fresh(data) && FreshPlanes(data)
    ensures HasLayout(data, NonZero(PlaneSizes(cs, width, height)))
  {
    var planeSizes := ComputePlaneSizes(cs, width, height);
    var nPlanes := CountPlanes(planeSizes);
    data := AllocateNonZero(planeSizes, nPlanes);
  }

  /** The second loop: count the planes of non-zero size. */
  method CountPlanes(planeSizes: seq<int>) returns (nPlanes: nat)
    ensures nPlanes == |NonZero(planeSizes)|
  {
    nPlanes := 0;
    for i := 0 to |planeSizes|
      invariant nPlanes == |NonZero(planeSizes[..i])|
    {
      assert planeSizes[..i + 1][..i] == planeSizes[..i];
      nPlanes := nPlanes + if planeSizes[i] != 0 then 1 else 0;
    }
    assert planeSizes[..|planeSizes|] == planeSizes;
  }

  /** The third loop: one array per non-zero size, in order. */
  method AllocateNonZero(planeSizes: seq<int>, nPlanes: nat) returns (data: array<array?<bv8>>)
    requires nPlanes == |NonZero(planeSizes)|
    requires forall p :: 0 <= p < |planeSizes| ==> planeSizes[p] >= 0
    ensures fresh(data) && FreshPlanes(data)
    ensures HasLayout(data, NonZero(planeSizes))
  {
    data := new array?<bv8>[nPlanes];
    var plane := 0;
    for i := 0 to |planeSizes|
      invariant plane == |NonZero(planeSizes[..i])| <= nPlanes
      invariant forall j :: 0 <= j < plane ==> data[j] != null && data[j].Length == NonZero(planeSizes)[j]
      invariant forall j :: 0 <= j < plane ==> fresh(data[j])
      invariant forall j, k :: 0 <= j < k < plane ==> data[j] != data[k]
    {
      NonZeroStep(planeSizes, i);
      NonZeroPrefix(planeSizes, i + 1);
      if planeSizes[i] != 0 {
        data[plane] := new bv8[planeSizes[i]];
        plane := plane + 1;
      }
    }
    assert planeSizes[..|planeSizes|] == planeSizes;
  }

  /** Extending the prefix by one size extends the filtered prefix by that size when it is non-zero. */
  lemma NonZeroStep(sizes: seq<int>, i: nat)
    requires i < |sizes|
    ensures NonZero(sizes[..i + 1]) == NonZero(sizes[..i]) + if sizes[i] != 0 then [sizes[i]] else []
  {
    assert sizes[..i + 1][..i] == sizes[..i];
  }

  /** Filtering a prefix gives a prefix of the filtered sequence. */
  lemma {:induction false} NonZeroPrefix(sizes: seq<int>, i: nat)
    requires i <= |sizes|
    ensures |NonZero(sizes[..i])| <= |NonZero(sizes)|
    ensures forall j :: 0 <= j < |NonZero(sizes[..i])| ==> NonZero(sizes[..i])[j] == NonZero(sizes)[j]
    decreases |sizes| - i
  {
    if i < |sizes| {
      NonZeroPrefix(sizes, i + 1);
      assert sizes[..i + 1][..i] == sizes[..i];
    } else {
      assert sizes[..i] == sizes;
    }
  }
}
