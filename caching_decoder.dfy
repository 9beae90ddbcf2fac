/**
 * The caching MP4 decoder: reads every packet of the track once into a map keyed by presentation
 * timestamp, then decodes the cached packets one by one in timestamp order, starting over after
 * the number of frames the container declares.
 */
module CachingDecoder {

  import opened Wrappers
  import opened TimestampOrder
  import opened MapFold
  import opened JCodecUtil
  import opened PictureLayout
  import opened Media

  /** The `(timestamp, buffer)` pairs `initialize` puts into the cache, in track order. */
  function Entries(packets: seq<Packet>): (es: seq<(Timestamp, ByteBuffer)>)
    ensures |es| == |packets|
    ensures forall i :: 0 <= i < |packets| ==> es[i] == (packets[i].pts, packets[i].data)
  {
    seq(|packets|, i requires 0 <= i < |packets| => (packets[i].pts, packets[i].data))
  }

  /** Reading one more packet adds its entry at the end. */
  lemma EntriesAppend(packets: seq<Packet>, start: nat, end: nat)
    requires start <= end < |packets|
    ensures Entries(packets[start..end + 1]) == Entries(packets[start..end]) + [(packets[end].pts, packets[end].data)]
  {
    assert packets[start..end + 1] == packets[start..end] + [packets[end]];
  }

  /** The cache after reading packets `start` up to `end` into `base`, one put per packet. */
  function CacheOf(base: map<Timestamp, ByteBuffer>, packets: seq<Packet>, start: nat, end: nat): map<Timestamp, ByteBuffer>
    requires start <= end <= |packets|
    decreases end
  {
    if end == start then base
    else CacheOf(base, packets, start, end - 1)[packets[end - 1].pts := packets[end - 1].data]
  }

  /** Reading packets one by one is putting their entries in order. */
  lemma {:induction false} CacheOfIsPutAll(base: map<Timestamp, ByteBuffer>, packets: seq<Packet>, start: nat, end: nat)
    requires start <= end <= |packets|
    ensures CacheOf(base, packets, start, end) == PutAll(base, Entries(packets[start..end]))
    decreases end
  {
    if end > start {
      var last := end - 1;
      var before := CacheOf(base, packets, start, last);
      CacheOfIsPutAll(base, packets, start, last);
      CacheStep(base, packets, start, last);
      assert CacheOf(base, packets, start, end) == before[packets[last].pts := packets[last].data];
      assert last + 1 == end;
    }
  }

  /** Caching one more packet of the track puts its buffer over whatever the cache held. */
  lemma CacheStep(base: map<Timestamp, ByteBuffer>, packets: seq<Packet>, start: nat, end: nat)
    requires start <= end < |packets|
    ensures PutAll(base, Entries(packets[start..end + 1]))
      == PutAll(base, Entries(packets[start..end]))[packets[end].pts := packets[end].data]
  {
    EntriesAppend(packets, start, end);
    PutAllAppend(base, Entries(packets[start..end]), packets[end].pts, packets[end].data);
  }

  /** Once the cursor has reached the end, the packets read since `start` are the rest of the track. */
  lemma CacheComplete(base: map<Timestamp, ByteBuffer>, packets: seq<Packet>, start: nat, end: nat)
    requires start <= end == |packets|
    ensures PutAll(base, Entries(packets[start..end])) == PutAll(base, Entries(packets[start..]))
  {
    assert packets[start..end] == packets[start..];
  }

  /**
   * The cache built from a whole track holds exactly the track's timestamps, and under each one
   * the buffer of the last packet carrying it.
   */
  lemma CacheHoldsLastPacketPerTimestamp(packets: seq<Packet>, j: nat)
    requires j < |packets|
    requires forall i :: j < i < |packets| ==> packets[i].pts != packets[j].pts
    ensures PutAll(map[], Entries(packets)).Keys == Timestamps(packets)
    ensures PutAll(map[], Entries(packets))[packets[j].pts] == packets[j].data
  {
    var es := Entries(packets);
    assert (set i | 0 <= i < |es| :: es[i].0) == Timestamps(packets);
    PutAllLastWins(map[], es, j);
  }

  /** Why `getNextFrame` fails: the counter points past the last cached frame. */
  datatype FrameError = MissingFrame(afterFrames: int)

  /** The frame counter after a successful `getNextFrame`: one more, back to 0 at the total. */
  function NextCount(count: int, total: int): (next: int)
    ensures 0 <= count < total ==> 0 <= next < total
    ensures next == count + 1 || next == 0
  {
    if count + 1 == total then 0 else count + 1
  }

  /** The frame counter after `k` successful `getNextFrame` calls. */
  function Advance(count: int, total: int, k: nat): int
  {
    if k == 0 then count else NextCount(Advance(count, total, k - 1), total)
  }

  /**
   * Counting from a position within the cycle, the counter runs up to the total and wraps to 0:
   * after `total` successful calls it is back where it started.
   */
  lemma {:induction false} AdvanceCycles(count: int, total: int, k: nat)
    requires 0 <= count < total && k <= total
    ensures Advance(count, total, k) == if count + k < total then count + k else count + k - total
    ensures k == total ==> Advance(count, total, k) == count
  {
    if k > 0 {
      AdvanceCycles(count, total, k - 1);
    }
  }

  /** Every cached buffer decodes to a picture with a sample triple per pixel. */
  ghost predicate CacheValid(frames: map<Timestamp, ByteBuffer>)
  {
    forall t :: t in frames ==> frames[t].decoded.WellFormed()
  }

  class CachingDecoder {
    var cachedFrames: map<Timestamp, ByteBuffer>
    const imageSizeForBuffer: Size
    const totalFrameCount: int
    const valid: bool
    var pictureBuffer: array?<array?<bv8>>
    var currentFrameCount: int


    ghost predicate Valid()
      reads this, pictureBuffer
    {
      && valid
      && FitsLevelLimits(imageSizeForBuffer)
      && currentFrameCount >= 0
      && CacheValid(cachedFrames)
      && (pictureBuffer != null ==>
            HasLayout(pictureBuffer, ScratchLayout(imageSizeForBuffer)))
    }

    /** The constructor's work once the checks have passed: record the metadata and fill the cache. */
    constructor (videoTrack: SeekableTrack, imageSizeForBuffer: Size)
      requires videoTrack.Valid()
      requires FitsLevelLimits(imageSizeForBuffer)
      modifies videoTrack
      ensures Valid()
      ensures this.imageSizeForBuffer == imageSizeForBuffer && totalFrameCount == videoTrack.meta.totalFrames
      ensures cachedFrames == PutAll(map[], Entries(videoTrack.packets[old(videoTrack.cursor)..]))
      ensures currentFrameCount == 0 && pictureBuffer == null
      ensures videoTrack.Valid() && videoTrack.cursor == |videoTrack.packets|
    {
      totalFrameCount := videoTrack.meta.totalFrames;
      this.imageSizeForBuffer := imageSizeForBuffer;
      cachedFrames := map[];
      pictureBuffer := null;
      currentFrameCount := 0;
      valid := true;
      new;
      Initialize(videoTrack);
    }

    /**
     * Open a demuxed file: the first video track must exist, be H.264 and declare a non-zero
     * frame count; then the whole track is read into the cache.
     */
    static method Open(d: Demuxer) returns (r: Result<CachingDecoder, OpenError>)
      requires d.JustOpened()
      requires SelectH264Track(d).Success? ==> WithinLevelLimits(d.videoTracks[0].meta.codecPrivate)
      modifies if |d.videoTracks| > 0 then {d.videoTracks[0]} else {}
      ensures SelectH264Track(d).Failure? ==> r == Failure(SelectH264Track(d).error)
      ensures SelectH264Track(d).Success? && d.videoTracks[0].meta.totalFrames == 0 ==> r == Failure(NoFrames)
      ensures SelectH264Track(d).Success? && d.videoTracks[0].meta.totalFrames != 0 ==>
        && r.Success? && fresh(r.value) && r.value.Valid()
        && r.value.totalFrameCount == d.videoTracks[0].meta.totalFrames
        && r.value.imageSizeForBuffer == FrameSize(d.videoTracks[0].meta.codecPrivate)
        && r.value.cachedFrames == PutAll(map[], Entries(d.videoTracks[0].packets))
        && r.value.currentFrameCount == 0 && r.value.pictureBuffer == null
    {
      var selected := SelectH264Track(d);
      if selected.Failure? {
        return Failure(selected.error);
      }
      var videoTrack := selected.value;
      if videoTrack.meta.totalFrames == 0 {
        return Failure(NoFrames);
      }
      var size := CalcBufferSize(videoTrack.meta.codecPrivate);
      FrameSizeIsSixteenTimesMaximum(videoTrack.meta.codecPrivate);
      assert videoTrack.packets[0..] == videoTrack.packets;
      var decoder := new CachingDecoder(videoTrack, size);
      return Success(decoder);
    }

    /** Read the rest of the track, caching each packet's buffer under its timestamp; a later packet wins. */
    method Initialize(videoTrack: SeekableTrack)
      requires videoTrack.Valid() && CacheValid(cachedFrames)
      modifies this, videoTrack
      ensures CacheValid(cachedFrames)
      ensures cachedFrames == PutAll(old(cachedFrames), Entries(videoTrack.packets[old(videoTrack.cursor)..]))
      ensures currentFrameCount == old(currentFrameCount) && pictureBuffer == old(pictureBuffer)
      ensures videoTrack.Valid() && videoTrack.cursor == |videoTrack.packets|
    {
      ghost var start := videoTrack.cursor;
      ghost var base := cachedFrames;
      ghost var packets := videoTrack.packets;
      while true
        invariant videoTrack.Valid() && CacheValid(cachedFrames) && start <= videoTrack.cursor
        invariant currentFrameCount == old(currentFrameCount) && pictureBuffer == old(pictureBuffer)
        invariant cachedFrames == CacheOf(base, packets, start, videoTrack.cursor)
        decreases |packets| - videoTrack.cursor
      {
        var more := CacheNextFrame(videoTrack);
        if !more {
          break;
        }
      }
      CacheOfIsPutAll(base, packets, start, videoTrack.cursor);
      CacheComplete(base, packets, start, videoTrack.cursor);
    }

    /** One round of `initialize`'s loop: read the next packet and put its buffer under its timestamp. */
    method CacheNextFrame(videoTrack: SeekableTrack) returns (more: bool)
      requires videoTrack.Valid() && CacheValid(cachedFrames)
      modifies this, videoTrack
      ensures videoTrack.Valid() && CacheValid(cachedFrames)
      ensures currentFrameCount == old(currentFrameCount) && pictureBuffer == old(pictureBuffer)
      ensures more <==> old(videoTrack.cursor) < |videoTrack.packets|
      ensures more ==> videoTrack.cursor == old(videoTrack.cursor) + 1
      ensures more ==> (var read := videoTrack.packets[old(videoTrack.cursor)];
        cachedFrames == old(cachedFrames)[read.pts := read.data])
      ensures !more ==> videoTrack.cursor == old(videoTrack.cursor) && cachedFrames == old(cachedFrames)
    {
      var frame := videoTrack.NextFrame();
      if frame.None? {
        return false;
      }
      cachedFrames := cachedFrames[frame.value.pts := frame.value.data];
      return true;
    }

    /**
     * Decode the cached packet at the counter's position in timestamp order, advancing the
     * counter; fails when the cache holds no packet at that position. The counter has moved on
     * either way, but it goes back to 0 at the declared total only on success. The decoded packet's
     * buffer is rewound, then read to its limit; `Decode`'s frame shows it is the only one touched.
     */
    method GetNextFrame() returns (r: Result<Image, FrameError>)
      requires Valid()
      modifies this, cachedFrames.Values
      ensures Valid() && cachedFrames == old(cachedFrames)
      ensures r.Success? <==> old(currentFrameCount) < |cachedFrames|
      ensures r.Failure? ==> r.error == MissingFrame(old(currentFrameCount)) && currentFrameCount == old(currentFrameCount) + 1
      ensures r.Failure? ==> pictureBuffer == old(pictureBuffer)
      ensures old(pictureBuffer) != null ==> pictureBuffer == old(pictureBuffer)
      ensures r.Success? ==>
        var key := SortedKeys(cachedFrames.Keys)[old(currentFrameCount)];
        && key in cachedFrames
        && r.value == ToImage(cachedFrames[key].decoded)
        && ReadToLimit(cachedFrames[key])
        && currentFrameCount == NextCount(old(currentFrameCount), totalFrameCount)
        && pictureBuffer != null
    {
      var count := currentFrameCount;
      var key := NextKey();
      if key.None? {
        return Failure(MissingFrame(count));
      }
      var image := Decode(key.value);
      return Success(image);
    }

    /**
     * The counter step of `getNextFrame`: the timestamp at the counter's position in timestamp
     * order, if the cache has one, with the counter advanced past it.
     */
    method NextKey() returns (key: Option<Timestamp>)
      requires Valid()
      modifies this
      ensures Valid() && cachedFrames == old(cachedFrames) && pictureBuffer == old(pictureBuffer)
      ensures key == if old(currentFrameCount) < |cachedFrames| then Some(SortedKeys(cachedFrames.Keys)[old(currentFrameCount)]) else None
      ensures key.None? ==> currentFrameCount == old(currentFrameCount) + 1
      ensures key.Some? ==> currentFrameCount == NextCount(old(currentFrameCount), totalFrameCount)
    {
      var count := currentFrameCount;
      currentFrameCount := currentFrameCount + 1;
      key := NthLeast(cachedFrames.Keys, count);
      if key.Some? && currentFrameCount == totalFrameCount {
        currentFrameCount := 0;
      }
    }

    /**
     * Rewind a cached packet's buffer and decode it into the scratch planes: the rewind is what
     * lets a buffer decoded before be decoded again.
     */
    method Decode(key: Timestamp) returns (image: Image)
      requires Valid() && key in cachedFrames
      modifies this, cachedFrames[key]
      ensures Valid()
      ensures cachedFrames == old(cachedFrames) && currentFrameCount == old(currentFrameCount)
      ensures image == ToImage(cachedFrames[key].decoded) && pictureBuffer != null
      ensures ReadToLimit(cachedFrames[key])
      ensures old(pictureBuffer) != null ==> pictureBuffer == old(pictureBuffer)
    {
      var data := cachedFrames[key];
      data.Rewind();
      var planes := GetPictureBuffer();
      var picture := DecodeFrame(data);
      image := ToBufferedImage(picture);
    }

    /** Release the cached packets' contents: every buffer is cleared. */
    method Destroy()
      requires Valid()
      modifies cachedFrames.Values
      ensures forall b :: b in cachedFrames.Values ==> b.position == 0 && b.limit == b.capacity
    {
      var rest := cachedFrames.Values;
      while rest != {}
        invariant rest <= cachedFrames.Values
        invariant forall b :: b in cachedFrames.Values && b !in rest ==> b.position == 0 && b.limit == b.capacity
        decreases |rest|
      {
        var buf :| buf in rest;
        buf.Clear();
        rest := rest - {buf};
      }
    }

    /**
     * The scratch planes of a YUV 4:4:4 picture of the buffer size: allocated on the first call,
     * the same arrays on every later call.
     */
    method GetPictureBuffer() returns (b: array<array?<bv8>>)
      requires Valid()
      modifies this
      ensures Valid()
      ensures cachedFrames == old(cachedFrames) && currentFrameCount == old(currentFrameCount)
      ensures b == pictureBuffer
      ensures HasLayout(b, ScratchLayout(imageSizeForBuffer))
      ensures old(pictureBuffer) != null ==> b == old(pictureBuffer)
      ensures old(pictureBuffer) == null ==> fresh(b) && FreshPlanes(b)
    {
      if pictureBuffer != null {
        return pictureBuffer;
      }
      LevelLimitedArea(imageSizeForBuffer);
      Yuv444Layout(imageSizeForBuffer.width, imageSizeForBuffer.height);
      pictureBuffer := AllocatePlanes(YUV444, imageSizeForBuffer.width, imageSizeForBuffer.height);
      b := pictureBuffer;
    }
  }
}
