/**
 * The buffering MP4 decoder: a background thread keeps up to `FRAME_BUFFER_SIZE` decoded frames
 * in a map keyed by presentation timestamp, reading the track in a loop and rewinding at its end;
 * the consumer takes the frame with the smallest timestamp.
 */
module Mp4Decoder {

  import opened Wrappers
  import opened JavaInt
  import opened Sets
  import opened TimestampOrder
  import opened MapFold
  import opened JCodecUtil
  import opened PictureLayout
  import opened Media

  /** How many decoded frames the decoding thread keeps ready. */
  const FRAME_BUFFER_SIZE: int := 35

  /** Every buffered frame is the decoded image of some packet of the track with that timestamp. */
  ghost predicate FramesFromTrack(frames: map<Timestamp, Image>, packets: seq<Packet>)
    requires Decodable(packets)
  {
    forall t :: t in frames ==>
      exists i :: 0 <= i < |packets| && packets[i].pts == t && frames[t] == ToImage(packets[i].data.decoded)
  }

  /**
   * Where the cursor of a track of `n` packets stands after the fill loop has read `k` packets
   * from `cursor` on: each read rewinds at the end of the track, then steps past the packet read.
   */
  function CursorAfter(cursor: nat, n: nat, k: nat): (c: nat)
    requires 0 < n && cursor <= n
    ensures c <= n
    ensures k > 0 ==> 0 < c
  {
    if k == 0 then cursor
    else
      var c := CursorAfter(cursor, n, k - 1);
      (if c < n then c else 0) + 1
  }

  /**
   * The track index of the `k`-th packet (from 0) the fill loop reads: the packet under the
   * cursor, or the first one when the cursor stands at the end of the track.
   */
  function ReadIndex(cursor: nat, n: nat, k: nat): (i: nat)
    requires 0 < n && cursor <= n
    ensures i < n
    ensures CursorAfter(cursor, n, k + 1) == i + 1
  {
    var c := CursorAfter(cursor, n, k);
    if c < n then c else 0
  }

  /**
   * The buffer after the first `k` reads from `cursor` on, starting from `start`: each read puts
   * the decoded image of the packet it reads under that packet's timestamp, replacing a frame
   * already buffered there.
   */
  ghost function Filled(start: map<Timestamp, Image>, packets: seq<Packet>, cursor: nat, k: nat): (frames: map<Timestamp, Image>)
    requires 0 < |packets| && cursor <= |packets| && Decodable(packets)
    ensures start.Keys <= frames.Keys
  {
    if k == 0 then start
    else
      var p := packets[ReadIndex(cursor, |packets|, k - 1)];
      Filled(start, packets, cursor, k - 1)[p.pts := ToImage(p.data.decoded)]
  }

  class DecoderThread {
    const videoTrack: SeekableTrack
    var preloadedFrames: map<Timestamp, Image>
    var buffers: array?<array?<bv8>>
    var running: bool

    ghost function Repr(): set<object>
      reads this
    {
      {this, videoTrack} + if buffers == null then {} else {buffers}
    }

    ghost predicate Valid()
      reads Repr()
    {
      && videoTrack.Valid()
      && videoTrack.meta.codec == H264
      && WithinLevelLimits(videoTrack.meta.codecPrivate)
      && FramesFromTrack(preloadedFrames, videoTrack.packets)
      && |preloadedFrames| <= FRAME_BUFFER_SIZE
      && (buffers != null ==> HasLayout(buffers, ScratchLayout(FrameSize(videoTrack.meta.codecPrivate))))
    }

    constructor (videoTrack: SeekableTrack)
      requires videoTrack.Valid() && videoTrack.meta.codec == H264
      requires WithinLevelLimits(videoTrack.meta.codecPrivate)
      ensures Valid() && this.videoTrack == videoTrack
      ensures preloadedFrames == map[] && buffers == null && running
    {
      this.videoTrack := videoTrack;
      preloadedFrames := map[];
      buffers := null;
      running := true;
    }

    /**
     * The thread's constructor: the first video track must exist and be H.264, then the buffer is
     * filled. An empty track makes the fill dereference a null packet, which nothing catches.
     */
    static method Create(d: Demuxer) returns (r: Result<DecoderThread, OpenError>, ghost read: nat)
      requires d.JustOpened()
      requires SelectH264Track(d).Success? ==> WithinLevelLimits(d.videoTracks[0].meta.codecPrivate)
      requires SelectH264Track(d).Success? ==>
        |d.videoTracks[0].packets| == 0 || FRAME_BUFFER_SIZE <= |Timestamps(d.videoTracks[0].packets)|
      modifies if |d.videoTracks| > 0 then {d.videoTracks[0]} else {}
      ensures SelectH264Track(d).Failure? ==> r == Failure(SelectH264Track(d).error)
      ensures SelectH264Track(d).Success? && |d.videoTracks[0].packets| == 0 ==> r == Failure(NullPacket)
      ensures SelectH264Track(d).Success? && |d.videoTracks[0].packets| > 0 ==>
        && r.Success? && fresh(r.value) && r.value.videoTrack == d.videoTracks[0]
        && r.value.Valid() && r.value.running
        && |r.value.preloadedFrames| == FRAME_BUFFER_SIZE
        && r.value.buffers != null && fresh(r.value.buffers)
        && 0 < read
        && r.value.preloadedFrames == Filled(map[], d.videoTracks[0].packets, 0, read)
        && (forall j :: 0 <= j < read ==> |Filled(map[], d.videoTracks[0].packets, 0, j)| < FRAME_BUFFER_SIZE)
        && d.videoTracks[0].cursor == CursorAfter(0, |d.videoTracks[0].packets|, read)
    {
      read := 0;
      var selected := SelectH264Track(d);
      if selected.Failure? {
        return Failure(selected.error), read;
      }
      var thread := new DecoderThread(selected.value);
      var ok;
      ok, read := thread.BufferFrames(FRAME_BUFFER_SIZE);
      if !ok {
        return Failure(NullPacket), read;
      }
      return Success(thread), read;
    }

    /**
     * Decode packets, rewinding the track at its end, until `size` frames are buffered. A packet
     * whose timestamp is already buffered replaces that frame. Returns false where the source
     * throws a NullPointerException: the track has no packet at all. `read` counts the packets
     * read: the buffer is the old one with their frames put in, in reading order, and the fill
     * stopped at the first read that brought it to `size`.
     */
    method BufferFrames(size: int) returns (ok: bool, ghost read: nat)
      requires Valid() && size <= FRAME_BUFFER_SIZE
      requires |videoTrack.packets| == 0 || size <= |Timestamps(videoTrack.packets)|
      modifies this, videoTrack
      ensures Valid() && running == old(running)
      ensures ok <==> |old(preloadedFrames)| >= size || |videoTrack.packets| > 0
      ensures ok ==> |preloadedFrames| >= size
      ensures ok && |old(preloadedFrames)| < size ==> |preloadedFrames| == size
      ensures old(preloadedFrames).Keys <= preloadedFrames.Keys
      ensures !ok || |old(preloadedFrames)| >= size ==>
        preloadedFrames == old(preloadedFrames) && buffers == old(buffers) && videoTrack.cursor == old(videoTrack.cursor)
      ensures old(buffers) != null ==> buffers == old(buffers)
      ensures ok && |old(preloadedFrames)| < size ==> buffers != null
      ensures buffers != old(buffers) ==> fresh(buffers)
      ensures ok && |videoTrack.packets| > 0 ==>
        preloadedFrames == Filled(old(preloadedFrames), videoTrack.packets, old(videoTrack.cursor), read)
      ensures ok && |videoTrack.packets| > 0 ==>
        && (forall j :: 0 <= j < read ==> |Filled(old(preloadedFrames), videoTrack.packets, old(videoTrack.cursor), j)| < size)
        && videoTrack.cursor == CursorAfter(old(videoTrack.cursor), |videoTrack.packets|, read)
    {
      read := 0;
      if |preloadedFrames| >= size {
        return true, read;
      }
      if |videoTrack.packets| == 0 {
        // the loop's first read finds no packet, even after the rewind
        ok := BufferNextPacket();
        return ok, read;
      }
      ghost var last;
      read, last := FillFrom(size);
      ShortBefore(old(preloadedFrames), videoTrack.packets, old(videoTrack.cursor), last, size);
      return true, read;
    }

    /**
     * The fill loop on a track with packets and a buffer short of `size`: it ends, with exactly
     * `size` frames, after `read` reads, the last of them the first to reach `size`.
     */
    method FillFrom(size: int) returns (ghost read: nat, ghost last: nat)
      requires Valid() && |preloadedFrames| < size <= FRAME_BUFFER_SIZE
      requires 0 < |videoTrack.packets| && size <= |Timestamps(videoTrack.packets)|
      modifies this, videoTrack
      ensures Valid() && running == old(running)
      ensures |preloadedFrames| == size && 0 < read
      ensures preloadedFrames == Filled(old(preloadedFrames), videoTrack.packets, old(videoTrack.cursor), read)
      ensures videoTrack.cursor == CursorAfter(old(videoTrack.cursor), |videoTrack.packets|, read)
      ensures read == last + 1 && |Filled(old(preloadedFrames), videoTrack.packets, old(videoTrack.cursor), last)| < size
      ensures buffers == old(buffers) != null || (old(buffers) == null && buffers != null && fresh(buffers))
    {
      ghost var start, from, n := preloadedFrames, videoTrack.cursor, |videoTrack.packets|;
      ghost var wrapped := false;
      last := 0;
      read := 0;
      while |preloadedFrames| < size
        invariant Valid() && running == old(running)
        invariant |preloadedFrames| <= size
        invariant buffers == old(buffers) || (old(buffers) == null && buffers != null && fresh(buffers))
        invariant read > 0 ==> buffers != null
        invariant RewoundPrefix(wrapped)
        invariant preloadedFrames == Filled(start, videoTrack.packets, from, read)
        invariant read > 0 ==> read == last + 1 && |Filled(start, videoTrack.packets, from, last)| < size
        invariant videoTrack.cursor == CursorAfter(from, n, read)
        decreases Unread(wrapped)
      {
        last := read;
        wrapped := FillOnce(size, start, from, last, wrapped);
        read := last + 1;
      }
    }

    /**
     * Once the fill has rewound the track, every packet before the cursor is buffered: the
     * loop's argument that a second pass over the track cannot run to its end.
     */
    ghost predicate RewoundPrefix(wrapped: bool)
      reads this, videoTrack
    {
      BufferedPrefix(videoTrack.packets, videoTrack.cursor, preloadedFrames.Keys, wrapped)
    }

    /** The fill loop's termination measure: the packets left to read on this pass and the next. */
    ghost function Unread(wrapped: bool): nat
      reads this, videoTrack
    {
      UnreadFrom(|videoTrack.packets|, videoTrack.cursor, wrapped)
    }

    /**
     * One pass of the fill loop, with its ghost bookkeeping: after `k` reads from `from` one more
     * packet is read and buffered, and `rewound` records whether the track has been rewound.
     */
    method FillOnce(size: int, ghost start: map<Timestamp, Image>, ghost from: nat, ghost k: nat, ghost wrapped: bool)
      returns (ghost rewound: bool)
      requires Valid() && |preloadedFrames| < size <= FRAME_BUFFER_SIZE
      requires 0 < |videoTrack.packets| && size <= |Timestamps(videoTrack.packets)| && from <= |videoTrack.packets|
      requires RewoundPrefix(wrapped)
      requires preloadedFrames == Filled(start, videoTrack.packets, from, k)
      requires videoTrack.cursor == CursorAfter(from, |videoTrack.packets|, k)
      modifies this, videoTrack
      ensures Valid() && running == old(running)
      ensures |preloadedFrames| <= size
      ensures buffers == old(buffers) != null || (old(buffers) == null && buffers != null && fresh(buffers))
      ensures RewoundPrefix(rewound)
      ensures preloadedFrames == Filled(start, videoTrack.packets, from, k + 1)
      ensures videoTrack.cursor == CursorAfter(from, |videoTrack.packets|, k + 1)
      ensures Unread(rewound) < old(Unread(wrapped))
    {
      ghost var previous := preloadedFrames;
      ghost var now := videoTrack.cursor;
      ghost var at := if now < |videoTrack.packets| then now else 0;
      assert at == ReadIndex(from, |videoTrack.packets|, k);
      var more := BufferNextPacket();
      assert preloadedFrames.Keys == previous.Keys + {videoTrack.packets[at].pts};
      rewound := RewindStep(videoTrack.packets, size, previous, now, wrapped, preloadedFrames.Keys);
    }

    /**
     * The body of the fill loop: read the next packet, rewinding first at the end of the track,
     * decode it into the scratch planes and buffer its image under the packet's timestamp.
     * Returns false where the source dereferences a null packet: the track is empty.
     */
    method BufferNextPacket() returns (ok: bool)
      requires Valid() && |preloadedFrames| < FRAME_BUFFER_SIZE
      modifies this, videoTrack
      ensures Valid() && running == old(running)
      ensures ok <==> |videoTrack.packets| > 0
      ensures !ok ==> preloadedFrames == old(preloadedFrames) && buffers == old(buffers) && videoTrack.cursor == 0
      ensures ok ==>
        var at := if old(videoTrack.cursor) < |videoTrack.packets| then old(videoTrack.cursor) else 0;
        && videoTrack.cursor == at + 1
        && preloadedFrames == old(preloadedFrames)[videoTrack.packets[at].pts := ToImage(videoTrack.packets[at].data.decoded)]
        && buffers != null
      ensures old(buffers) != null ==> buffers == old(buffers)
      ensures buffers != old(buffers) ==> fresh(buffers)
    {
      var frame := videoTrack.NextFrame();
      if frame.None? {
        videoTrack.GotoFirstFrame();
        frame := videoTrack.NextFrame();
        if frame.None? {
          return false;
        }
      }
      var packet := frame.value;
      var _ := GetBuffer();
      var image := ToBufferedImage(packet.data.decoded);
      preloadedFrames := preloadedFrames[packet.pts := image];
      return true;
    }

    /**
     * The scratch planes handed to the H.264 decoder: allocated on the first call from the frame
     * size of the codec-private data, the same arrays on every later call.
     */
    method GetBuffer() returns (b: array<array?<bv8>>)
      requires Valid()
      modifies this
      ensures Valid()
      ensures preloadedFrames == old(preloadedFrames) && running == old(running)
      ensures b == buffers
      ensures HasLayout(b, ScratchLayout(FrameSize(videoTrack.meta.codecPrivate)))
      ensures old(buffers) != null ==> b == old(buffers)
      ensures old(buffers) == null ==> fresh(b) && FreshPlanes(b)
    {
      if buffers == null {
        var size := CalcBufferSize(videoTrack.meta.codecPrivate);
        FrameSizeIsSixteenTimesMaximum(videoTrack.meta.codecPrivate);
        LevelLimitedArea(size);
        Yuv444Layout(size.width, size.height);
        buffers := AllocatePlanes(YUV444, size.width, size.height);
      }
      b := buffers;
    }

    /**
     * The consumer's side: remove and return the buffered frame with the smallest timestamp, or
     * nothing when the buffer is empty.
     */
    method GetFrame() returns (frame: Option<Image>)
      requires Valid()
      modifies this
      ensures Valid()
      ensures running == old(running) && buffers == old(buffers)
      ensures old(preloadedFrames) == map[] ==> frame == None && preloadedFrames == old(preloadedFrames)
      ensures old(preloadedFrames) != map[] ==>
        var first := Least(old(preloadedFrames).Keys);
        && frame == Some(old(preloadedFrames)[first])
        && preloadedFrames == old(preloadedFrames) - {first}
        && frame.value == Drained(old(preloadedFrames))[0]
        && Drained(preloadedFrames) == Drained(old(preloadedFrames))[1..]
    {
      if preloadedFrames == map[] {
        return None;
      }
      var first := LeastOf(preloadedFrames.Keys);
      frame := Some(preloadedFrames[first]);
      preloadedFrames := preloadedFrames - {first};
    }

    /** `setRunning(false)`: the run loop stops after its current pass. */
    method Stop()
      modifies this
      ensures !running
      ensures preloadedFrames == old(preloadedFrames) && buffers == old(buffers)
    {
      running := false;
    }

    /**
     * One pass of the thread's run loop: while running, top the buffer up to
     * `FRAME_BUFFER_SIZE` frames. Returns whether the loop goes on.
     */
    method RunOnce() returns (more: bool, ghost read: nat)
      requires Valid() && |videoTrack.packets| > 0
      requires FRAME_BUFFER_SIZE <= |Timestamps(videoTrack.packets)|
      modifies this, videoTrack
      ensures Valid() && more == running == old(running)
      ensures old(running) ==>
        && |preloadedFrames| == FRAME_BUFFER_SIZE && old(preloadedFrames).Keys <= preloadedFrames.Keys
        && preloadedFrames == Filled(old(preloadedFrames), videoTrack.packets, old(videoTrack.cursor), read)
        && (forall j :: 0 <= j < read ==> |Filled(old(preloadedFrames), videoTrack.packets, old(videoTrack.cursor), j)| < FRAME_BUFFER_SIZE)
        && videoTrack.cursor == CursorAfter(old(videoTrack.cursor), |videoTrack.packets|, read)
      ensures !old(running) ==> preloadedFrames == old(preloadedFrames) && videoTrack.cursor == old(videoTrack.cursor)
    {
      read := 0;
      if running {
        var filled;
        filled, read := BufferFrames(FRAME_BUFFER_SIZE);
      }
      more := running;
    }
  }

  /** Each read adds a frame or replaces one: the buffer never shrinks. */
  lemma {:induction false} FilledGrows(start: map<Timestamp, Image>, packets: seq<Packet>, from: nat, j: nat, k: nat)
    requires 0 < |packets| && from <= |packets| && Decodable(packets)
    requires j <= k
    ensures Filled(start, packets, from, j).Keys <= Filled(start, packets, from, k).Keys
    ensures |Filled(start, packets, from, j)| <= |Filled(start, packets, from, k)|
    decreases k
  {
    if j < k {
      FilledGrows(start, packets, from, j, k - 1);
      SubsetSize(Filled(start, packets, from, j).Keys, Filled(start, packets, from, k).Keys);
    }
  }

  /** A fill still short of `size` after read `k` was short after every read before it too. */
  lemma ShortBefore(start: map<Timestamp, Image>, packets: seq<Packet>, from: nat, k: nat, size: int)
    requires 0 < |packets| && from <= |packets| && Decodable(packets)
    requires |Filled(start, packets, from, k)| < size
    ensures forall j :: 0 <= j < k + 1 ==> |Filled(start, packets, from, j)| < size
  {
    forall j | 0 <= j < k + 1
      ensures |Filled(start, packets, from, j)| < size
    {
      FilledGrows(start, packets, from, j, k);
    }
  }

  /** Once `wrapped`, every packet before `cursor` has its timestamp among `keys`. */
  ghost predicate BufferedPrefix(packets: seq<Packet>, cursor: nat, keys: set<Timestamp>, wrapped: bool)
  {
    wrapped ==> 0 < cursor <= |packets| && forall i :: 0 <= i < cursor ==> packets[i].pts in keys
  }

  /** The packets left to read from `cursor` on this pass, and the whole next pass unless `wrapped`. */
  function UnreadFrom(n: nat, cursor: nat, wrapped: bool): nat
  {
    if cursor <= n then (if wrapped then 0 else n) + n - cursor else 0
  }

  /**
   * The bookkeeping of one read: the packet under the cursor (the first one at the end of the
   * track) is buffered; the track counts as rewound from then on, and fewer packets are left.
   */
  lemma RewindStep(packets: seq<Packet>, size: int, frames: map<Timestamp, Image>, now: nat, wrapped: bool,
                   after: set<Timestamp>) returns (rewound: bool)
    requires 0 < |packets| && now <= |packets| && size <= |Timestamps(packets)| && |frames| < size
    requires BufferedPrefix(packets, now, frames.Keys, wrapped)
    requires after == frames.Keys + {packets[if now < |packets| then now else 0].pts}
    ensures var at := if now < |packets| then now else 0;
      && rewound == (wrapped || at == 0)
      && BufferedPrefix(packets, at + 1, after, rewound)
      && UnreadFrom(|packets|, at + 1, rewound) < UnreadFrom(|packets|, now, wrapped)
  {
    if wrapped {
      RewoundBeforeEnd(packets, size, frames, now);
    }
    var at := if now < |packets| then now else 0;
    rewound := wrapped || at == 0;
    if rewound {
      PrefixBuffered(packets, frames.Keys, after, at);
    }
  }

  /** The packets read since the rewind stay buffered when one more is read and buffered. */
  lemma PrefixBuffered(packets: seq<Packet>, before: set<Timestamp>, after: set<Timestamp>, c: nat)
    requires c < |packets|
    requires forall i :: 0 <= i < c ==> packets[i].pts in before
    requires after == before + {packets[c].pts}
    ensures forall i :: 0 <= i <= c ==> packets[i].pts in after
  {
  }

  /**
   * Once the fill has rewound the track and buffered every packet before the cursor, the cursor
   * cannot be at the end of the track while the buffer is still short of a target the track's
   * timestamps can reach: by then every timestamp would be buffered.
   */
  lemma RewoundBeforeEnd(packets: seq<Packet>, size: int, frames: map<Timestamp, Image>, now: nat)
    requires now <= |packets| && size <= |Timestamps(packets)| && |frames| < size
    requires forall i :: 0 <= i < now ==> packets[i].pts in frames
    ensures now < |packets|
  {
    if now == |packets| {
      assert Timestamps(packets) <= frames.Keys;
      SubsetSize(Timestamps(packets), frames.Keys);
    }
  }

  /**
   * When the track has fewer distinct timestamps than the fill target, no sequence of packets
   * read from it ever brings the buffer to the target: the fill loop would never stop.
   */
  lemma FillNeverReachesCapacity(frames: map<Timestamp, Image>, packets: seq<Packet>, read: seq<(Timestamp, Image)>, size: int)
    requires frames.Keys <= Timestamps(packets)
    requires forall i :: 0 <= i < |read| ==> read[i].0 in Timestamps(packets)
    requires |Timestamps(packets)| < size
    ensures |PutAll(frames, read)| < size
  {
    assert PutAll(frames, read).Keys <= Timestamps(packets);
    SubsetSize(PutAll(frames, read).Keys, Timestamps(packets));
  }

  /** `JCodecMP4Decoder`: the consumer-facing wrapper around the decoding thread. */
  class Mp4Decoder {
    var valid: bool
    var frameGrab: DecoderThread?

    ghost predicate Valid()
      reads this, frameGrab, if frameGrab != null then frameGrab.Repr() else {}
    {
      && (!valid ==> frameGrab == null)
      && (frameGrab != null ==> frameGrab.Valid())
    }

    constructor (valid: bool, frameGrab: DecoderThread?)
      ensures this.valid == valid && this.frameGrab == frameGrab
    {
      this.valid := valid;
      this.frameGrab := frameGrab;
    }

    /**
     * Open a demuxed file. A file without a video track, or whose first video track is not
     * H.264, gives a decoder that is not valid; an empty H.264 track fails with the null packet.
     */
    static method Open(d: Demuxer) returns (r: Result<Mp4Decoder, OpenError>, ghost read: nat)
      requires d.JustOpened()
      requires SelectH264Track(d).Success? ==> WithinLevelLimits(d.videoTracks[0].meta.codecPrivate)
      requires SelectH264Track(d).Success? ==>
        |d.videoTracks[0].packets| == 0 || FRAME_BUFFER_SIZE <= |Timestamps(d.videoTracks[0].packets)|
      modifies if |d.videoTracks| > 0 then {d.videoTracks[0]} else {}
      ensures SelectH264Track(d).Failure? ==> r.Success? && !r.value.valid && r.value.frameGrab == null
      ensures SelectH264Track(d).Success? && |d.videoTracks[0].packets| == 0 ==> r == Failure(NullPacket)
      ensures SelectH264Track(d).Success? && |d.videoTracks[0].packets| > 0 ==>
        && r.Success? && fresh(r.value) && r.value.valid && r.value.Valid()
        && r.value.frameGrab != null && fresh(r.value.frameGrab)
        && r.value.frameGrab.videoTrack == d.videoTracks[0]
        && |r.value.frameGrab.preloadedFrames| == FRAME_BUFFER_SIZE && r.value.frameGrab.running
        && 0 < read
        && r.value.frameGrab.preloadedFrames == Filled(map[], d.videoTracks[0].packets, 0, read)
        && (forall j :: 0 <= j < read ==> |Filled(map[], d.videoTracks[0].packets, 0, j)| < FRAME_BUFFER_SIZE)
        && d.videoTracks[0].cursor == CursorAfter(0, |d.videoTracks[0].packets|, read)
    {
      var thread;
      thread, read := DecoderThread.Create(d);
      if thread.Failure? {
        if thread.error == NullPacket {
          return Failure(NullPacket), read;
        }
        var decoder := new Mp4Decoder(false, null);
        return Success(decoder), read;
      }
      var decoder := new Mp4Decoder(true, thread.value);
      return Success(decoder), read;
    }

    /** The next frame in timestamp order, or nothing when the buffer has run dry. */
    method GetNextFrame() returns (frame: Option<Image>)
      requires Valid() && frameGrab != null
      modifies frameGrab
      ensures Valid() && frameGrab == old(frameGrab)
      ensures frameGrab.running == old(frameGrab.running) && frameGrab.buffers == old(frameGrab.buffers)
      ensures old(frameGrab.preloadedFrames) == map[] ==> frame == None && frameGrab.preloadedFrames == old(frameGrab.preloadedFrames)
      ensures old(frameGrab.preloadedFrames) != map[] ==>
        var first := Least(old(frameGrab.preloadedFrames).Keys);
        && frame == Some(old(frameGrab.preloadedFrames)[first])
        && frameGrab.preloadedFrames == old(frameGrab.preloadedFrames) - {first}
        && frame.value == Drained(old(frameGrab.preloadedFrames))[0]
        && Drained(frameGrab.preloadedFrames) == Drained(old(frameGrab.preloadedFrames))[1..]
    {
      frame := frameGrab.GetFrame();
    }

    /** Stop the decoding thread and drop it. */
    method Destroy()
      requires Valid() && frameGrab != null
      modifies this, frameGrab
      ensures Valid() && frameGrab == null && valid == old(valid)
      ensures !old(frameGrab).running
    {
      frameGrab.Stop();
      frameGrab := null;
    }
  }
}
