/**
 * What the decoders consume from jcodec's MP4 demuxer: video tracks of packets, each with a
 * presentation timestamp and a byte buffer, read through a cursor that can be sent back to the
 * first frame.
 */
module Media {

  import opened Wrappers
  import opened TimestampOrder
  import opened JCodecUtil

  /**
   * A packet's encoded bytes. Only the position and limit are modelled; the bitstream itself
   * is represented by `decoded`, the RGB picture the external H.264 decoder and colour
   * transform produce from it.
   */
  class ByteBuffer {
    var position: nat
    var limit: nat
    const capacity: nat
    const decoded: RgbPicture

    constructor (capacity: nat, decoded: RgbPicture)
      ensures this.capacity == capacity && this.decoded == decoded
      ensures position == 0 && limit == capacity
    {
      this.capacity := capacity;
      this.decoded := decoded;
      position := 0;
      limit := capacity;
    }

    /** `rewind()`: the position goes back to 0, the limit stays. */
    method Rewind()
      modifies this
      ensures position == 0 && limit == old(limit)
    {
      position := 0;
    }

    /** `clear()`: the position goes back to 0 and the limit to the capacity. */
    method Clear()
      modifies this
      ensures position == 0 && limit == capacity
    {
      position := 0;
      limit := capacity;
    }
  }

  /** The buffer has been read up to its limit, which stayed where it was. */
  twostate predicate ReadToLimit(b: ByteBuffer)
    reads b
  {
    b.position == b.limit && b.limit == old(b.limit)
  }

  /**
   * `decoder.decodeFrame(data, planes)` as far as the buffer goes: jcodec reads the frame's NAL
   * units from the position up to the limit, so the whole frame is decoded only from a buffer
   * at its start, and the buffer is consumed. The picture is the one the packet's bytes encode.
   */
  method DecodeFrame(data: ByteBuffer) returns (picture: RgbPicture)
    requires data.position == 0
    modifies data
    ensures picture == data.decoded
    ensures ReadToLimit(data)
  {
    picture := data.decoded;
    data.position := data.limit;
  }

  /** One encoded frame of the track with its presentation timestamp. */
  datatype Packet = Packet(pts: Timestamp, data: ByteBuffer)

  datatype Codec = H264 | OtherCodec

  /** Track metadata: the codec, the frame count the container declares, and the codec-private NAL units. */
  datatype TrackMeta = TrackMeta(codec: Codec, totalFrames: int, codecPrivate: seq<NalUnit>)

  /** The timestamps occurring among some packets. */
  function Timestamps(packets: seq<Packet>): (ts: set<Timestamp>)
    ensures forall i :: 0 <= i < |packets| ==> packets[i].pts in ts
    ensures forall t :: t in ts ==> exists i :: 0 <= i < |packets| && packets[i].pts == t
  {
    set i | 0 <= i < |packets| :: packets[i].pts
  }

  /** Every packet decodes to a picture with a sample triple per pixel. */
  ghost predicate Decodable(packets: seq<Packet>)
  {
    forall i :: 0 <= i < |packets| ==> packets[i].data.decoded.WellFormed()
  }

  /** A demuxed video track: its packets in file order and the index of the next one to read. */
  class SeekableTrack {
    const meta: TrackMeta
    const packets: seq<Packet>
    var cursor: nat

    ghost predicate Valid()
      reads this
    {
      && cursor <= |packets|
      && Decodable(packets)
    }

    constructor (meta: TrackMeta, packets: seq<Packet>)
      requires Decodable(packets)
      ensures Valid() && this.meta == meta && this.packets == packets && cursor == 0
    {
      this.meta := meta;
      this.packets := packets;
      cursor := 0;
    }

    /** `nextFrame()`: the packet under the cursor, advancing past it, or null at end of stream. */
    method NextFrame() returns (frame: Option<Packet>)
      requires Valid()
      modifies this
      ensures Valid()
      ensures old(cursor) < |packets| ==> frame == Some(packets[old(cursor)]) && cursor == old(cursor) + 1
      ensures old(cursor) == |packets| ==> frame == None && cursor == old(cursor)
    {
      if cursor < |packets| {
        frame := Some(packets[cursor]);
        cursor := cursor + 1;
      } else {
        frame := None;
      }
    }

    /** `gotoFrame(0)`: the next packet read is the first of the track. */
    method GotoFirstFrame()
      requires Valid()
      modifies this
      ensures Valid() && cursor == 0
    {
      cursor := 0;
    }
  }

  /** The video tracks an MP4 file was demuxed into. */
  datatype Demuxer = Demuxer(videoTracks: seq<SeekableTrack>)
  {
    /** As `createMP4Demuxer` hands it over: every track valid and positioned at its first packet. */
    ghost predicate JustOpened()
      reads set i | 0 <= i < |videoTracks| :: videoTracks[i]
    {
      forall i :: 0 <= i < |videoTracks| ==> videoTracks[i].Valid() && videoTracks[i].cursor == 0
    }
  }

  /** Why opening a video fails. */
  datatype OpenError =
    | NoVideoTrack      // IllegalArgumentException "MP4 file has no video track."
    | UnsupportedCodec  // IllegalArgumentException "MP4 file must be in H264 format."
    | NoFrames          // IllegalStateException "MP4 file has no frames."
    | NullPacket        // NullPointerException: an empty track still yields no packet after the rewind

  /** The checks both decoders start with: take the first video track, and it must be H.264. */
  function SelectH264Track(d: Demuxer): (r: Result<SeekableTrack, OpenError>)
    ensures r == Failure(NoVideoTrack) <==> |d.videoTracks| == 0
    ensures r == Failure(UnsupportedCodec) <==> |d.videoTracks| > 0 && d.videoTracks[0].meta.codec != H264
    ensures r.Success? <==> |d.videoTracks| > 0 && d.videoTracks[0].meta.codec == H264
    ensures r.Success? ==> r.value == d.videoTracks[0]
  {
    if |d.videoTracks| == 0 then Failure(NoVideoTrack)
    else if d.videoTracks[0].meta.codec != H264 then Failure(UnsupportedCodec)
    else Success(d.videoTracks[0])
  }
}
