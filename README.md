# Login-screen video decoders and the enum manager, modelled in Dafny

This project models two parts of RuneLite.

**The login-screen video decoders.** Both decoders read an MP4 file through jcodec's demuxer. They decode H.264 frames and turn them into packed `0xRRGGBB` images.

- `JCodecMP4Decoder` runs a decoding thread. The thread keeps up to 35 decoded frames in a `TreeMap` keyed by presentation timestamp. It rewinds the track at its end. The consumer takes the frame with the smallest timestamp.
- `CachingJCodecMP4Decoder` reads every packet of the track once into a timestamp-ordered map. It then decodes the cached packets in timestamp order. A frame counter wraps at the frame count the container declares.
- Both use the same helpers:
  - the RGB packing loop (`toBufferedImage`);
  - the frame size taken from the sequence parameter sets (SPS) of the codec-private data (`calcBufferSize`);
  - the planar scratch layout of a YUV 4:4:4 picture.

**The cache's `EnumManager`.** It holds a map from id to enum definition, filled from the enum archive. It writes one JSON file per definition. It also generates Java classes of named constants:

- the constants are named after the keys, or after the values in reversed mode;
- a negative number `-n` is spelled `NEGATIVE_n`.

**Modules:**

| Module | Contents |
|---|---|
| `JavaInt` | Java `int` wrap-around, shifts and bitwise or. |
| `JCodecUtil` | Pixel packing and its round trip, and the SPS frame size. |
| `PictureLayout` | Plane sizes and plane allocation. |
| `TimestampOrder` | The ascending order in which a `TreeMap<Double, _>` hands out its entries. |
| `MapFold` | A map filled by `put` in a loop. |
| `Media` | Packets, byte buffers, tracks and the demuxer. |
| `Mp4Decoder` | The decoding thread and the outer decoder. |
| `CachingDecoder` | The caching decoder. |
| `EnumManager` | The enum registry. |

`JCodecMP4Decoder.MP4DecoderThread` has private copies of `calcBufferSize` and `toBufferedImage` at JCodecMP4Decoder.java:226-295. They are the same code as `JCodecUtil`'s, so both decoders use `JCodecUtil.CalcBufferSize` and `JCodecUtil.ToBufferedImage`. `JCodecMP4FrameGrab` only forwards calls to the thread, so the outer `Mp4Decoder` class holds the thread directly.

Things outside the code are modelled as data:

- **Decoding.** The bytes a packet holds are represented by the RGB picture jcodec's H.264 decoder and colour transform would make of them (`ByteBuffer.decoded`).
- **SPS parsing.** The codec-private data is the sequence of NAL units jcodec would parse out of it. An SPS is reduced to the two fields the size depends on, as defined in section 7.4.2.1.1 of ITU-T Rec. H.264.
- **Timestamps.** Timestamps are `real`, ordered as `Double::compare` orders them.

## Model

| member | source | states |
|---|---|---|
| JavaInt.Wrap32 | runelite-client/src/main/java/net/runelite/client/plugins/loginscreen/JCodecUtil.java:93 | Int arithmetic: a value that fits in an `int` is kept as is, and any other value is congruent to the result modulo 2^32. |
| JavaInt.ShiftRight | runelite-client/src/main/java/net/runelite/client/plugins/loginscreen/CachingJCodecMP4Decoder.java:153 | `>>` of a non-negative `int` is non-negative. |
| JavaInt.ShiftLeft | runelite-client/src/main/java/net/runelite/client/plugins/loginscreen/JCodecUtil.java:107 | `x << k` on an `int`: `x·2^k` wrapped to 32 bits. `ShiftLeft4OfMin` and `ShiftLeft4Scales` give its two cases at `k = 4`. |
| JavaInt.OrOfDisjointIsSum | runelite-client/src/main/java/net/runelite/client/plugins/loginscreen/JCodecUtil.java:57-59 | Or-ing a value below 2^k into a multiple of 2^k is addition. |
| JavaInt.Or | runelite-client/src/main/java/net/runelite/client/plugins/loginscreen/JCodecUtil.java:58-59 | Bitwise `\|` on non-negative values, bit by bit from the lowest. `OrOfDisjointIsSum` turns it into addition where the bits do not overlap. |
| JavaInt.ShiftLeft4OfMin | runelite-client/src/main/java/net/runelite/client/plugins/loginscreen/JCodecUtil.java:107 | `Integer.MIN_VALUE << 4` is 0. |
| JavaInt.ShiftLeft4Scales | runelite-client/src/main/java/net/runelite/client/plugins/loginscreen/JCodecUtil.java:107 | `x << 4` is `16 * x` when the product fits in an `int`. |
| JCodecUtil.Unbias | runelite-client/src/main/java/net/runelite/client/plugins/loginscreen/JCodecUtil.java:57-59 | A signed sample plus 128 is a channel value in [0, 255]. |
| JCodecUtil.Pack | runelite-client/src/main/java/net/runelite/client/plugins/loginscreen/JCodecUtil.java:57-59 | One pixel: the three unbiased samples shifted by 16, 8 and 0 and or-ed together. `PackIsSum` and `UnpackPack` characterise it. |
| JCodecUtil.PackIsSum | runelite-client/src/main/java/net/runelite/client/plugins/loginscreen/JCodecUtil.java:57-59 | A packed pixel is `(r+128)*65536 + (g+128)*256 + (b+128)`, and lies in [0, 0xFFFFFF]. |
| JCodecUtil.UnpackPack | runelite-client/src/main/java/net/runelite/client/plugins/loginscreen/JCodecUtil.java:57-59 | `((p >> 16) & 0xFF) - 128`, and the same at shifts 8 and 0, recover r, g and b from a packed pixel. |
| JCodecUtil.PackedPixels | runelite-client/src/main/java/net/runelite/client/plugins/loginscreen/JCodecUtil.java:55-61 | Packing `n` pixels gives exactly `n` values. |
| JCodecUtil.PackedPixelAt | runelite-client/src/main/java/net/runelite/client/plugins/loginscreen/JCodecUtil.java:55-60 | Pixel `i` is packed from samples `3i`, `3i+1` and `3i+2` and nothing else. |
| JCodecUtil.PackedPixelsInRange | runelite-client/src/main/java/net/runelite/client/plugins/loginscreen/JCodecUtil.java:55-61 | Every packed pixel lies in [0, 0xFFFFFF]. |
| JCodecUtil.UnpackPackedPixels | runelite-client/src/main/java/net/runelite/client/plugins/loginscreen/JCodecUtil.java:55-62 | Round trip: unpacking the pixels of an image gives back the first `3n` samples of the plane. |
| JCodecUtil.UnpackedSampleAt | runelite-client/src/main/java/net/runelite/client/plugins/loginscreen/JCodecUtil.java:55-61 | Sample `j` comes back as channel `j % 3` of pixel `j / 3`. |
| JCodecUtil.ZeroPlaneIsMidGrey | runelite-client/src/main/java/net/runelite/client/plugins/loginscreen/JCodecUtil.java:57-59 | An all-zero plane packs to 0x808080 in every pixel. |
| JCodecUtil.ToImage | runelite-client/src/main/java/net/runelite/client/plugins/loginscreen/JCodecUtil.java:51-63 | The image `toBufferedImage` returns for an RGB picture: its dimensions and `Pack` of each sample triple. `PackedPixelAt` and `UnpackPackedPixels` characterise it. |
| JCodecUtil.ToBufferedImage | runelite-client/src/main/java/net/runelite/client/plugins/loginscreen/JCodecUtil.java:51-63 | For a picture `BufferedImage` accepts (positive dimensions) whose sample indices `i * 3` stay within an `int`, the loop fills `width*height` pixels. Each one is the packing of its three samples, as `ToImage` describes. |
| JCodecUtil.MbCount | runelite-client/src/main/java/net/runelite/client/plugins/loginscreen/JCodecUtil.java:92-104 | The macroblock count one SPS gives a side: `picWidthInMbsMinus1 + 1` in `int` arithmetic for the width, `getPicHeightInMbs` for the height. |
| JCodecUtil.MaxMbs | runelite-client/src/main/java/net/runelite/client/plugins/loginscreen/JCodecUtil.java:69-105 | The running maximum `w` or `h` after the units so far: `Integer.MIN_VALUE` at the start, raised by each SPS and unchanged by other units. `MaxMbsIsMaximum` and `OtherUnitsIgnored` characterise it. |
| JCodecUtil.FrameSize | runelite-client/src/main/java/net/runelite/client/plugins/loginscreen/JCodecUtil.java:107 | The returned size: both maxima shifted left by 4 in `int` arithmetic. `FrameSizeIsSixteenTimesMaximum` and `NoSpsGivesEmptySize` characterise it. |
| JCodecUtil.MaxMbsIsMaximum | runelite-client/src/main/java/net/runelite/client/plugins/loginscreen/JCodecUtil.java:92-105 | The running value is the maximum over the SPS units: none exceeds it, and some SPS attains it unless there is none, in which case it stays `Integer.MIN_VALUE`. |
| JCodecUtil.OtherUnitsIgnored | runelite-client/src/main/java/net/runelite/client/plugins/loginscreen/JCodecUtil.java:83-86 | Dropping every non-SPS unit leaves both maxima unchanged. |
| JCodecUtil.NoSpsGivesEmptySize | runelite-client/src/main/java/net/runelite/client/plugins/loginscreen/JCodecUtil.java:69-107 | Without an SPS the size is 0 x 0. |
| JCodecUtil.FrameSizeIsSixteenTimesMaximum | runelite-client/src/main/java/net/runelite/client/plugins/loginscreen/JCodecUtil.java:92-107 | Within the H.264 level limits (`WithinLevelLimits`), with an SPS, the width is 16 times the largest `picWidthInMbsMinus1 + 1` and the height 16 times the largest height in macroblocks. Both are non-negative. |
| JCodecUtil.FrameSizeWrapsBeyondLimits | runelite-client/src/main/java/net/runelite/client/plugins/loginscreen/JCodecUtil.java:93-107 | Beyond the level limits `w << 4` wraps: an SPS with `picWidthInMbsMinus1 = 2^28` gives a width of 16. |
| JCodecUtil.LevelLimitedArea | runelite-client/src/main/java/net/runelite/client/plugins/loginscreen/JCodecUtil.java:107 | A frame of at most 16·1055 pixels per side, as the H.264 level limits allow, has a pixel count whose triple still fits in an `int`. |
| JCodecUtil.CalcBufferSize | runelite-client/src/main/java/net/runelite/client/plugins/loginscreen/JCodecUtil.java:66-108 | The scanning loop computes the frame size from the running maxima, shifted left by 4 in `int` arithmetic. |
| PictureLayout.ComponentSize | runelite-client/src/main/java/net/runelite/client/plugins/loginscreen/CachingJCodecMP4Decoder.java:153 | The sample count of a component is an `int` product wrapped to 32 bits. When the frame's pixel count fits in an `int` it lies between 0 and `width*height`. |
| PictureLayout.PlaneSize | runelite-client/src/main/java/net/runelite/client/plugins/loginscreen/CachingJCodecMP4Decoder.java:150-154 | Plane `p` after the first `n` components: each component stored in it adds its size with the wrapping `+=`. `PlaneSizeNonNegative` and `Yuv444PlaneSize` characterise it. |
| PictureLayout.PlaneSizes | runelite-client/src/main/java/net/runelite/client/plugins/loginscreen/CachingJCodecMP4Decoder.java:150-155 | The `planeSizes` array after the first loop: one size per plane index below `MAX_PLANES`. |
| PictureLayout.NonZero | runelite-client/src/main/java/net/runelite/client/plugins/loginscreen/CachingJCodecMP4Decoder.java:155-168 | The allocated plane sizes are all non-zero, and there are at most as many as there are plane indices. |
| PictureLayout.PlaneSizeNonNegative | runelite-client/src/main/java/net/runelite/client/plugins/loginscreen/CachingJCodecMP4Decoder.java:150-154 | When `nComp·width·height` fits in an `int`, no sum wraps: with non-negative dimensions every plane size is non-negative and at most `n` frames' worth of samples. |
| PictureLayout.Yuv444Layout | runelite-client/src/main/java/net/runelite/client/plugins/loginscreen/CachingJCodecMP4Decoder.java:146-168 | For a frame whose pixel count fits in an `int`, the YUV 4:4:4 sizes are `[w*h, w*h, w*h, 0]`. Three planes of `w*h` bytes are allocated, and none for an empty frame. |
| PictureLayout.Yuv444PlaneSize | runelite-client/src/main/java/net/runelite/client/plugins/loginscreen/CachingJCodecMP4Decoder.java:150-154 | For any dimensions, planes 0 to 2 of YUV 4:4:4 hold `w*h` wrapped to 32 bits, and plane 3 holds nothing. |
| PictureLayout.Yuv444WrapsToEmpty | runelite-client/src/main/java/net/runelite/client/plugins/loginscreen/CachingJCodecMP4Decoder.java:150-168 | At 65536 x 65536 the pixel count wraps to 0: every plane size is 0 and no plane is allocated. |
| PictureLayout.Yuv444WrapsNegative | runelite-client/src/main/java/net/runelite/client/plugins/loginscreen/CachingJCodecMP4Decoder.java:150-165 | At 46352 x 46352 the pixel count wraps to a negative plane size, for which `new byte[size]` throws. |
| PictureLayout.ComputePlaneSizes | runelite-client/src/main/java/net/runelite/client/plugins/loginscreen/CachingJCodecMP4Decoder.java:150-154 | The first loop gives every plane the `int` sum of the `int` sizes of the components stored in it, each wrapped as Java wraps it. |
| PictureLayout.CountPlanes | runelite-client/src/main/java/net/runelite/client/plugins/loginscreen/CachingJCodecMP4Decoder.java:155-159 | The second loop counts the non-zero plane sizes. |
| PictureLayout.AllocateNonZero | runelite-client/src/main/java/net/runelite/client/plugins/loginscreen/CachingJCodecMP4Decoder.java:161-168 | The third loop allocates one fresh array per non-zero size, in ascending plane index, each of that size, and no two planes share an array. |
| PictureLayout.AllocatePlanes | runelite-client/src/main/java/net/runelite/client/plugins/loginscreen/CachingJCodecMP4Decoder.java:150-168 | The whole computation, for plane sizes that are not negative (a negative one makes the allocation throw): fresh planes, each its own new array, laid out as the non-zero plane sizes of the colour space. |
| Media.ByteBuffer.Rewind | runelite-client/src/main/java/net/runelite/client/plugins/loginscreen/CachingJCodecMP4Decoder.java:108 | `rewind()` resets the position to 0 and keeps the limit. |
| Media.ByteBuffer.Clear | runelite-client/src/main/java/net/runelite/client/plugins/loginscreen/CachingJCodecMP4Decoder.java:119 | `clear()` resets the position to 0 and the limit to the capacity. |
| Media.SeekableTrack.NextFrame | runelite-client/src/main/java/net/runelite/client/plugins/loginscreen/JCodecMP4Decoder.java:186-187 | Returns the packet under the cursor and advances past it, or nothing at the end of the track. |
| Media.SeekableTrack.GotoFirstFrame | runelite-client/src/main/java/net/runelite/client/plugins/loginscreen/JCodecMP4Decoder.java:189 | After `gotoFrame(0)` the next packet read is the first. |
| Media.SelectH264Track | runelite-client/src/main/java/net/runelite/client/plugins/loginscreen/JCodecMP4Decoder.java:147-157 | No video track fails with `NoVideoTrack`. A first track that is not H.264 fails with `UnsupportedCodec`. Otherwise the result is the first track. Each case holds exactly under its condition. |
| Media.DecodeFrame | runelite-client/src/main/java/net/runelite/client/plugins/loginscreen/CachingJCodecMP4Decoder.java:110 | Decoding a buffer at its start gives the picture its bytes encode and consumes the buffer to its limit. |
| TimestampOrder.Least | runelite-client/src/main/java/net/runelite/client/plugins/loginscreen/JCodecMP4Decoder.java:205 | The key of `firstEntry()` is in the map and no key is smaller. |
| TimestampOrder.SortedKeys | runelite-client/src/main/java/net/runelite/client/plugins/loginscreen/CachingJCodecMP4Decoder.java:94 | Iteration order of a `TreeMap`: each key exactly once, strictly increasing. |
| TimestampOrder.DrainedInTimestampOrder | runelite-client/src/main/java/net/runelite/client/plugins/loginscreen/JCodecMP4Decoder.java:201-214 | Taking the first entry over and over hands out every value once, in ascending timestamp order. |
| TimestampOrder.Drained | runelite-client/src/main/java/net/runelite/client/plugins/loginscreen/JCodecMP4Decoder.java:201-214 | The images repeated `getFrame` calls hand out until the map is empty: the value under the least key, then the rest of the map drained the same way. |
| TimestampOrder.LeastOf | runelite-client/src/main/java/net/runelite/client/plugins/loginscreen/JCodecMP4Decoder.java:205 | The search finds the least key. |
| TimestampOrder.NthLeast | runelite-client/src/main/java/net/runelite/client/plugins/loginscreen/CachingJCodecMP4Decoder.java:94 | `skip(n).findFirst()` gives the key at position `n` in ascending order, or nothing when there are at most `n` keys. |
| MapFold.PutAll | cache/src/main/java/net/runelite/cache/EnumManager.java:72-76 | After `put` in a loop the keys are the old keys plus every key put. |
| MapFold.PutAllLastWins | runelite-client/src/main/java/net/runelite/client/plugins/loginscreen/CachingJCodecMP4Decoder.java:128-133 | A key holds the value of the last entry put under it. |
| MapFold.PutAllKeepsUnmentioned | cache/src/main/java/net/runelite/cache/EnumManager.java:72-76 | A key that is never put keeps its presence and value. |
| MapFold.PutExistingKeepsSize | runelite-client/src/main/java/net/runelite/client/plugins/loginscreen/JCodecMP4Decoder.java:196 | Putting under a timestamp already present replaces the image and keeps the size. |
| Mp4Decoder.DecoderThread.constructor | runelite-client/src/main/java/net/runelite/client/plugins/loginscreen/JCodecMP4Decoder.java:136-143 | The thread starts with an empty buffer, no scratch planes, and `running` set. |
| Mp4Decoder.DecoderThread.Create | runelite-client/src/main/java/net/runelite/client/plugins/loginscreen/JCodecMP4Decoder.java:141-162 | The track checks fail in the source's order. An empty H.264 track fails on the null packet. Otherwise the new thread holds exactly 35 frames: those of the packets read from the start of the track, rewinding at its end, up to the first read at which the buffer reaches 35. The cursor stands just past the last packet read. |
| Mp4Decoder.DecoderThread.BufferFrames | runelite-client/src/main/java/net/runelite/client/plugins/loginscreen/JCodecMP4Decoder.java:180-199 | On a non-empty track the new buffer is the old one with the packets read from the old cursor put under their timestamps in order, rewinding at the end of the track, up to the first read at which the buffer reaches `size`. The cursor stands just past the last packet read. A buffer already at `size` is left alone. It fails only on an empty track. |
| Mp4Decoder.DecoderThread.FillFrom | runelite-client/src/main/java/net/runelite/client/plugins/loginscreen/JCodecMP4Decoder.java:184-198 | The fill loop from a buffer short of `size` ends, with exactly `size` frames, after `read` reads. The buffer is the old one with those packets put, the last read is the first at which it reaches `size`, and the cursor stands after it. |
| Mp4Decoder.DecoderThread.FillOnce | runelite-client/src/main/java/net/runelite/client/plugins/loginscreen/JCodecMP4Decoder.java:186-197 | One pass of the fill loop performs exactly the next read: the buffer and cursor move from `k` reads to `k + 1`, and fewer packets are left before the loop must stop. |
| Mp4Decoder.DecoderThread.BufferNextPacket | runelite-client/src/main/java/net/runelite/client/plugins/loginscreen/JCodecMP4Decoder.java:186-197 | Reads the packet under the cursor, or the first packet after a rewind at the end. Its image is buffered under its timestamp, replacing any earlier one. |
| Mp4Decoder.DecoderThread.GetBuffer | runelite-client/src/main/java/net/runelite/client/plugins/loginscreen/JCodecMP4Decoder.java:216-224 | The first call allocates the YUV 4:4:4 planes for the SPS frame size, each a new array of its own. Every later call returns the same arrays. |
| Mp4Decoder.DecoderThread.GetFrame | runelite-client/src/main/java/net/runelite/client/plugins/loginscreen/JCodecMP4Decoder.java:201-214 | An empty buffer gives nothing and stays unchanged. Otherwise the call returns the image under the smallest timestamp and removes exactly that entry, and the remaining frames keep their drain order. |
| Mp4Decoder.DecoderThread.Stop | runelite-client/src/main/java/net/runelite/client/plugins/loginscreen/JCodecMP4Decoder.java:117-120 | `running` is cleared; the buffer is untouched. |
| Mp4Decoder.DecoderThread.RunOnce | runelite-client/src/main/java/net/runelite/client/plugins/loginscreen/JCodecMP4Decoder.java:164-178 | One pass of the run loop. While running, the buffer ends with exactly 35 frames: the old ones with the packets read from the cursor put in order, up to the first read at which it reaches 35. After `stop` nothing changes. |
| Mp4Decoder.CursorAfter | runelite-client/src/main/java/net/runelite/client/plugins/loginscreen/JCodecMP4Decoder.java:186-189 | After `k` reads the cursor is within the track, and past its start once anything has been read. |
| Mp4Decoder.ReadIndex | runelite-client/src/main/java/net/runelite/client/plugins/loginscreen/JCodecMP4Decoder.java:186-191 | Read `k` is of a packet of the track (the first one when the cursor stood at the end), and the cursor then stands just past it. |
| Mp4Decoder.Filled | runelite-client/src/main/java/net/runelite/client/plugins/loginscreen/JCodecMP4Decoder.java:196 | Reading packets only puts frames: every timestamp buffered before is still buffered. |
| Mp4Decoder.FilledGrows | runelite-client/src/main/java/net/runelite/client/plugins/loginscreen/JCodecMP4Decoder.java:184-198 | The buffer never shrinks as reads go on: its timestamps and its size only grow. |
| Mp4Decoder.ShortBefore | runelite-client/src/main/java/net/runelite/client/plugins/loginscreen/JCodecMP4Decoder.java:184 | A fill still short of `size` after read `k` was short after every earlier read too, so the loop stops at the first read that reaches `size`. |
| Mp4Decoder.RewindStep | runelite-client/src/main/java/net/runelite/client/plugins/loginscreen/JCodecMP4Decoder.java:186-197 | After one read the track counts as rewound exactly when it was already or the packet read is the first. Every packet read since the rewind stays buffered, and fewer packets are left to read. |
| Mp4Decoder.RewoundBeforeEnd | runelite-client/src/main/java/net/runelite/client/plugins/loginscreen/JCodecMP4Decoder.java:184-190 | After a rewind, with every packet before the cursor buffered and the buffer short of a target the track's timestamps can reach, the cursor is not at the end: a second pass never runs out. |
| Mp4Decoder.FillNeverReachesCapacity | runelite-client/src/main/java/net/runelite/client/plugins/loginscreen/JCodecMP4Decoder.java:184-198 | With fewer distinct timestamps than the target, no packets read from the track ever bring the buffer to the target: the fill loop cannot end. |
| Mp4Decoder.Mp4Decoder.Open | runelite-client/src/main/java/net/runelite/client/plugins/loginscreen/JCodecMP4Decoder.java:61-74 | A missing or non-H.264 track gives a decoder with `valid` false. An empty track fails with the uncaught null packet. Otherwise `valid` is true and the thread holds exactly the 35 frames read from the start of the track, as `Create` fills them. |
| Mp4Decoder.Mp4Decoder.GetNextFrame | runelite-client/src/main/java/net/runelite/client/plugins/loginscreen/JCodecMP4Decoder.java:76-87 | An empty buffer gives nothing and stays unchanged. Otherwise the frame under the smallest timestamp is returned and exactly that entry is removed; the rest keep their order. The thread keeps running and keeps its scratch planes. |
| Mp4Decoder.Mp4Decoder.Destroy | runelite-client/src/main/java/net/runelite/client/plugins/loginscreen/JCodecMP4Decoder.java:89-93 | Stops the thread and drops it. |
| CachingDecoder.CacheOfIsPutAll | runelite-client/src/main/java/net/runelite/client/plugins/loginscreen/CachingJCodecMP4Decoder.java:124-134 | Reading packets one by one is putting their `(timestamp, buffer)` entries in track order. |
| CachingDecoder.CacheStep | runelite-client/src/main/java/net/runelite/client/plugins/loginscreen/CachingJCodecMP4Decoder.java:131 | Caching one more packet puts its buffer over whatever the timestamp held. |
| CachingDecoder.CacheHoldsLastPacketPerTimestamp | runelite-client/src/main/java/net/runelite/client/plugins/loginscreen/CachingJCodecMP4Decoder.java:124-134 | The cache of a whole track holds exactly the track's timestamps. Under each one is the buffer of the last packet with that timestamp. |
| CachingDecoder.NextCount | runelite-client/src/main/java/net/runelite/client/plugins/loginscreen/CachingJCodecMP4Decoder.java:101-105 | The counter grows by one or wraps to 0, and stays in `[0, totalFrameCount)` once there. |
| CachingDecoder.AdvanceCycles | runelite-client/src/main/java/net/runelite/client/plugins/loginscreen/CachingJCodecMP4Decoder.java:94-105 | After `k` successful calls from `c` the counter is `c + k` modulo the total, so `totalFrameCount` calls return it to `c`. |
| CachingDecoder.CachingDecoder.constructor | runelite-client/src/main/java/net/runelite/client/plugins/loginscreen/CachingJCodecMP4Decoder.java:80-87 | Records the frame count and buffer size. The cache is filled from the rest of the track, and the counter starts at 0. |
| CachingDecoder.CachingDecoder.Open | runelite-client/src/main/java/net/runelite/client/plugins/loginscreen/CachingJCodecMP4Decoder.java:58-88 | Fails for no video track, then for a non-H.264 track, then for zero frames. Otherwise the cache holds the whole track and the buffer size is the SPS frame size. |
| CachingDecoder.CachingDecoder.Initialize | runelite-client/src/main/java/net/runelite/client/plugins/loginscreen/CachingJCodecMP4Decoder.java:124-134 | The cache becomes the old cache with every remaining packet put under its timestamp, and the track is read to its end. |
| CachingDecoder.CachingDecoder.CacheNextFrame | runelite-client/src/main/java/net/runelite/client/plugins/loginscreen/CachingJCodecMP4Decoder.java:128-133 | One round of the loop: a packet is read and cached exactly when the track has one left. |
| CachingDecoder.CachingDecoder.GetNextFrame | runelite-client/src/main/java/net/runelite/client/plugins/loginscreen/CachingJCodecMP4Decoder.java:90-112 | Succeeds exactly when the counter is below the number of cached frames. It then decodes the buffer at that position in timestamp order from its start, leaving it read to its limit, and advances the counter with wrap. On failure the counter has still grown by one. Scratch planes already allocated are kept, and a failure allocates none. |
| CachingDecoder.CachingDecoder.NextKey | runelite-client/src/main/java/net/runelite/client/plugins/loginscreen/CachingJCodecMP4Decoder.java:94-105 | The timestamp at the counter's position in ascending order, with the counter advanced and wrapped at the total; or nothing, with the counter grown by one. |
| CachingDecoder.CachingDecoder.Decode | runelite-client/src/main/java/net/runelite/client/plugins/loginscreen/CachingJCodecMP4Decoder.java:107-111 | The cached buffer is rewound, because the decoder reads from the position on. Its picture is decoded and converted, the buffer is left read to its limit, and the cache is unchanged. Scratch planes already allocated are reused. |
| CachingDecoder.CachingDecoder.Destroy | runelite-client/src/main/java/net/runelite/client/plugins/loginscreen/CachingJCodecMP4Decoder.java:114-122 | Every cached buffer is cleared. |
| CachingDecoder.CachingDecoder.GetPictureBuffer | runelite-client/src/main/java/net/runelite/client/plugins/loginscreen/CachingJCodecMP4Decoder.java:139-173 | The first call allocates three planes of `w*h` bytes for the buffer size, which the level limits keep from wrapping, and none for an empty frame; each plane is a new array of its own. Every later call returns the same arrays. |
| EnumManager.Digits | cache/src/main/java/net/runelite/cache/EnumManager.java:184 | `String.valueOf` of a natural number is a non-empty string of decimal digits. |
| EnumManager.DigitsRoundTrip | cache/src/main/java/net/runelite/cache/EnumManager.java:184 | The digits read back as the number. |
| EnumManager.IntString | cache/src/main/java/net/runelite/cache/EnumManager.java:184 | `String.valueOf` of an `int`: a `-` before the digits of the magnitude when negative, the digits otherwise. `IntStringRoundTrip` reads it back. |
| EnumManager.Mangle | cache/src/main/java/net/runelite/cache/EnumManager.java:184-188 | The constant name `java` gives a number: its decimal string, with a leading `-` replaced by `NEGATIVE_`. `MangleShape`, `MangleRoundTrip` and `MangleInjective` characterise it. |
| EnumManager.MangleShape | cache/src/main/java/net/runelite/cache/EnumManager.java:184-188 | A name is the digits of a non-negative number, or `NEGATIVE_` followed by the digits of `-n`. It never starts with `-`. |
| EnumManager.MangleRoundTrip | cache/src/main/java/net/runelite/cache/EnumManager.java:184-188 | The number can be read back from its constant name. |
| EnumManager.MangleInjective | cache/src/main/java/net/runelite/cache/EnumManager.java:201-205 | Distinct numbers get distinct names. |
| EnumManager.ExportDef | cache/src/main/java/net/runelite/cache/EnumManager.java:121-125 | The definition is written to a `.json` file whose base name reads back as the definition's id. |
| EnumManager.IntStringRoundTrip | cache/src/main/java/net/runelite/cache/EnumManager.java:123 | `String.valueOf` of an `int`, read back as a decimal number, gives that number. |
| EnumManager.ExportNamesDistinct | cache/src/main/java/net/runelite/cache/EnumManager.java:89-125 | Definitions with distinct ids are written to distinct files. |
| EnumManager.ClassName | cache/src/main/java/net/runelite/cache/EnumManager.java:139-146 | The class name `javaAll` passes for a definition: `Enum<id>`, with `Reversed` appended in reversed mode. |
| EnumManager.EntryAt | cache/src/main/java/net/runelite/cache/EnumManager.java:182-211 | The constant loop round `i` adds. Unreversed: the mangled key with the string or int value. Reversed with int values: the mangled value with the key. Reversed with strings: the string verbatim with the key. |
| EnumManager.JavaClassOf | cache/src/main/java/net/runelite/cache/EnumManager.java:163-214 | What `java` produces for a looked-up definition: `UnknownEnum` for null, an index failure when there are fewer values than keys, otherwise the class with `EntryAt` for every key in order. `JavaClassEntries` characterises it. |
| EnumManager.JavaClassEntries | cache/src/main/java/net/runelite/cache/EnumManager.java:176-211 | One constant per key, in key order. Unreversed: named after key `i`, with value `i` (the string when there are string values). Reversed with int values: named after value `i`, holding key `i`. Reversed with string values: named verbatim after string `i`, holding key `i`. |
| EnumManager.JavaNamesDistinct | cache/src/main/java/net/runelite/cache/EnumManager.java:180-197 | Unreversed, distinct keys give distinct constant names. |
| EnumManager.Lookup | cache/src/main/java/net/runelite/cache/EnumManager.java:84-87 | `enums.get`: the stored definition, or null when the id is absent. |
| EnumManager.NonNullIds | cache/src/main/java/net/runelite/cache/EnumManager.java:94-99 | The ids `exportAll` and `javaAll` process: exactly those mapped to a non-null definition. |
| EnumManager.LoadedIsLastFile | cache/src/main/java/net/runelite/cache/EnumManager.java:72-76 | After `load`, an id holds the definition of the last file with that id. |
| EnumManager.LoadKeepsOthers | cache/src/main/java/net/runelite/cache/EnumManager.java:72-76 | After `load`, an id no file carries is looked up as before, which is null on a fresh manager. |
| EnumManager.PrimToObj | cache/src/main/java/net/runelite/cache/EnumManager.java:216-224 | A fresh array of the same length with the same element at every index. |
| EnumManager.EnumManager.constructor | cache/src/main/java/net/runelite/cache/EnumManager.java:53 | The manager starts with no definitions. |
| EnumManager.EnumManager.Load | cache/src/main/java/net/runelite/cache/EnumManager.java:61-77 | The map becomes the old map with every file put under its id, in archive order. |
| EnumManager.EnumManager.GetEnum | cache/src/main/java/net/runelite/cache/EnumManager.java:84-87 | `getEnum` gives the definition stored under the id, and null when the id is absent. |
| EnumManager.EnumManager.ExportOne | cache/src/main/java/net/runelite/cache/EnumManager.java:107-119 | Nothing is written exactly when the id has no definition. Otherwise its file is written. |
| EnumManager.EnumManager.ExportAll | cache/src/main/java/net/runelite/cache/EnumManager.java:89-105 | Exactly one file per non-null definition: the files pair one-to-one with the non-null ids, each file the export of its id's definition, and the count is their number. |
| EnumManager.EnumManager.Java | cache/src/main/java/net/runelite/cache/EnumManager.java:163-214 | An unknown id fails. Fewer values than keys fails at the first missing index. Otherwise the class holds the constants `JavaClassEntries` describes. |
| EnumManager.EnumManager.EntryFor | cache/src/main/java/net/runelite/cache/EnumManager.java:182-211 | One round of the loop adds the constant for index `i`, with the `NEGATIVE_` spelling applied where the number is negative. |
| EnumManager.EnumManager.JavaOne | cache/src/main/java/net/runelite/cache/EnumManager.java:139-146 | The class for one definition is `java` on its own id, under `Enum<id>` or `Enum<id>Reversed`. |
| EnumManager.EnumManager.JavaAll | cache/src/main/java/net/runelite/cache/EnumManager.java:127-151 | Succeeds exactly when every non-null definition's class can be generated. It then holds one class per non-null id, each the one `java` makes for it, and counts them. Otherwise it fails with the error of some definition. |

## Left out

- Threads:
  - The decoding thread's concurrency is not modelled: `start`, the `synchronized` blocks, the `Thread.sleep(1)` throttle and the uncaught-exception handler.
  - The operations are sequential methods.
  - `run` is one pass (`RunOnce`), because the loop itself only repeats that pass until `stop`.
- Mp4Decoder.DecoderThread.BufferFrames requires an empty track or at least `size` distinct timestamps.
  - The source's fill loop never ends otherwise. `FillNeverReachesCapacity` proves this.
  - The same requirement is on Mp4Decoder.DecoderThread.Create, Mp4Decoder.DecoderThread.RunOnce and Mp4Decoder.Mp4Decoder.Open.
  - For example, a track of 2 frames never fills a buffer of capacity 3, because a rewound packet replaces the frame under its own timestamp.
- Mp4Decoder.DecoderThread.BufferFrames also requires `size` to be at most 35. The source only ever passes 35.
- Mp4Decoder.DecoderThread.Create, Mp4Decoder.Mp4Decoder.Open, CachingDecoder.CachingDecoder.Open and JCodecUtil.FrameSizeIsSixteenTimesMaximum require SPS values within the H.264 level limits (`WithinLevelLimits`): at most 1055 macroblocks per side, from Table A-1 of ITU-T Rec. H.264.
  - Within them a frame is at most 16880 pixels per side, so `3·w·h` fits in an `int` and no plane size wraps.
  - Beyond them Java's `int` plane sizes wrap: `Yuv444WrapsNegative` and `Yuv444WrapsToEmpty` show a negative size, where the source throws `NegativeArraySizeException`, and a size of 0, where it allocates no plane. Those streams are not modelled.
- JCodecUtil.FrameSizeIsSixteenTimesMaximum holds only within the level limits. Beyond them the shift left by 4 wraps, as `FrameSizeWrapsBeyondLimits` shows.
- PictureLayout.PlaneSizeNonNegative holds only when `nComp·w·h` fits in an `int`. Beyond that the wrapped sums can be negative, as `Yuv444WrapsNegative` shows.
- PictureLayout.Yuv444Layout holds only when `w·h` fits in an `int`. Beyond that `Yuv444PlaneSize` gives the wrapped sizes.
- PictureLayout.AllocatePlanes requires non-negative plane sizes. On a negative one the source throws `NegativeArraySizeException`, which is not modelled.
- JCodecUtil.ToBufferedImage requires positive dimensions and `3·w·h` within an `int` (`RgbPicture.WellFormed`). Otherwise the source throws, from the `BufferedImage` constructor or from a wrapped sample index, and those exceptions are not modelled.
- Mp4Decoder.DecoderThread.BufferNextPacket does not model the packet buffer's position: decoding into the thread's planes reads each packet once, from the demuxer's fresh buffer.
- CachingDecoder.CachingDecoder.GetNextFrame does not state that the buffers of other timestamps are unchanged. Its frame only names the cached buffers, and `Decode` modifies only the one decoded.
- Mp4Decoder.Mp4Decoder.GetNextFrame and Mp4Decoder.Mp4Decoder.Destroy require a thread to be present.
  - The source throws a `NullPointerException` on a decoder that is not valid or already destroyed.
- jcodec is not part of this model:
  - MP4 demuxing;
  - H.264 decoding into the scratch planes;
  - SPS and NAL unit parsing;
  - the `ColorUtil` transform.
- Decoder state: each packet decodes to a fixed picture of its own bytes. The H.264 decoder's state across frames (reference pictures) is not modelled, so decoding a packet again after a rewind, or in another order, gives the same picture here.
- Pictures: JCodecUtil.ToBufferedImage models only pictures already in RGB. The conversion from other colour spaces is a jcodec call.
- `calcBufferSize` reads the codec-private data through `duplicate()`. Here that data is an immutable sequence, so the caller's position is trivially unchanged; `ByteBuffer` internals beyond position and limit are not modelled.
- Java `BufferedImage` and `DataBufferInt` are an `Image` value holding the pixel sequence.
- Timestamps are real numbers, not IEEE doubles (no NaN, no signed zero).
- CachingDecoder.CachingDecoder.GetNextFrame does not model 32-bit wrap-around of `currentFrameCount`. It would need 2^31 failing calls.
- Exceptions:
  - `IOException` and `InterruptedException` paths are not modelled: the file system, the archive storage and the demuxer never fail here.
  - The exceptions that are modelled become `Result` failures.
- `EnumManager` I/O: `mkdirs`, Gson's JSON text, the `IDClass` file writer and `System.out` are not modelled.
  - A generated file is the file name with its definition, or the class name with its list of constants.
  - `java` creates the `IDClass` file before it checks the id, so an unknown id still leaves an empty class file. This is not modelled.
  - When values run short, the constants added before the exception are not modelled either: the result is just the failure.
- The `EnumLoader` byte format is not part of this model. A file of the archive is given with the definition the loader decodes from it.
- `getEnums` is not modelled: it only wraps the map's values in an unmodifiable view.
- EnumManager.EnumDefinition has no null elements:
  - A null `intVals` array, which the source would dereference, is not represented.
  - A null string value, which `String.valueOf` would name `"null"`, is not represented.
- EnumManager.EnumManager.ExportAll and EnumManager.EnumManager.JavaAll do not fix the order of their results.
  - `HashMap` iteration order is unspecified, so the contracts speak of which definitions are processed, not in which order.
  - When several definitions fail, JavaAll does not say which error comes first.
