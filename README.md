# Scream receiver: a Dafny model

This project models the sequential core of `screamplayer-rs`, a receiver for the Scream network-audio protocol. A sender multicasts UDP datagrams. Each datagram has a 5-byte header (rate byte, bit depth, three bytes that are not decoded) followed by interleaved little-endian signed PCM frames. The receiver decodes the header, converts every whole frame into a ten-slot sample of normalised values, and pushes it into a bounded ring buffer. The audio device's callback pulls from that buffer. A rate-adaptation state machine decides, frame by frame, whether to hold the last sample, play one, skip one, or play at half speed.

Modules, one per source file or component:

- `Scream` (scream.dfy): header decoding (`sample_rate`, `sample_bits`, `channels`, `sample_bytes`).
- `Pcm` (pcm.dfy): little-endian signed reads, the `convert_to_f32_sample` normalisation over `real`, and `convert_to_sample`. client.rs and main.rs hold identical copies of these two functions, and one set of members models both.
- `Ring` (ring.dfy): the ring buffer, modelled as a single sequential bounded FIFO (`SampleBuffer`, a class with a `seq` field).
- `OutputStream` (output_stream.dfy): `OutputMode` and `get_output_mode`. It also holds `get_sample` as a method that pops from the buffer in place, the callback closure as the class `OutputCallback` whose `Fill` loops over the device buffer's frames, and `AudioPlayer` / `create_audio_player`.
- `Ingest` (ingest.dfy): `chunks_exact` framing, the push loop, and the session state (player or none, previous header) as a value.
- `Client` (client.dfy): `ScreamReader` as a class whose `Read` takes one event, proved against the value-level step `ReadStep`.
- `MainLoop` (main_loop.dfy): the older loop in `main`, with its body `LoopBody` and the loop `ReceiveLoop` over a finite run of events. Both are proved against `LegacyStep` / `LegacyRun`, and `LegacyStep` is proved to make the same transitions as `ReadStep`.

The central theorem is `OutputStream.ModeCoversPops`. It holds whenever the mode is decided against a request of at least 4 samples, and the callback always uses `max(1024, requested)`. Under that condition the mode `get_output_mode` picks never pops more entries than the buffer holds, so none of the `expect` calls in `get_sample` can fire. `GetSample` takes this as its precondition. `OutputCallback.FillFrame` meets it on every frame through that lemma. `SmallRequestCanUnderrun` shows the bound is needed.

`is_playing_now` is the predicate `Client.ScreamReader.IsPlayingNow`, used inside `Read`.

The model keeps these behaviours of the code:

- Non-negative samples are divided by 2^(N-1) - 1, not 2^(N-1).
- An empty buffer in a popping mode is a panic (`expect`), not a fallback to the last sample. The model proves it cannot happen.
- There is no bulk `discard(n)` operation on the buffer.
- A header with a zero sample rate is passed on to the device like any other.

## Model

| member | source | states |
|---|---|---|
| Scream.RateMultiplier | src/scream.rs:18-19 | the multiplier is byte 0 with bit 7 masked off, i.e. byte 0 mod 128 |
| Scream.Is44100Base | src/scream.rs:20-23 | the 44100 Hz base is selected exactly when bit 7 of byte 0 is set |
| Scream.SampleRate | src/scream.rs:17-24 | bit 7 clear: 48000 × (byte0 & 0x7F); bit 7 set: 44100 × (byte0 & 0x7F); never above 48000 × 127 |
| Scream.SampleRateShape | src/scream.rs:17-24 | the rate is a multiple of 48000 or of 44100, and it is 0 exactly when byte 0 is 0x00 or 0x80 |
| Scream.SampleRateDeterminesRateByte | src/scream.rs:17-24 | two headers with the same non-zero rate have the same byte 0 |
| Scream.SampleRateExamples | src/scream.rs:17-24 | byte 0 = 0x00, 0x01, 0x02, 0x81, 0x82 give 0, 48000, 96000, 44100, 88200 Hz |
| Scream.SampleBits | src/scream.rs:25-27 | the bit depth is byte 1 unchanged |
| Scream.Channels | src/scream.rs:28-30 | the channel count is not decoded: every header is taken as stereo, 2 channels |
| Scream.SampleBytes | src/scream.rs:11-13 | bytes per sample is the bit depth divided by 8, rounded down |
| Scream.SampleBytesOfSupportedDepths | src/scream.rs:11-13 | depths 16, 24, 32 give 2, 3, 4 bytes; the width is 0 exactly when the depth is below 8 |
| Scream.ReservedBytesIgnored | src/scream.rs:16-31 | bytes 2 to 4 never affect rate, depth, width or channel count, and the channel count is always 2 |
| Pcm.Silence | src/client.rs:105 | the initial buffer holds 0.0 in all ten slots |
| Pcm.LeUnsigned | src/client.rs:109-111 | the unsigned little-endian value of n bytes is below 2^(8n) |
| Pcm.LeSigned | src/client.rs:109-111 | the two's-complement value of n bytes lies in [-2^(8n-1), 2^(8n-1)) and is negative exactly when bit 7 of the last byte is set |
| Pcm.ReadLe | src/client.rs:109-111 | `read_i16` / `read_i24` / `read_i32` read the leading N/8 bytes of a chunk into the signed N-bit range |
| Pcm.LeUnsignedRoundTrip | src/client.rs:109-111 | decoding the n-byte little-endian encoding of u gives back u |
| Pcm.LeBytesRoundTrip | src/client.rs:109-111 | encoding the decoded value of a byte string gives back the string |
| Pcm.LeSignedRoundTrip | src/client.rs:109-111 | signed decode inverts signed encode for every value in range |
| Pcm.LeBytesSignedRoundTrip | src/main.rs:91-93 | signed encode inverts signed decode for every byte string, so the signed read is a bijection onto its range |
| Pcm.ConvertToF32Sample | src/client.rs:96-102 | the normalised value is negative exactly when the input is, and zero exactly when it is |
| Pcm.NormalisedRange | src/client.rs:96-102 | every N-bit value lands in [-1, 1]; only -2^(N-1) maps to -1 and only 2^(N-1)-1 maps to 1 |
| Pcm.NormaliseMonotone | src/main.rs:78-84 | normalisation preserves order |
| Pcm.Normalise16Examples | src/main.rs:78-84 | for 16 bits, -32768 gives -1.0, 0 gives 0.0 and 32767 gives 1.0 |
| Pcm.Chunks | src/client.rs:107 | `chunks(n)` yields non-empty pieces of at most n bytes |
| Pcm.ChunksOfMultiple | src/client.rs:107 | k × n bytes split into exactly k chunks of n bytes that concatenate back to the input |
| Pcm.ChannelValue | src/client.rs:108-113 | one slot's value lies in [-1, 1], and it is 0.0 for any depth other than 16, 24 or 32 |
| Pcm.ConvertibleChunks | src/client.rs:107-111 | every chunk of a convertible frame is long enough for the read its depth asks for |
| Pcm.SampleOf | src/client.rs:104-117 | every slot lies in [-1, 1]; slots past the frame's chunk count stay 0.0; an unsupported depth gives all 0.0 |
| Pcm.ConvertToSample | src/client.rs:104-117 | filling the zeroed ten-slot array chunk by chunk yields exactly `SampleOf` |
| Pcm.StereoFrameSlots | src/main.rs:86-99 | slot 0 decodes bytes [0, sb), slot 1 decodes bytes [sb, 2sb), and the other eight slots are 0.0 |
| Ring.SampleBuffer.constructor | src/output_stream.rs:20-21 | a new ring buffer is empty and has the given capacity |
| Ring.SampleBuffer.Len | src/output_stream.rs:133 | the occupancy is the number of queued entries, never above capacity |
| Ring.SampleBuffer.Push | src/client.rs:81-84 | a push succeeds exactly when the buffer is not full and appends at the back; a failed push leaves the buffer unchanged |
| Ring.SampleBuffer.Pop | src/output_stream.rs:93 | a pop returns the oldest entry and removes it, or None on an empty buffer |
| Ring.PushAllKeepsPrefix | src/client.rs:78-85 | a burst of pushes keeps its order, keeps exactly the leading entries that fit and never exceeds capacity |
| Ring.PushAllExtends | src/client.rs:81-84 | pushes never disturb what is already queued: the old queue stays a prefix, whether or not the pushes fit |
| Ring.PushAllThenPop | src/output_stream.rs:20-21 | entries pushed into a buffer with room sit behind the old ones in push order, and popping the old entries leaves exactly the pushed ones (FIFO) |
| Ring.PopN | src/output_stream.rs:93 | n pops in a row return the n oldest entries, oldest first, and leave the rest |
| Ring.PushAllAppend | src/main.rs:67-74 | pushing two bursts one after the other equals pushing their concatenation |
| OutputStream.GetOutputMode | src/output_stream.rs:55-83 | zero available gives Stopped; Stopped is only ever kept or entered with an empty buffer; PlayFaster is never entered from Stopped |
| OutputStream.StartsAboveRequest | src/output_stream.rs:64-66 | from Stopped the mode becomes ChuggingAlong exactly when available > requested or the hysteresis band applies; below half the request (`SlowsWhenLow`) a single queued sample already leaves Stopped for PlaySlower |
| OutputStream.SlowsWhenLow | src/output_stream.rs:68-70 | 0 < available < floor(requested × 0.5) gives PlaySlower from any mode |
| OutputStream.SpeedsUpWhenHigh | src/output_stream.rs:72-74 | once playing, available > requested × 2 gives PlayFaster |
| OutputStream.HysteresisBand | src/output_stream.rs:76-82 | between the slower and faster thresholds, the band (req/1.1, req×1.1) gives ChuggingAlong and outside it the current mode is kept |
| OutputStream.ModeSettles | src/output_stream.rs:55-83 | with fixed inputs the decision is a fixed point after one step, or after two from Stopped |
| OutputStream.ModeExamples | src/output_stream.rs:55-83 | for a request of 100: 0 gives Stopped, 40 gives PlaySlower, 250 gives PlayFaster, 105 keeps or restores ChuggingAlong, 80 from Stopped stays Stopped |
| OutputStream.PopsNeeded | src/output_stream.rs:91-106 | no mode pops more than two entries |
| OutputStream.TakeSample | src/output_stream.rs:91-106 | Stopped returns last_sample with the queue untouched; ChuggingAlong pops one entry and returns it; PlayFaster pops two and returns the second; PlaySlower holds on even iterations and pops one on odd ones |
| OutputStream.GetSample | src/output_stream.rs:85-108 | popping in place leaves the buffer and the returned sample exactly as `TakeSample` says |
| OutputStream.WrappingInc | src/output_stream.rs:130 | `iteration += 1` on an i32 adds one, wrapping from i32::MAX to i32::MIN |
| OutputStream.PlaySlowerAlternates | src/output_stream.rs:99-106 | in PlaySlower, of any two consecutive iterations exactly one pops, across the i32 wrap too |
| OutputStream.ModeCoversPops | src/output_stream.rs:126-146 | with a request of at least 4, the chosen mode pops no more than the buffer holds, so no `expect` in `get_sample` panics |
| OutputStream.SmallRequestCanUnderrun | src/output_stream.rs:127 | below a request of 4, PlayFaster can be kept with one entry left, which would panic |
| OutputStream.FrameStep | src/output_stream.rs:129-151 | each frame advances the iteration once, re-decides the mode on the current occupancy, and consumes exactly what that mode pops |
| OutputStream.RunFrames | src/output_stream.rs:129-152 | n frames emit n samples, and last_sample ends as the last one emitted |
| OutputStream.RunFramesConsumesPrefix | src/output_stream.rs:129-152 | the callback only ever removes entries from the front of the queue |
| OutputStream.RunFramesEmitsKnown | src/output_stream.rs:129-152 | every emitted sample is the last sample on entry or an entry that was queued |
| OutputStream.RunFramesIteration | src/output_stream.rs:129-152 | n frames advance the iteration counter by n modulo 2^32 |
| OutputStream.RunFramesUnderrun | src/output_stream.rs:129-152 | with an empty queue the callback goes to Stopped and keeps re-emitting the last sample |
| OutputStream.FrameCountBounds | src/output_stream.rs:129 | the `chunks_mut(channels)` chunks cover the device buffer, and only the last one may be partial |
| OutputStream.FrameCountIsCeiling | src/output_stream.rs:129 | the number of frames per callback is ceil(len / channels) |
| OutputStream.FrameCount | src/output_stream.rs:129 | `chunks_mut(channels)` yields at most one chunk per value, and at least one for a non-empty buffer |
| OutputStream.Interleave | src/output_stream.rs:147-149 | n emitted samples fill n × channels device values |
| OutputStream.InterleaveAt | src/output_stream.rs:147-149 | channel c of frame f is written at position f × channels + c |
| OutputStream.WriteFrame | src/output_stream.rs:147-149 | a frame's slots receive the sample's channel values in channel order, and every slot before or after the frame keeps its value |
| OutputStream.OutputCallback.constructor | src/output_stream.rs:118-121 | the closure starts at iteration 0, in Stopped, with a silent last sample |
| OutputStream.OutputCallback.FillFrame | src/output_stream.rs:130-151 | one pass of the frame loop is `FrameStep` on the closure state, writes the emitted sample into the frame, and leaves every slot outside the frame unchanged |
| OutputStream.OutputCallback.Fill | src/output_stream.rs:125-153 | one callback runs `RunFrames` with max(1024, requested), and the device buffer ends as the interleaved emitted samples |
| OutputStream.AudioPlayer.constructor | src/output_stream.rs:37-40 | a player pairs a producer with the stream whose callback consumes the same buffer |
| OutputStream.CreateAudioPlayer | src/output_stream.rs:16-41 | a player is returned exactly when the device accepts the format; its buffer is fresh and empty with capacity 10240; its callback starts in Stopped |
| Ingest.FrameWidth | src/client.rs:75-76 | a frame has sample_bytes × channels bytes; the width is 0 exactly when the depth is below 8; for 16/24/32 bits it is depth / 4 |
| Ingest.ChunksExact | src/client.rs:75-76 | `chunks_exact(n)` yields only pieces of exactly n bytes |
| Ingest.ChunksExactCount | src/client.rs:75-76 | there are floor(len / n) chunks, and the dropped tail is shorter than n |
| Ingest.ChunksExactFlatten | src/main.rs:64-65 | concatenated, the chunks are the payload without a trailing partial frame shorter than the frame width |
| Ingest.ChunksExactAt | src/main.rs:64-65 | chunk i is bytes [i × n, i × n + n) of the payload |
| Ingest.FrameConvertible | src/client.rs:78-79 | every whole frame is one `convert_to_sample` accepts, and it splits into `channels()` chunks |
| Ingest.PacketSamples | src/client.rs:75-79 | a payload yields floor(len / frame width) samples, and none when the frame width is zero |
| Ingest.PacketSamplesShape | src/client.rs:75-79 | a payload yields floor(len / frame width) samples; sample i is the conversion of frame i |
| Ingest.PushFrames | src/client.rs:75-85 | the push loop leaves the buffer as the sequential pushes of all frame samples in payload order, each push onto a full buffer dropped |
| Ingest.NeedsNewPlayer | src/client.rs:67 | a player is needed whenever none exists; with the previous header unchanged, only then |
| Ingest.TakeIn | src/client.rs:65-86 | after a datagram is taken in a player exists, the header is remembered so the same header needs no new player, and a reused player keeps its backlog as a prefix |
| Ingest.TakeInBounded | src/client.rs:65-86 | after a datagram the buffer holds the backlog (empty for a new player) followed by the leading samples that fit, within capacity |
| Client.ReadStepAsWritten | src/client.rs:47-89 | `read` as written: only a datagram can panic, and an error return leaves the reader unchanged |
| Client.ReadStep | src/client.rs:47-89 | `read` without the two panics: an error leaves the reader unchanged and comes only from the socket or a refused player; a timeout always ends playback with Ok |
| Client.ShortDatagramPanics | src/client.rs:61-63 | as written, a datagram shorter than the header panics; the corrected step drops it |
| Client.ZeroWidthFramePanics | src/client.rs:65-76 | as written, a header with depth below 8 panics in `chunks_exact(0)` once the create check passes; corrected, the player is made or kept and its buffer is unchanged; with a refused device both versions return Err first |
| Client.ReadStepCorrectsOnlyPanics | src/client.rs:47-89 | wherever the code does not panic the corrected step returns the same; the code panics exactly on a datagram without a whole header or a zero-width header past the create check; corrected, those leave the buffer as it was |
| Client.TimeoutStopsPlayback | src/client.rs:50-58 | a timeout returns Ok, moves to Waiting, keeps previous_header, and changes nothing when already waiting |
| Client.PacketStep | src/client.rs:65-86 | a new player is made exactly when none plays or the header changed; a failed creation returns Err and changes nothing; otherwise previous_header becomes the header and the buffer gets the frames behind the backlog |
| Client.ReadStepValid | src/client.rs:47-89 | every read keeps the buffer within capacity |
| Client.SameHeaderAccumulates | src/client.rs:65-86 | two datagrams with the playing header reuse the player, and its buffer takes both datagrams' frames in order |
| Client.HeaderChangeReplaces | src/client.rs:65-72 | a changed header discards the old buffer; the new one holds only this datagram's frames |
| Client.TimeoutThenPacketRestarts | src/client.rs:50-72 | after a timeout even the same header starts a fresh player |
| Client.ScreamReader.constructor | src/client.rs:37-44 | a reader starts Waiting with an all-zero previous header |
| Client.ScreamReader.IsPlayingNow | src/client.rs:91-93 | the reader is playing exactly when its session has a player |
| Client.ScreamReader.Read | src/client.rs:47-89 | one read changes the reader exactly as `ReadStep` does; a player object is new exactly when one had to be created and creation succeeded, otherwise the playing player is the same object |
| MainLoop.LegacyStepAsWritten | src/main.rs:35-75 | one pass as written: it leaves `main` only on a socket error or a refused device, and only a datagram can panic |
| MainLoop.LegacyStep | src/main.rs:35-75 | one pass without the panics: it never panics, and leaves `main` exactly on a socket error or a datagram that needs a player the device refuses |
| MainLoop.LegacyMalformedPanics | src/main.rs:52-65 | the older loop panics on the same short and zero-width datagrams; the corrected loop skips the short one and keeps the buffer for the zero-width one |
| MainLoop.LegacyStepCorrectsOnlyPanics | src/main.rs:35-75 | the corrected loop body never panics, and it takes the code's step on every input where the code does not panic |
| MainLoop.LegacyAgreesWithReader | src/main.rs:35-75 | the older loop makes the transitions `read` makes, and leaves `main` exactly where `read` returns Err |
| MainLoop.LegacyPlayerExistsAfterCreate | src/main.rs:38-62 | after the create check a player exists, so the `unwrap` cannot fail; a timeout drops the player and continues |
| MainLoop.LegacyRunValid | src/main.rs:35-75 | over any run of events the buffer stays within capacity |
| MainLoop.LegacyRun | src/main.rs:35-75 | a run of the loop that gets to its end met no socket error |
| MainLoop.LegacyRunExits | src/main.rs:35-75 | a run that ends early stops at an event i reached from the session si the first i events produce, where event i is a socket error or a datagram that needs a new player from si and the device refuses |
| MainLoop.LoopBody | src/main.rs:36-74 | one pass changes the two locals exactly as `LegacyStep` says; a player that is not the old one is freshly created |
| MainLoop.ReceiveLoop | src/main.rs:31-75 | from no player and a zero header, the loop over a run of events ends in the session `LegacyRun` gives, and it exits exactly when that run does |

## Left out

- Sockets: binding, the multicast join, the read timeout and `recv_from` are replaced by the event `Timeout | RecvError | Packet(bytes)`. `Timeout` stands for an error of kind `TimedOut`, and any other receive error is `RecvError`. Which kind a platform reports for an expired read timeout is not modelled.
- Datagram length: the 1157-byte receive buffer is not enforced. The model accepts datagrams of any length.
- Device enumeration and selection (`output_devices`, `select_cpal_device`) are left out, because they are platform I/O.
- OutputStream.CreateAudioPlayer: building and starting the cpal stream is a foreign call. The boolean `deviceAccepts` stands in for whether it succeeds. The three-argument `create_audio_player` that client.rs calls is not part of this model, and the same abstraction stands in for it.
- Conversion of the emitted f32 values to the device sample type (`cpal::Sample::from`) is a foreign conversion. The device buffer is modelled as `array<real>` that receives the values unchanged.
- Concurrency: the ring buffer is a single sequential FIFO. Producer pushes and consumer pops are atomic steps, and any interleaving of `Read` and `Fill` is a sequence of such calls. Lock-free cross-thread behaviour and the approximate `len()` seen during concurrent pushes are not modelled.
- Float precision: the normalisation is exact over `real`, and rounding to f32 is not modelled.
- OutputStream.RevertLow: the f32 threshold products are modelled as exact floors: requested/2, 2 × requested, (10 × requested)/11 and (11 × requested)/10. `1.1f32` is not exactly 1.1, so the f32 band edges can differ from these by one. `ModeCoversPops` does not depend on the band.
- OutputStream.RevertHigh: same as `RevertLow`.
- OutputStream.WrappingInc: `iteration` wraps as in a release build. The overflow panic of a debug build is not modelled.
- Logging (`println!`) is left out: the "Buffer overflow", mode-change and start/stop messages.

## Findings

| source | as written | input that shows it | evidently intended | confidence | as-written member | corrected member |
|---|---|---|---|---|---|---|
| src/client.rs:63 | `&self.buf[5..size]` is taken before any length check | a 3-byte datagram `[0x01, 16, 0]` panics | a datagram shorter than the header is dropped and the reader carries on | high, not executed | Client.ReadStepAsWritten, shown by Client.ShortDatagramPanics | Client.ReadStep, with Client.ReadStepCorrectsOnlyPanics and Client.ScreamReader.Read |
| src/client.rs:76 | `chunks_exact(sample_bytes() * channels())` with a bit depth below 8 is `chunks_exact(0)` | header `[0x01, 4, 0, 0, 0]` with a device that accepts it panics after the player is created | such a header has no whole frames: the create check runs as usual and nothing is pushed | high, not executed | Client.ReadStepAsWritten, shown by Client.ZeroWidthFramePanics | Client.ReadStep, with Client.ReadStepCorrectsOnlyPanics and Client.ScreamReader.Read |
| src/main.rs:54 | `&buf[5..size]` is taken before any length check | a 3-byte datagram `[0x01, 16, 0]` panics | the datagram is skipped and the loop continues | high, not executed | MainLoop.LegacyStepAsWritten, shown by MainLoop.LegacyMalformedPanics | MainLoop.LegacyStep, with MainLoop.LegacyStepCorrectsOnlyPanics and MainLoop.LoopBody |
| src/main.rs:65 | `chunks_exact(0)` for a bit depth below 8 | header `[0x01, 4, 0, 0, 0]` panics after the player is created | such a header has no whole frames: the create check runs as usual and nothing is pushed | high, not executed | MainLoop.LegacyStepAsWritten, shown by MainLoop.LegacyMalformedPanics | MainLoop.LegacyStep, with MainLoop.LegacyStepCorrectsOnlyPanics and MainLoop.LoopBody |
