/** The audio side: the rate-adaptation state machine (`get_output_mode`), the
    per-frame sample selection (`get_sample`), the output callback that runs
    both once per frame, and the player that owns the buffer and the stream. */
module OutputStream {
  import opened Scream
  import opened Pcm
  import opened Ring

  /** `NETWORK_BUFFER_SIZE`: the least buffer size the callback adapts to. */
  const NETWORK_BUFFER_SIZE: nat := 1024
  /** `1024 * 10`, the capacity of each player's ring buffer. */
  const RING_CAPACITY: nat := 10240

  const I32_MIN: int := -0x8000_0000
  const I32_MAX: int := 0x7FFF_FFFF
  type i32 = x: int | I32_MIN <= x <= I32_MAX

  datatype OutputMode = Stopped | ChuggingAlong | PlaySlower | PlayFaster

  // The f32 threshold products `(requested as f32 * k) as usize`, as floors of
  // exact rationals.

  /** `START_PLAYING_SLOWER_FACTOR` = 0.5 */
  function SlowerThreshold(requested: nat): nat { requested / 2 }
  /** `START_PLAYING_FASTER_FACTOR` = 2.0 */
  function FasterThreshold(requested: nat): nat { 2 * requested }
  /** requested / `REVERT_TO_CHUGGING_ALONG_FACTOR` (1.1) */
  function RevertLow(requested: nat): nat { (10 * requested) / 11 }
  /** requested * `REVERT_TO_CHUGGING_ALONG_FACTOR` (1.1) */
  function RevertHigh(requested: nat): nat { (11 * requested) / 10 }

  /** `get_output_mode`: the next mode from the current one and the buffer occupancy. */
  function GetOutputMode(current: OutputMode, requested: nat, available: nat): (r: OutputMode)
    ensures available == 0 ==> r == Stopped
    ensures r == Stopped ==> available == 0 || current == Stopped
    ensures current == Stopped ==> r != PlayFaster
  {
    if available == 0 then Stopped
    else if current == Stopped && available > requested then ChuggingAlong
    else if available < SlowerThreshold(requested) then PlaySlower
    else if available > FasterThreshold(requested) then PlayFaster
    else if RevertLow(requested) < available < RevertHigh(requested) then ChuggingAlong
    else current
  }

  /** When Stopped becomes ChuggingAlong: more than the request is queued, or
      the count falls in the hysteresis band. (Below half the request a single
      queued sample already leaves Stopped, for PlaySlower.) */
  lemma StartsAboveRequest(requested: nat, available: nat)
    ensures GetOutputMode(Stopped, requested, available) == ChuggingAlong <==>
              (available > requested || (0 < available && RevertLow(requested) < available < RevertHigh(requested)
                                           && SlowerThreshold(requested) <= available))
  {
  }

  /** A non-empty buffer below half the request always slows playback down,
      whatever the current mode. */
  lemma SlowsWhenLow(current: OutputMode, requested: nat, available: nat)
    requires 0 < available < SlowerThreshold(requested)
    ensures GetOutputMode(current, requested, available) == PlaySlower
  {
  }

  /** Once playing, a buffer above twice the request always speeds playback up. */
  lemma SpeedsUpWhenHigh(current: OutputMode, requested: nat, available: nat)
    requires current != Stopped && available > FasterThreshold(requested)
    ensures GetOutputMode(current, requested, available) == PlayFaster
  {
  }

  /** Between the slower and faster thresholds the band (req/1.1, req*1.1) brings
      playback back to normal, and outside it the mode is kept: the hysteresis. */
  lemma HysteresisBand(current: OutputMode, requested: nat, available: nat)
    requires 0 < available && SlowerThreshold(requested) <= available <= FasterThreshold(requested)
    requires !(current == Stopped && available > requested)
    ensures RevertLow(requested) < available < RevertHigh(requested) ==>
              GetOutputMode(current, requested, available) == ChuggingAlong
    ensures !(RevertLow(requested) < available < RevertHigh(requested)) ==>
              GetOutputMode(current, requested, available) == current
  {
  }

  /** With the inputs held fixed the mode settles in two decisions, and at once
      for any mode but Stopped. */
  lemma ModeSettles(current: OutputMode, requested: nat, available: nat)
    ensures current != Stopped ==>
              GetOutputMode(GetOutputMode(current, requested, available), requested, available)
              == GetOutputMode(current, requested, available)
    ensures var twice := GetOutputMode(GetOutputMode(current, requested, available), requested, available);
            GetOutputMode(twice, requested, available) == twice
  {
  }

  /** Decisions for a request of 100 samples. */
  lemma ModeExamples()
    ensures GetOutputMode(ChuggingAlong, 100, 0) == Stopped
    ensures GetOutputMode(ChuggingAlong, 100, 40) == PlaySlower
    ensures GetOutputMode(ChuggingAlong, 100, 250) == PlayFaster
    ensures GetOutputMode(ChuggingAlong, 100, 105) == ChuggingAlong
    ensures GetOutputMode(PlaySlower, 100, 105) == ChuggingAlong
    ensures GetOutputMode(PlayFaster, 100, 150) == PlayFaster
    ensures GetOutputMode(Stopped, 100, 105) == ChuggingAlong
    ensures GetOutputMode(Stopped, 100, 80) == Stopped
  {
  }

  // ---------------------------------------------------------------------------
  // Per-frame sample selection (`get_sample`)
  // ---------------------------------------------------------------------------

  /** How many entries `get_sample` pops in a mode at an iteration. */
  function PopsNeeded(mode: OutputMode, iteration: i32): (n: nat)
    ensures n <= 2
  {
    match mode
    case Stopped => 0
    case ChuggingAlong => 1
    case PlayFaster => 2
    case PlaySlower => if iteration % 2 == 0 then 0 else 1
  }

  /** `get_sample` on values: the emitted sample and the queue left behind. */
  function TakeSample(mode: OutputMode, queue: seq<BufferSample>, last: BufferSample, iteration: i32)
    : (r: (BufferSample, seq<BufferSample>))
    requires |queue| >= PopsNeeded(mode, iteration)
    ensures var k := PopsNeeded(mode, iteration);
            r.1 == queue[k..] && r.0 == (if k == 0 then last else queue[k - 1])
  {
    match mode
    case Stopped => (last, queue)
    case ChuggingAlong => (queue[0], queue[1..])
    case PlayFaster => (queue[1], queue[2..])
    case PlaySlower =>
      if iteration % 2 == 0 then (last, queue) else (queue[0], queue[1..])
  }

  /** `get_sample`. The precondition on the occupancy stands for the `expect`
      calls: a pop that found the buffer empty would panic. */
  method GetSample(mode: OutputMode, cons: SampleBuffer, lastSample: BufferSample, iteration: i32)
    returns (sample: BufferSample)
    requires cons.Valid() && cons.Len() >= PopsNeeded(mode, iteration)
    modifies cons
    ensures cons.Valid()
    ensures (sample, cons.contents) == TakeSample(mode, old(cons.contents), lastSample, iteration)
  {
    match mode
    case Stopped =>
      sample := lastSample;
    case ChuggingAlong =>
      var p := cons.Pop();
      sample := p.value;
    case PlayFaster =>
      var skipped := cons.Pop();
      var p := cons.Pop();
      sample := p.value;
    case PlaySlower =>
      if iteration % 2 == 0 {
        sample := lastSample;
      } else {
        var p := cons.Pop();
        sample := p.value;
      }
  }

  /** `iteration += 1` on an i32, wrapping as a release build does. */
  function WrappingInc(x: i32): (r: i32)
    ensures x < I32_MAX ==> r == x + 1
    ensures x == I32_MAX ==> r == I32_MIN
  {
    if x == I32_MAX then I32_MIN else x + 1
  }

  /** n increments of an i32, taken modulo 2^32. */
  function WrappingAdd(x: i32, n: nat): i32
  {
    (x - I32_MIN + n) % 0x1_0000_0000 + I32_MIN
  }

  /** In PlaySlower, holds and pops alternate strictly, the wrap from I32_MAX
      (odd) to I32_MIN (even) included: of two consecutive frames exactly one pops. */
  lemma PlaySlowerAlternates(iteration: i32)
    ensures PopsNeeded(PlaySlower, iteration) + PopsNeeded(PlaySlower, WrappingInc(iteration)) == 1
  {
  }

  /** The main safety theorem: when the decision is made against a request of at
      least 4 samples, the mode it picks never pops more than the buffer holds,
      whatever the current mode; so no `expect` in `get_sample` can fire. */
  lemma ModeCoversPops(current: OutputMode, requested: nat, available: nat, iteration: i32)
    requires requested >= 4
    ensures PopsNeeded(GetOutputMode(current, requested, available), iteration) <= available
  {
  }

  /** The bound of 4 is needed: below it PlayFaster is kept by the hysteresis
      with one sample left, and its second pop would fail. */
  lemma SmallRequestCanUnderrun()
    ensures GetOutputMode(PlayFaster, 3, 1) == PlayFaster
    ensures PopsNeeded(GetOutputMode(PlayFaster, 3, 1), 0) > 1
  {
  }

  // ---------------------------------------------------------------------------
  // The output callback
  // ---------------------------------------------------------------------------

  /** The state the callback closure carries, with the consumer's queue. */
  datatype EngineState = EngineState(mode: OutputMode, iteration: i32, last: BufferSample, queue: seq<BufferSample>)

  /** One frame of the callback: bump the iteration, re-decide the mode against
      the current occupancy, emit one sample and remember it. */
  function FrameStep(s: EngineState, necessary: nat): (r: EngineState)
    requires necessary >= 4
    ensures r.iteration == WrappingInc(s.iteration)
    ensures r.mode == GetOutputMode(s.mode, necessary, |s.queue|)
    ensures |s.queue| - |r.queue| == PopsNeeded(r.mode, r.iteration)
  {
    var iteration := WrappingInc(s.iteration);
    var mode := GetOutputMode(s.mode, necessary, |s.queue|);
    ModeCoversPops(s.mode, necessary, |s.queue|, iteration);
    var (sample, queue) := TakeSample(mode, s.queue, s.last, iteration);
    EngineState(mode, iteration, sample, queue)
  }

  /** n frames in a row: the final state and the samples emitted, in order. */
  function RunFrames(s: EngineState, necessary: nat, n: nat): (r: (EngineState, seq<BufferSample>))
    requires necessary >= 4
    ensures |r.1| == n
    ensures n > 0 ==> r.0.last == r.1[n - 1]
  {
    if n == 0 then (s, [])
    else
      var (s1, emitted) := RunFrames(s, necessary, n - 1);
      var s2 := FrameStep(s1, necessary);
      (s2, emitted + [s2.last])
  }

  /** The callback only ever removes entries from the front of the queue. */
  lemma {:induction false} RunFramesConsumesPrefix(s: EngineState, necessary: nat, n: nat)
    requires necessary >= 4
    ensures var q := RunFrames(s, necessary, n).0.queue;
            |q| <= |s.queue| && q == s.queue[|s.queue| - |q|..]
  {
    if n > 0 {
      RunFramesConsumesPrefix(s, necessary, n - 1);
    }
  }

  /** Every emitted sample is the one held on entry or an entry of the queue:
      the callback never plays anything that was not pushed. */
  lemma {:induction false} RunFramesEmitsKnown(s: EngineState, necessary: nat, n: nat)
    requires necessary >= 4
    ensures forall x :: x in RunFrames(s, necessary, n).1 ==> x == s.last || x in s.queue
    ensures var r := RunFrames(s, necessary, n).0;
            r.last == s.last || r.last in s.queue
  {
    if n > 0 {
      RunFramesEmitsKnown(s, necessary, n - 1);
      RunFramesConsumesPrefix(s, necessary, n - 1);
      var (s1, emitted) := RunFrames(s, necessary, n - 1);
      var s2 := FrameStep(s1, necessary);
      assert s2.last == s1.last || s2.last in s1.queue;
      assert forall x :: x in s1.queue ==> x in s.queue;
    }
  }

  /** Each frame advances the iteration counter by one, modulo 2^32. */
  lemma {:induction false} RunFramesIteration(s: EngineState, necessary: nat, n: nat)
    requires necessary >= 4
    ensures RunFrames(s, necessary, n).0.iteration == WrappingAdd(s.iteration, n)
  {
    if n > 0 {
      RunFramesIteration(s, necessary, n - 1);
      var x := WrappingAdd(s.iteration, n - 1);
      assert WrappingInc(x) == WrappingAdd(s.iteration, n);
    }
  }

  /** Underrun masking: with an empty queue the callback stops and keeps
      re-emitting the last sample. */
  lemma {:induction false} RunFramesUnderrun(s: EngineState, necessary: nat, n: nat)
    requires necessary >= 4 && s.queue == []
    ensures RunFrames(s, necessary, n).0.queue == []
    ensures RunFrames(s, necessary, n).0.last == s.last
    ensures n > 0 ==> RunFrames(s, necessary, n).0.mode == Stopped
    ensures forall x :: x in RunFrames(s, necessary, n).1 ==> x == s.last
  {
    if n > 0 {
      RunFramesUnderrun(s, necessary, n - 1);
      var s1 := RunFrames(s, necessary, n - 1).0;
      assert FrameStep(s1, necessary).mode == Stopped;
    }
  }

  /** `chunks_mut(channels)` on an output slice: the number of chunks, each
      `channels` long except possibly the last. */
  function FrameCount(len: nat, channels: nat): (r: nat)
    requires channels > 0
    ensures r <= len && (len > 0 ==> r > 0)
    decreases len
  {
    if len == 0 then 0
    else if len <= channels then 1
    else 1 + FrameCount(len - channels, channels)
  }

  /** The chunks cover the buffer and only the last one can be partial. */
  lemma {:induction false} FrameCountBounds(len: nat, channels: nat)
    requires channels > 0
    ensures FrameCount(len, channels) * channels >= len
    ensures FrameCount(len, channels) > 0 ==> (FrameCount(len, channels) - 1) * channels < len
    decreases len
  {
    if len > channels {
      FrameCountBounds(len - channels, channels);
      var n := FrameCount(len - channels, channels);
      assert (n + 1) * channels == n * channels + channels;
    }
  }

  /** Hence the chunk count is the length divided by `channels`, rounded up. */
  lemma FrameCountIsCeiling(len: nat, channels: nat)
    requires channels > 0
    ensures FrameCount(len, channels) == (len + channels - 1) / channels
  {
    FrameCountBounds(len, channels);
    var n := FrameCount(len, channels);
    if n > 0 {
      assert n * channels == (n - 1) * channels + channels;
    }
    DivideInRange(len + channels - 1, channels, n);
  }

  lemma MulLess(a: nat, b: nat, c: nat)
    requires a < b
    ensures a * c + c <= b * c
    decreases b - a
  {
    if a + 1 < b {
      MulLess(a + 1, b, c);
    }
    assert (a + 1) * c == a * c + c;
  }

  /** Euclidean division has one quotient: x / d == q when q * d <= x < (q + 1) * d. */
  lemma DivideInRange(x: nat, d: nat, q: nat)
    requires d > 0 && q * d <= x < q * d + d
    ensures x / d == q
  {
    var q', r' := x / d, x % d;
    assert x == q' * d + r' && 0 <= r' < d;
    if q' < q {
      MulLess(q', q, d);
    } else if q' > q {
      MulLess(q, q', d);
    }
  }

  /** A buffer of f whole frames followed by `width` more values, 1 <= width <= channels,
      splits into f + 1 chunks. */
  lemma {:induction false} FrameCountStep(f: nat, channels: nat, width: nat)
    requires 1 <= width <= channels
    ensures FrameCount(f * channels + width, channels) == f + 1
  {
    if f > 0 {
      FrameCountStep(f - 1, channels, width);
      assert f * channels + width - channels == (f - 1) * channels + width;
    }
  }

  /** The interleaved device buffer for a run of samples, `channels` values
      per sample: n samples fill n * channels values (and `InterleaveAt` says
      where each one goes). */
  function Interleave(samples: seq<BufferSample>, channels: nat): (r: seq<real>)
    requires channels <= MAX_CHANNELS
    ensures |r| == |samples| * channels
  {
    if samples == [] then []
    else
      var k := |samples| - 1;
      assert (k + 1) * channels == k * channels + channels;
      Interleave(samples[..k], channels) + samples[k][..channels]
  }

  /** Channel c of frame f sits at f * channels + c. */
  lemma {:induction false} InterleaveAt(samples: seq<BufferSample>, channels: nat, f: nat, c: nat)
    requires channels <= MAX_CHANNELS && f < |samples| && c < channels
    ensures f * channels + c < |Interleave(samples, channels)|
    ensures Interleave(samples, channels)[f * channels + c] == samples[f][c]
  {
    var n := |samples|;
    var init := samples[..n - 1];
    if f < n - 1 {
      InterleaveAt(init, channels, f, c);
      assert init[f] == samples[f];
    } else {
      assert f * channels == |Interleave(init, channels)|;
    }
  }

  function Max(a: nat, b: nat): nat
  {
    if a >= b then a else b
  }

  /** The state captured by the output callback closure of `build_output_stream`. */
  class OutputCallback {
    const channels: nat
    const cons: SampleBuffer
    var iteration: i32
    var outputMode: OutputMode
    var lastSample: BufferSample

    ghost predicate Valid()
      reads this, cons
    {
      1 <= channels <= MAX_CHANNELS && cons.Valid()
    }

    ghost function State(): EngineState
      reads this, cons
    {
      EngineState(outputMode, iteration, lastSample, cons.contents)
    }

    /** The closure's initial state: iteration 0, Stopped, a silent last sample. */
    constructor (channels: nat, cons: SampleBuffer)
      requires 1 <= channels <= MAX_CHANNELS && cons.Valid()
      ensures Valid()
      ensures this.channels == channels && this.cons == cons
      ensures State() == EngineState(Stopped, 0, Silence(), cons.contents)
    {
      this.channels := channels;
      this.cons := cons;
      iteration := 0;
      outputMode := Stopped;
      lastSample := Silence();
    }

    /** The body of the per-frame loop: bump the iteration, re-decide the mode,
        take the frame's sample, write its first `width` channels at `pos` and
        remember it as the last sample. */
    method FillFrame(output: array<real>, pos: nat, width: nat, necessaryBufferSize: nat)
      returns (sample: BufferSample)
      requires Valid() && necessaryBufferSize >= 4
      requires width <= channels && pos + width <= output.Length
      modifies this, cons, output
      ensures Valid()
      ensures State() == FrameStep(old(State()), necessaryBufferSize) && sample == lastSample
      ensures output[..pos] == old(output[..pos]) && output[pos..pos + width] == sample[..width]
      ensures output[pos + width..] == old(output[pos + width..])
    {
      iteration := WrappingInc(iteration);
      var newOutputMode := GetOutputMode(outputMode, necessaryBufferSize, cons.Len());
      ModeCoversPops(outputMode, necessaryBufferSize, cons.Len(), iteration);
      outputMode := newOutputMode;
      sample := GetSample(outputMode, cons, lastSample, iteration);
      WriteFrame(output, pos, sample, width);
      lastSample := sample;
    }

    /** FillFrame as one pass of the loop in Fill sees it: the run so far, as a
        function of the state on entry, grows by one frame. */
    method FillNextFrame(output: array<real>, pos: nat, width: nat, necessaryBufferSize: nat,
                         ghost s0: EngineState, ghost emitted: seq<BufferSample>, ghost f: nat)
      returns (sample: BufferSample)
      requires Valid() && necessaryBufferSize >= 4
      requires 1 <= width <= channels && pos + width <= output.Length
      requires (State(), emitted) == RunFrames(s0, necessaryBufferSize, f)
      requires pos == |Interleave(emitted, channels)| && output[..pos] <= Interleave(emitted, channels)
      modifies this, cons, output
      ensures Valid()
      ensures (State(), emitted + [sample]) == RunFrames(s0, necessaryBufferSize, f + 1)
      ensures output[..pos + width] <= Interleave(emitted + [sample], channels)
      ensures |Interleave(emitted + [sample], channels)| == pos + channels
      ensures FrameCount(pos + width, channels) == f + 1
    {
      ghost var before := output[..];
      ghost var st := State();
      sample := FillFrame(output, pos, width, necessaryBufferSize);
      RunFramesSnoc(s0, necessaryBufferSize, f, st, emitted, State());
      InterleaveStep(before, output[..], emitted, sample, channels, pos, width);
      FrameCountAdvance(emitted, channels, width);
    }

    /** One invocation of the callback on a device buffer of `output.Length`
        values: one frame per `chunks_mut(channels)` chunk, the device buffer
        ending up as the interleaved emitted samples, cut short in the last frame
        when the buffer is not a whole number of frames. */
    method Fill(output: array<real>)
      requires Valid()
      modifies this, cons, output
      ensures Valid()
      ensures var (s, emitted) := RunFrames(old(State()), Max(NETWORK_BUFFER_SIZE, output.Length / channels),
                                            FrameCount(output.Length, channels));
              State() == s && output[..] <= Interleave(emitted, channels)
    {
      var samplesRequested := output.Length / channels;
      var necessaryBufferSize := Max(NETWORK_BUFFER_SIZE, samplesRequested);
      ghost var s0 := State();
      ghost var emitted: seq<BufferSample> := [];
      var f, pos := 0, 0;
      while pos < output.Length
        invariant Valid() && pos <= output.Length
        invariant (State(), emitted) == RunFrames(s0, necessaryBufferSize, f)
        invariant output[..pos] <= Interleave(emitted, channels)
        invariant pos < output.Length ==> pos == |Interleave(emitted, channels)|
        invariant f == FrameCount(pos, channels)
        decreases output.Length - pos
      {
        var width := if output.Length - pos < channels then output.Length - pos else channels;
        var sample := FillNextFrame(output, pos, width, necessaryBufferSize, s0, emitted, f);
        emitted := emitted + [sample];
        pos := pos + width;
        f := f + 1;
      }
      assert output[..] == output[..pos];
    }
  }

  /** One pass of the frame loop extends the run by one frame. */
  lemma RunFramesSnoc(s0: EngineState, necessary: nat, f: nat, st: EngineState, emitted: seq<BufferSample>,
                      st': EngineState)
    requires necessary >= 4
    requires (st, emitted) == RunFrames(s0, necessary, f) && st' == FrameStep(st, necessary)
    ensures (st', emitted + [st'.last]) == RunFrames(s0, necessary, f + 1)
  {
  }

  /** Writing the next frame's first `width` values extends the interleaved prefix. */
  lemma InterleaveStep(before: seq<real>, after: seq<real>, emitted: seq<BufferSample>, sample: BufferSample,
                       channels: nat, pos: nat, width: nat)
    requires width <= channels <= MAX_CHANNELS
    requires pos == |Interleave(emitted, channels)| && pos + width <= |before| == |after|
    requires before[..pos] <= Interleave(emitted, channels)
    requires after[..pos] == before[..pos] && after[pos..pos + width] == sample[..width]
    ensures after[..pos + width] <= Interleave(emitted + [sample], channels)
    ensures |Interleave(emitted + [sample], channels)| == pos + channels
  {
    var e := emitted + [sample];
    assert e[..|e| - 1] == emitted;
    assert after[..pos + width] == after[..pos] + after[pos..pos + width];
  }

  /** The frame count after one more chunk. */
  lemma FrameCountAdvance(emitted: seq<BufferSample>, channels: nat, width: nat)
    requires 1 <= width <= channels <= MAX_CHANNELS
    ensures FrameCount(|Interleave(emitted, channels)| + width, channels) == |emitted| + 1
  {
    FrameCountStep(|emitted|, channels, width);
  }

  /** Writes one device frame: the `width` slots starting at `pos` receive the
      sample's first `width` channel values, in channel order, and every other
      slot of the device buffer keeps its value. */
  method WriteFrame(output: array<real>, pos: nat, sample: BufferSample, width: nat)
    requires width <= MAX_CHANNELS && pos + width <= output.Length
    modifies output
    ensures output[..pos] == old(output[..pos])
    ensures output[pos..pos + width] == sample[..width]
    ensures output[pos + width..] == old(output[pos + width..])
  {
    for c := 0 to width
      invariant output[..pos] == old(output[..pos])
      invariant output[pos + width..] == old(output[pos + width..])
      invariant forall d :: 0 <= d < c ==> output[pos + d] == sample[d]
    {
      output[pos + c] := sample[c];
    }
  }

  /** `AudioPlayer`: the producer end of a fresh ring buffer and the stream whose
      callback owns the consumer end. */
  class AudioPlayer {
    const buffer: SampleBuffer
    const stream: OutputCallback

    ghost predicate Valid()
      reads this, buffer, stream
    {
      stream.cons == buffer && buffer.Valid() && stream.Valid() && buffer.capacity == RING_CAPACITY
    }

    constructor (buffer: SampleBuffer, stream: OutputCallback)
      requires stream.cons == buffer && buffer.Valid() && stream.Valid() && buffer.capacity == RING_CAPACITY
      ensures Valid() && this.buffer == buffer && this.stream == stream
    {
      this.buffer := buffer;
      this.stream := stream;
    }
  }

  /** `create_audio_player`. Whether the device opens and starts a stream for
      the header's format is not modelled; `deviceAccepts` stands for it. */
  method CreateAudioPlayer(h: HeaderArray, deviceAccepts: bool) returns (r: Option<AudioPlayer>)
    ensures r.Some? <==> deviceAccepts
    ensures r.Some? ==> fresh(r.value) && fresh(r.value.buffer) && fresh(r.value.stream) && r.value.Valid()
    ensures r.Some? ==> r.value.buffer.contents == [] && r.value.stream.channels == Channels(h)
    ensures r.Some? ==> r.value.stream.State() == EngineState(Stopped, 0, Silence(), [])
  {
    var buf := new SampleBuffer(RING_CAPACITY);
    if !deviceAccepts {
      return None;
    }
    var stream := new OutputCallback(Channels(h), buf);
    var player := new AudioPlayer(buf, stream);
    r := Some(player);
  }
}
