/** The network side of a session, shared by `ScreamReader::read` and the older
    loop in `main`: what one receive yields, how a datagram splits into header
    and whole frames, how the frames reach the player's buffer, and the session
    state both versions step, as a value. */
module Ingest {
  import opened Scream
  import opened Pcm
  import opened Ring
  import opened OutputStream

  /** One `recv_from`: a read timeout, any other socket error, or a datagram
      (of any length: the receive buffer's size is not modelled). */
  datatype Event = Timeout | RecvError | Packet(data: seq<byte>)

  /** Bytes per frame: `sample_bytes() * channels()`. */
  function FrameWidth(h: HeaderArray): (w: nat)
    ensures w == 0 <==> SampleBits(h) < 8
    ensures w % Channels(h) == 0
    ensures SupportedDepth(SampleBits(h)) ==> w == SampleBits(h) / 4
  {
    SampleBytes(h) * Channels(h)
  }

  /** `slice::chunks_exact(n)`: the whole n-byte pieces in order; a shorter
      tail is left out. */
  function ChunksExact(s: seq<byte>, n: nat): (r: seq<seq<byte>>)
    requires n > 0
    ensures forall c :: c in r ==> |c| == n
    decreases |s|
  {
    if |s| < n then [] else [s[..n]] + ChunksExact(s[n..], n)
  }

  /** Together the chunks cover s up to a tail shorter than n, which is
      dropped; so there are |s| / n of them. */
  lemma ChunksExactCount(s: seq<byte>, n: nat)
    requires n > 0
    ensures |ChunksExact(s, n)| == |s| / n
    ensures |ChunksExact(s, n)| * n <= |s| < |ChunksExact(s, n)| * n + n
  {
    ChunksExactCover(s, n);
    DivideInRange(|s|, n, |ChunksExact(s, n)|);
  }

  lemma {:induction false} ChunksExactCover(s: seq<byte>, n: nat)
    requires n > 0
    ensures |ChunksExact(s, n)| * n <= |s| < |ChunksExact(s, n)| * n + n
    decreases |s|
  {
    if |s| >= n {
      ChunksExactCover(s[n..], n);
      var k := |ChunksExact(s[n..], n)|;
      assert |ChunksExact(s, n)| == k + 1;
      assert (k + 1) * n == k * n + n;
    }
  }

  /** Concatenated, the chunks are s without a tail shorter than n. */
  lemma {:induction false} ChunksExactFlatten(s: seq<byte>, n: nat)
    requires n > 0
    ensures var f := Flatten(ChunksExact(s, n));
            |s| - n < |f| <= |s| && f == s[..|f|]
    decreases |s|
  {
    if |s| >= n {
      var t := s[n..];
      ChunksExactFlatten(t, n);
      var r, rt := ChunksExact(s, n), ChunksExact(t, n);
      assert r[1..] == rt;
      var m := |Flatten(rt)|;
      assert Flatten(r) == s[..n] + t[..m];
      assert s[..n] + t[..m] == s[..n + m];
    }
  }

  /** Chunk i is bytes [i * n, i * n + n) of s. */
  lemma {:induction false} ChunksExactAt(s: seq<byte>, n: nat, i: nat)
    requires n > 0 && i < |ChunksExact(s, n)|
    ensures i * n + n <= |s|
    ensures ChunksExact(s, n)[i] == s[i * n..i * n + n]
    decreases |s|
  {
    if i > 0 {
      var t := s[n..];
      assert ChunksExact(s, n)[i] == ChunksExact(t, n)[i - 1];
      ChunksExactAt(t, n, i - 1);
      assert (i - 1) * n + n == i * n;
    }
  }

  /** A frame of `FrameWidth` bytes is one `convert_to_sample` accepts: it
      falls into `channels()` whole chunks of `sample_bytes()` bytes. */
  lemma FrameConvertible(h: HeaderArray, frame: seq<byte>)
    requires FrameWidth(h) > 0 && |frame| == FrameWidth(h)
    ensures Convertible(h, frame)
    ensures |Chunks(frame, SampleBytes(h))| == Channels(h)
  {
    var n := SampleBytes(h);
    ChunksOfMultiple(frame, n, 2);
    assert |frame| == 2 * n;
    assert |frame| % n == 0 by {
      DivideInRange(|frame|, n, 2);
    }
  }

  /** The samples a payload yields: one per whole frame, in payload order. A
      header whose frames are zero bytes wide has no whole frames at all. */
  function PacketSamples(h: HeaderArray, payload: seq<byte>): (r: seq<BufferSample>)
    ensures FrameWidth(h) == 0 ==> r == []
    ensures FrameWidth(h) > 0 ==> |r| == |payload| / FrameWidth(h)
  {
    if FrameWidth(h) == 0 then []
    else
      var frames := ChunksExact(payload, FrameWidth(h));
      ChunksExactCount(payload, FrameWidth(h));
      seq(|frames|, i requires 0 <= i < |frames| =>
        FrameConvertible(h, frames[i]);
        SampleOf(h, frames[i]))
  }

  /** A payload of len bytes gives floor(len / (sample_bytes * channels))
      samples, the i-th converted from the i-th frame's bytes. */
  lemma PacketSamplesShape(h: HeaderArray, payload: seq<byte>)
    requires FrameWidth(h) > 0
    ensures var w := FrameWidth(h);
            var r := PacketSamples(h, payload);
            && |r| == |payload| / w
            && forall i :: 0 <= i < |r| ==>
                 i * w + w <= |payload|
                 && Convertible(h, payload[i * w..i * w + w])
                 && r[i] == SampleOf(h, payload[i * w..i * w + w])
  {
    var w := FrameWidth(h);
    ChunksExactCount(payload, w);
    var frames := ChunksExact(payload, w);
    forall i | 0 <= i < |frames|
      ensures i * w + w <= |payload| && Convertible(h, payload[i * w..i * w + w])
      ensures frames[i] == payload[i * w..i * w + w]
    {
      ChunksExactAt(payload, w, i);
      FrameConvertible(h, frames[i]);
    }
  }

  /** The `for` loop over `chunks_exact`: convert each frame and push it; a
      push onto a full buffer fails, is dropped, and the loop goes on. */
  method PushFrames(h: HeaderArray, payload: seq<byte>, buffer: SampleBuffer)
    requires FrameWidth(h) > 0 && buffer.Valid()
    modifies buffer
    ensures buffer.Valid()
    ensures buffer.contents == PushAll(old(buffer.contents), PacketSamples(h, payload), buffer.capacity)
  {
    var frames := ChunksExact(payload, FrameWidth(h));
    ghost var samples := PacketSamples(h, payload);
    for i := 0 to |frames|
      invariant buffer.Valid()
      invariant buffer.contents == PushAll(old(buffer.contents), samples[..i], buffer.capacity)
    {
      FrameConvertible(h, frames[i]);
      var sample := ConvertToSample(h, frames[i]);
      PushAllSnoc(old(buffer.contents), samples, i, buffer.capacity);
      var pushed := buffer.Push(sample);
    }
    assert samples[..|frames|] == samples;
  }

  /** One more push extends the burst by its next sample. */
  lemma PushAllSnoc(q: seq<BufferSample>, xs: seq<BufferSample>, i: nat, capacity: nat)
    requires i < |xs|
    ensures PushAll(q, xs[..i + 1], capacity) == PushOne(PushAll(q, xs[..i], capacity), xs[i], capacity)
  {
    assert xs[..i + 1][..i] == xs[..i];
  }

  // ---------------------------------------------------------------------------
  // The session as a value
  // ---------------------------------------------------------------------------

  /** Whether a player exists, and if so what its buffer holds. */
  datatype Playback = Idle | Active(queue: seq<BufferSample>)

  /** The state the receive loop carries from one datagram to the next. */
  datatype Session = Session(playback: Playback, previousHeader: HeaderArray)

  /** Both versions start with no player and an all-zero previous header. */
  function InitialSession(): Session
  {
    Session(Idle, [0, 0, 0, 0, 0])
  }

  /** A player's buffer never holds more than its capacity. */
  predicate SessionValid(s: Session)
  {
    s.playback.Active? ==> |s.playback.queue| <= RING_CAPACITY
  }

  /** A datagram that holds at least the whole header. */
  predicate HasHeader(data: seq<byte>)
  {
    |data| >= HEADER_SIZE
  }

  function HeaderOf(data: seq<byte>): HeaderArray
    requires |data| >= HEADER_SIZE
  {
    data[..HEADER_SIZE]
  }

  /** A player is created when none exists or the header differs from the
      previous packet's. */
  predicate NeedsNewPlayer(s: Session, h: HeaderArray)
    ensures s.playback.Idle? ==> NeedsNewPlayer(s, h)
    ensures s.previousHeader == h ==> (NeedsNewPlayer(s, h) <==> s.playback.Idle?)
  {
    !s.playback.Active? || s.previousHeader != h
  }

  /** The session after a datagram with header h and the given payload has
      been taken in, given that a player exists afterwards: a new player
      starts from an empty buffer, an existing one keeps its backlog. */
  function TakeIn(s: Session, h: HeaderArray, payload: seq<byte>): (r: Session)
    ensures r.playback.Active? && r.previousHeader == h && !NeedsNewPlayer(r, h)
    ensures !NeedsNewPlayer(s, h) ==> s.playback.queue <= r.playback.queue
  {
    var backlog := if NeedsNewPlayer(s, h) then [] else s.playback.queue;
    PushAllExtends(backlog, PacketSamples(h, payload), RING_CAPACITY);
    Session(Active(PushAll(backlog, PacketSamples(h, payload), RING_CAPACITY)), h)
  }

  /** Taking a datagram in keeps the buffer within capacity and keeps exactly
      the leading samples that fit behind the backlog. */
  lemma TakeInBounded(s: Session, h: HeaderArray, payload: seq<byte>)
    requires SessionValid(s)
    ensures SessionValid(TakeIn(s, h, payload))
    ensures var backlog := if NeedsNewPlayer(s, h) then [] else s.playback.queue;
            var samples := PacketSamples(h, payload);
            TakeIn(s, h, payload).playback.queue
              == backlog + samples[..Min(|samples|, RING_CAPACITY - |backlog|)]
  {
    var backlog := if NeedsNewPlayer(s, h) then [] else s.playback.queue;
    PushAllKeepsPrefix(backlog, PacketSamples(h, payload), RING_CAPACITY);
  }
}
