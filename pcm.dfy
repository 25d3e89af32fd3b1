/** Little-endian signed PCM decoding and the normalisation of one frame into a
    ten-slot multichannel sample (`convert_to_sample`, `convert_to_f32_sample`). */
module Pcm {
  import opened Scream

  /** The width of a `BufferSample`: the most channels one frame can carry. */
  const MAX_CHANNELS: nat := 10

  /** `[f32; MAX_CHANNELS]`; the f32 values are modelled as exact reals. */
  type BufferSample = s: seq<real> | |s| == MAX_CHANNELS
    witness [0.0, 0.0, 0.0, 0.0, 0.0, 0.0, 0.0, 0.0, 0.0, 0.0]

  /** The all-zero sample `[0.0; 10]`. */
  function Silence(): (r: BufferSample)
    ensures forall i :: 0 <= i < MAX_CHANNELS ==> r[i] == 0.0
  {
    seq(MAX_CHANNELS, _ => 0.0)
  }

  function Pow2(n: nat): (r: int)
    ensures r >= 1
    ensures n >= 1 ==> r >= 2
  {
    if n == 0 then 1 else 2 * Pow2(n - 1)
  }

  lemma {:induction false} Pow2Shift8(m: nat)
    ensures Pow2(m + 8) == 256 * Pow2(m)
  {
    var p := Pow2(m);
    assert Pow2(m + 1) == 2 * p;
    assert Pow2(m + 2) == 4 * p;
    assert Pow2(m + 3) == 8 * p;
    assert Pow2(m + 4) == 16 * p;
    assert Pow2(m + 5) == 32 * p;
    assert Pow2(m + 6) == 64 * p;
    assert Pow2(m + 7) == 128 * p;
  }

  // ---------------------------------------------------------------------------
  // Little-endian integers (`LittleEndian::read_i16`, `read_i24`, `read_i32`)
  // ---------------------------------------------------------------------------

  /** The unsigned little-endian value of a byte string: byte 0 is least significant. */
  function LeUnsigned(s: seq<byte>): (r: nat)
    ensures r < Pow2(8 * |s|)
  {
    if s == [] then 0
    else
      Pow2Shift8(8 * (|s| - 1));
      s[0] + 256 * LeUnsigned(s[1..])
  }

  /** The two's-complement value of a non-empty little-endian byte string. */
  function LeSigned(s: seq<byte>): (r: int)
    requires |s| > 0
    ensures -Pow2(8 * |s| - 1) <= r < Pow2(8 * |s| - 1)
    ensures r >= 0 <==> s[|s| - 1] < 0x80
  {
    var u := LeUnsigned(s);
    var half := Pow2(8 * |s| - 1);
    TopByteSign(s);
    if u >= half then u - 2 * half else u
  }

  /** The value is in the upper half of the range exactly when bit 7 of the last byte is set. */
  lemma {:induction false} TopByteSign(s: seq<byte>)
    requires |s| > 0
    ensures Pow2(8 * |s|) == 2 * Pow2(8 * |s| - 1)
    ensures LeUnsigned(s) >= Pow2(8 * |s| - 1) <==> s[|s| - 1] >= 0x80
  {
    var t := s[1..];
    if |s| == 1 {
      assert Pow2(7) == 128;
      assert LeUnsigned(t) == 0;
    } else {
      TopByteSign(t);
      var m := 8 * |t| - 1;
      Pow2Shift8(m);
      assert 8 * |s| - 1 == m + 8;
      var half, x := Pow2(m), LeUnsigned(t);
      assert LeUnsigned(s) == s[0] + 256 * x;
      assert LeUnsigned(s) >= 256 * half <==> x >= half;
      assert t[|t| - 1] == s[|s| - 1];
    }
  }

  /** `read_iN`: the N/8 leading bytes of a chunk as a signed integer. */
  function ReadLe(chunk: seq<byte>, width: nat): (r: int)
    requires 0 < width <= |chunk|
    ensures -Pow2(8 * width - 1) <= r < Pow2(8 * width - 1)
  {
    LeSigned(chunk[..width])
  }

  /** The little-endian encoding of an unsigned value in n bytes (the inverse of LeUnsigned). */
  function LeEncodeUnsigned(u: nat, n: nat): (s: seq<byte>)
    ensures |s| == n
  {
    if n == 0 then [] else [u % 256] + LeEncodeUnsigned(u / 256, n - 1)
  }

  /** The two's-complement little-endian encoding of v in n bytes. */
  function LeEncodeSigned(v: int, n: nat): (s: seq<byte>)
    requires n > 0 && -Pow2(8 * n - 1) <= v < Pow2(8 * n - 1)
    ensures |s| == n
  {
    TopByteSign(LeEncodeUnsigned(0, n));
    LeEncodeUnsigned(if v < 0 then v + Pow2(8 * n) else v, n)
  }

  lemma {:induction false} LeUnsignedRoundTrip(u: nat, n: nat)
    requires u < Pow2(8 * n)
    ensures LeUnsigned(LeEncodeUnsigned(u, n)) == u
  {
    if n > 0 {
      var q, p := u / 256, Pow2(8 * (n - 1));
      Pow2Shift8(8 * (n - 1));
      assert u == 256 * q + u % 256;
      assert q < p;
      LeUnsignedRoundTrip(q, n - 1);
      var s := LeEncodeUnsigned(u, n);
      assert s[1..] == LeEncodeUnsigned(q, n - 1);
      assert LeUnsigned(s) == (u % 256) + 256 * q;
    }
  }

  lemma {:induction false} LeBytesRoundTrip(s: seq<byte>)
    ensures LeEncodeUnsigned(LeUnsigned(s), |s|) == s
  {
    if s != [] {
      var x := LeUnsigned(s[1..]);
      LeBytesRoundTrip(s[1..]);
      var u := LeUnsigned(s);
      assert u == s[0] + 256 * x;
      assert u % 256 == s[0];
      assert u / 256 == x;
    }
  }

  /** Decoding inverts encoding for every value that fits in n bytes. */
  lemma LeSignedRoundTrip(v: int, n: nat)
    requires n > 0 && -Pow2(8 * n - 1) <= v < Pow2(8 * n - 1)
    ensures LeSigned(LeEncodeSigned(v, n)) == v
  {
    var s := LeEncodeSigned(v, n);
    TopByteSign(s);
    var u := if v < 0 then v + Pow2(8 * n) else v;
    assert s == LeEncodeUnsigned(u, n);
    LeUnsignedRoundTrip(u, n);
    assert LeUnsigned(s) == u;
  }

  /** Encoding inverts decoding for every byte string: the two's-complement
      reading of n bytes is a bijection onto its range. */
  lemma LeBytesSignedRoundTrip(s: seq<byte>)
    requires |s| > 0
    ensures LeEncodeSigned(LeSigned(s), |s|) == s
  {
    TopByteSign(s);
    var u := LeUnsigned(s);
    var v := LeSigned(s);
    assert (if v < 0 then v + Pow2(8 * |s|) else v) == u;
    LeBytesRoundTrip(s);
  }

  // ---------------------------------------------------------------------------
  // Normalisation (`convert_to_f32_sample::<N>`)
  // ---------------------------------------------------------------------------

  /** Negative values are divided by 2^(N-1), the others by 2^(N-1) - 1. */
  function ConvertToF32Sample(i: int, bits: nat): (r: real)
    requires bits >= 2
    ensures r < 0.0 <==> i < 0
    ensures r == 0.0 <==> i == 0
  {
    if i < 0 then i as real / Pow2(bits - 1) as real
    else i as real / (Pow2(bits - 1) - 1) as real
  }

  /** Every value an N-bit signed integer can hold lands in [-1, 1]; the minimum
      is the only one mapped to -1 and the maximum the only one mapped to 1. */
  lemma NormalisedRange(i: int, bits: nat)
    requires bits >= 2 && -Pow2(bits - 1) <= i < Pow2(bits - 1)
    ensures -1.0 <= ConvertToF32Sample(i, bits) <= 1.0
    ensures ConvertToF32Sample(i, bits) == -1.0 <==> i == -Pow2(bits - 1)
    ensures ConvertToF32Sample(i, bits) == 1.0 <==> i == Pow2(bits - 1) - 1
  {
    var r := ConvertToF32Sample(i, bits);
    if i < 0 {
      QuotientBounds(i as real, Pow2(bits - 1) as real, -1.0);
    } else {
      QuotientBounds(i as real, (Pow2(bits - 1) - 1) as real, 1.0);
    }
  }

  /** For a positive divisor d and |x| <= d, x / d lies in [-1, 1] and equals
      the sign e exactly when x == e * d. */
  lemma QuotientBounds(x: real, d: real, e: real)
    requires d > 0.0 && -d <= x <= d && (e == 1.0 || e == -1.0)
    ensures -1.0 <= x / d <= 1.0
    ensures x / d == e <==> x == e * d
  {
    var q := x / d;
    assert q * d == x;
    if x == e * d {
      assert q == (e * d) / d == e;
    }
  }

  /** The normalisation never reorders two values. */
  lemma NormaliseMonotone(i: int, j: int, bits: nat)
    requires bits >= 2 && i <= j
    ensures ConvertToF32Sample(i, bits) <= ConvertToF32Sample(j, bits)
  {
    if 0 <= i {
      QuotientMonotone(i as real, j as real, (Pow2(bits - 1) - 1) as real);
    } else if j < 0 {
      QuotientMonotone(i as real, j as real, Pow2(bits - 1) as real);
    }
  }

  lemma QuotientMonotone(x: real, y: real, d: real)
    requires d > 0.0 && x <= y
    ensures x / d <= y / d
  {
    assert (y / d - x / d) * d == y - x;
  }

  /** 16-bit values at the ends of the range and at zero. */
  lemma Normalise16Examples()
    ensures ConvertToF32Sample(-32768, 16) == -1.0
    ensures ConvertToF32Sample(0, 16) == 0.0
    ensures ConvertToF32Sample(32767, 16) == 1.0
  {
    assert Pow2(15) == 32768;
  }

  // ---------------------------------------------------------------------------
  // One frame into a BufferSample (`convert_to_sample`)
  // ---------------------------------------------------------------------------

  predicate SupportedDepth(bits: nat)
  {
    bits == 16 || bits == 24 || bits == 32
  }

  /** `slice::chunks(n)`: consecutive pieces of n bytes, the last one possibly shorter. */
  function Chunks(s: seq<byte>, n: nat): (r: seq<seq<byte>>)
    requires n > 0
    ensures forall c :: c in r ==> 0 < |c| <= n
    decreases |s|
  {
    if s == [] then []
    else if |s| <= n then [s]
    else [s[..n]] + Chunks(s[n..], n)
  }

  /** A string of k * n bytes falls into exactly k chunks, each of n bytes, which
      concatenate back to the string. */
  lemma {:induction false} ChunksOfMultiple(s: seq<byte>, n: nat, k: nat)
    requires n > 0 && |s| == k * n
    ensures |Chunks(s, n)| == k
    ensures forall c :: c in Chunks(s, n) ==> |c| == n
    ensures Flatten(Chunks(s, n)) == s
  {
    if k > 0 {
      assert |s[n..]| == (k - 1) * n;
      ChunksOfMultiple(s[n..], n, k - 1);
      if k > 1 {
        assert Chunks(s, n) == [s[..n]] + Chunks(s[n..], n);
      } else {
        assert Chunks(s, n) == [s];
        assert Chunks(s[n..], n) == [];
      }
      assert s == s[..n] + s[n..];
    }
  }

  function Flatten(cs: seq<seq<byte>>): (r: seq<byte>)
  {
    if cs == [] then [] else cs[0] + Flatten(cs[1..])
  }

  /** The value of one channel slot, by bit depth; an unsupported depth gives 0.0. */
  function ChannelValue(bits: nat, chunk: seq<byte>): (r: real)
    requires SupportedDepth(bits) ==> |chunk| >= bits / 8
    ensures -1.0 <= r <= 1.0
    ensures !SupportedDepth(bits) ==> r == 0.0
  {
    if SupportedDepth(bits) then
      var v := ReadLe(chunk, bits / 8);
      NormalisedRange(v, bits);
      ConvertToF32Sample(v, bits)
    else 0.0
  }

  /** What `convert_to_sample` may be applied to: a non-zero chunk width, no more
      chunks than slots, and whole chunks when the depth is one that is read. */
  predicate Convertible(h: HeaderArray, frame: seq<byte>)
  {
    SampleBytes(h) > 0
    && |Chunks(frame, SampleBytes(h))| <= MAX_CHANNELS
    && (SupportedDepth(SampleBits(h)) ==> |frame| % SampleBytes(h) == 0)
  }

  /** Each chunk of a convertible frame is long enough for the read its depth asks for. */
  lemma ConvertibleChunks(h: HeaderArray, frame: seq<byte>)
    requires Convertible(h, frame)
    ensures forall c :: c in Chunks(frame, SampleBytes(h)) ==>
              (SupportedDepth(SampleBits(h)) ==> |c| >= SampleBits(h) / 8)
  {
    if SupportedDepth(SampleBits(h)) {
      ChunksOfMultiple(frame, SampleBytes(h), |frame| / SampleBytes(h));
    }
  }

  /** Slot i holds the decoded chunk i; slots past the last chunk stay 0.0. */
  function SampleOf(h: HeaderArray, frame: seq<byte>): (r: BufferSample)
    requires Convertible(h, frame)
    ensures forall i :: 0 <= i < MAX_CHANNELS ==> -1.0 <= r[i] <= 1.0
    ensures forall i :: |Chunks(frame, SampleBytes(h))| <= i < MAX_CHANNELS ==> r[i] == 0.0
    ensures !SupportedDepth(SampleBits(h)) ==> r == Silence()
  {
    var cs := Chunks(frame, SampleBytes(h));
    ConvertibleChunks(h, frame);
    seq(MAX_CHANNELS, i requires 0 <= i < MAX_CHANNELS =>
      if i < |cs| then ChannelValue(SampleBits(h), cs[i]) else 0.0)
  }

  /** `convert_to_sample`: fill a zeroed ten-slot buffer chunk by chunk. */
  method ConvertToSample(h: HeaderArray, frame: seq<byte>) returns (r: BufferSample)
    requires Convertible(h, frame)
    ensures r == SampleOf(h, frame)
  {
    var newBuf := new real[MAX_CHANNELS](_ => 0.0);
    var chunks := Chunks(frame, SampleBytes(h));
    ConvertibleChunks(h, frame);
    for i := 0 to |chunks|
      invariant forall j :: 0 <= j < i ==> newBuf[j] == ChannelValue(SampleBits(h), chunks[j])
      invariant forall j :: i <= j < MAX_CHANNELS ==> newBuf[j] == 0.0
    {
      newBuf[i] := ChannelValue(SampleBits(h), chunks[i]);
    }
    r := newBuf[..];
  }

  /** A stereo frame of a supported depth decodes each channel from its own
      little-endian bytes; the eight remaining slots are 0.0. */
  lemma StereoFrameSlots(h: HeaderArray, frame: seq<byte>)
    requires SupportedDepth(SampleBits(h)) && |frame| == 2 * SampleBytes(h)
    ensures Convertible(h, frame)
    ensures SampleOf(h, frame)[0] == ConvertToF32Sample(LeSigned(frame[..SampleBytes(h)]), SampleBits(h))
    ensures SampleOf(h, frame)[1] == ConvertToF32Sample(LeSigned(frame[SampleBytes(h)..]), SampleBits(h))
    ensures forall i :: 2 <= i < MAX_CHANNELS ==> SampleOf(h, frame)[i] == 0.0
  {
    var n := SampleBytes(h);
    ChunksOfMultiple(frame, n, 2);
    assert Chunks(frame, n) == [frame[..n], frame[n..]];
    assert frame[..n][..n] == frame[..n];
    assert frame[n..][..n] == frame[n..];
  }
}
