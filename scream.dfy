/** The five-byte Scream packet header and the stream format decoded from it. */
module Scream {

  const HEADER_SIZE: nat := 5

  /** `u8` */
  type byte = x: int | 0 <= x < 256

  /** `ScreamHeaderArray`, the first five bytes of a packet. */
  type HeaderArray = s: seq<byte> | |s| == HEADER_SIZE witness [0, 0, 0, 0, 0]

  /** The masks of the rate byte in arithmetic terms. */
  lemma RateByteBits(b: byte)
    ensures ((b as bv8) & 0x7F) as int == b % 128
    ensures ((b as bv8) & 0x80 == 0) <==> b < 128
  {
  }

  /** Bits 0-6 of the rate byte: the multiplier. */
  function RateMultiplier(b: byte): (m: nat)
    ensures m == b % 128
  {
    RateByteBits(b);
    ((b as bv8) & 0x7F) as int
  }

  /** Bit 7 of the rate byte: set selects the 44100 Hz base. */
  function Is44100Base(b: byte): (set44k: bool)
    ensures set44k <==> b >= 128
  {
    RateByteBits(b);
    (b as bv8) & 0x80 != 0
  }

  /** Bit 7 of byte 0 selects the base rate (clear: 48000 Hz, set: 44100 Hz);
      bits 0-6 are an integer multiplier. */
  function SampleRate(h: HeaderArray): (r: nat)
    ensures h[0] < 0x80 ==> r == 48000 * (h[0] as int)
    ensures h[0] >= 0x80 ==> r == 44100 * (h[0] as int - 128)
    ensures r <= 48000 * 127
  {
    var multiplier := RateMultiplier(h[0]);
    if !Is44100Base(h[0]) then 48000 * multiplier else 44100 * multiplier
  }

  /** Byte 1, passed through as the bit depth. */
  function SampleBits(h: HeaderArray): (r: nat)
    ensures r == h[1] && r < 256
  {
    h[1]
  }

  /** The channel count is not decoded; every stream is taken to be stereo. */
  function Channels(h: HeaderArray): (r: nat)
    ensures r == 2
  {
    2
  }

  /** Bytes per channel sample: the bit depth divided by 8, rounded down. */
  function SampleBytes(h: HeaderArray): (r: nat)
    ensures r * 8 <= SampleBits(h) < r * 8 + 8
  {
    SampleBits(h) / 8
  }

  /** The decoded rate is a whole multiple of one of the two base rates, and
      it is 0 exactly when the multiplier bits are all clear. */
  lemma SampleRateShape(h: HeaderArray)
    ensures SampleRate(h) % 48000 == 0 || SampleRate(h) % 44100 == 0
    ensures SampleRate(h) == 0 <==> h[0] == 0x00 || h[0] == 0x80
  {
  }

  /** A non-zero rate determines byte 0: no multiple of 48000 below 48000 * 128
      is also a multiple of 44100, so two headers with the same non-zero rate
      agree on the selector bit and the multiplier. */
  lemma SampleRateDeterminesRateByte(h1: HeaderArray, h2: HeaderArray)
    requires SampleRate(h1) == SampleRate(h2) != 0
    ensures h1[0] == h2[0]
  {
    NoCommonRate(h1[0] % 128, h2[0] % 128);
    NoCommonRate(h2[0] % 128, h1[0] % 128);
  }

  /** 160 and 147 are coprime, so 160 * a == 147 * b would force 147 to divide a. */
  lemma NoCommonRate(a: nat, b: nat)
    requires a < 128 && b < 128 && (a, b) != (0, 0)
    ensures 48000 * a != 44100 * b
  {
  }

  /** Worked examples of the rate byte: 0x00, 0x01, 0x02, 0x81 and 0x82. */
  lemma SampleRateExamples()
    ensures SampleRate([0x00, 16, 0, 0, 0]) == 0
    ensures SampleRate([0x01, 16, 0, 0, 0]) == 48000
    ensures SampleRate([0x02, 16, 0, 0, 0]) == 96000
    ensures SampleRate([0x81, 16, 0, 0, 0]) == 44100
    ensures SampleRate([0x82, 16, 0, 0, 0]) == 88200
  {
  }

  /** The three supported bit depths give 2, 3 and 4 bytes per sample. */
  lemma SampleBytesOfSupportedDepths(h: HeaderArray)
    ensures h[1] == 16 ==> SampleBytes(h) == 2
    ensures h[1] == 24 ==> SampleBytes(h) == 3
    ensures h[1] == 32 ==> SampleBytes(h) == 4
    ensures h[1] < 8 <==> SampleBytes(h) == 0
  {
  }

  /** Bytes 2 to 4 never influence a decoded field. */
  lemma ReservedBytesIgnored(h1: HeaderArray, h2: HeaderArray)
    requires h1[0] == h2[0] && h1[1] == h2[1]
    ensures SampleRate(h1) == SampleRate(h2)
    ensures SampleBits(h1) == SampleBits(h2)
    ensures SampleBytes(h1) == SampleBytes(h2)
    ensures Channels(h1) == Channels(h2) == 2
  {
  }
}
