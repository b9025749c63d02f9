/**
 * The microphone peak-level meter of Singular/audioinputsurface.cpp.
 *
 * A capture device hands the surface buffers of interleaved PCM frames.
 * The surface decodes every sample of every whole frame into a magnitude,
 * keeps one running maximum over the buffer, clamps it to the largest
 * magnitude the encoding can hold (the peak amplitude) and reports it as an
 * integer level 0..100 through the `microphone_data(id, level)` signal.
 */
module AudioInput {
  import opened Wrappers
  import opened Numbers

  /** An `unsigned char` of the buffer. */
  type Byte = b: int | 0 <= b < 0x100

  /** A `quint16`. */
  type U16 = w: int | 0 <= w < 0x1_0000

  datatype SampleType = Unknown | SignedInt | UnSignedInt | Float

  datatype Endian = BigEndian | LittleEndian

  /**
   * The part of the negotiated QAudioFormat the meter reads: the sample size
   * in bits, the sample type, the byte order and the channel count.
   */
  datatype AudioFormat = AudioFormat(
    sampleSize: nat,
    sampleType: SampleType,
    byteOrder: Endian,
    channelCount: nat)

  /** One emission of the `microphone_data(id, level)` signal. */
  datatype MicrophoneData = MicrophoneData(id: int, level: int)

  function Pow2(n: nat): nat {
    if n == 0 then 1 else 2 * Pow2(n - 1)
  }

  /**
   * The peak amplitude `set_amplitude` stores for a sample size and type:
   * None when the size is neither 8 nor 16 (the outer switch has no default
   * and leaves the field as it was), otherwise the largest magnitude an
   * integer sample of that size and signedness holds, and 0 for any other
   * sample type (metering disabled).
   */
  function PeakAmplitude(sampleSize: nat, sampleType: SampleType): (peak: Option<U16>)
    ensures peak.Some? <==> sampleSize == 8 || sampleSize == 16
    ensures peak.Some? && sampleType == UnSignedInt ==> peak.value == Pow2(sampleSize) - 1
    ensures peak.Some? && sampleType == SignedInt ==> peak.value == Pow2(sampleSize - 1) - 1
    ensures peak.Some? && sampleType != UnSignedInt && sampleType != SignedInt ==> peak.value == 0
  {
    match sampleSize
    case 8 =>
      assert Pow2(7) == 128;
      (match sampleType
       case UnSignedInt => Some(255)
       case SignedInt => Some(127)
       case _ => Some(0))
    case 16 =>
      assert Pow2(15) == 32768;
      (match sampleType
       case UnSignedInt => Some(65535)
       case SignedInt => Some(32767)
       case _ => Some(0))
    case _ => None
  }

  /** The two's complement value of a byte read as `qint8`. */
  function Int8(b: Byte): int {
    if b < 0x80 then b else b - 0x100
  }

  /** The two's complement value of a word read as `qint16`. */
  function Int16(w: U16): int {
    if w < 0x8000 then w else w - 0x1_0000
  }

  /**
   * `qAbs` of a `qint8`, stored into a `quint16`. qAbs computes in the type
   * of its argument, so negating -128 wraps back to -128, which the
   * conversion to `quint16` turns into 0xFF80.
   */
  function AbsInt8(b: Byte): (v: U16)
    ensures b != 0x80 ==> v == Abs(Int8(b))
    ensures b == 0x80 ==> v == 0x1_0000 - 0x80
  {
    var s := Int8(b);
    var a := if s >= 0 then s else Int8((-s) % 0x100);
    a % 0x1_0000
  }

  /**
   * `qAbs` of a `qint16`, stored into a `quint16`: negating -32768 wraps
   * back to -32768, which the conversion turns into 0x8000.
   */
  function AbsInt16(w: U16): (v: U16)
    ensures w != 0x8000 ==> v == Abs(Int16(w))
    ensures w == 0x8000 ==> v == 0x8000
  {
    var s := Int16(w);
    var a := if s >= 0 then s else Int16((-s) % 0x1_0000);
    a % 0x1_0000
  }

  /** `qFromLittleEndian` / `qFromBigEndian` of the two bytes b0, b1 (b0 first in memory). */
  function Word(order: Endian, b0: Byte, b1: Byte): (w: U16)
    ensures order == LittleEndian ==> w % 0x100 == b0 && w / 0x100 == b1
    ensures order == BigEndian ==> w / 0x100 == b0 && w % 0x100 == b1
  {
    match order
    case LittleEndian => b0 + 0x100 * b1
    case BigEndian => 0x100 * b0 + b1
  }

  /** `sample_bytes`: the size of one sample in whole bytes. */
  function SampleBytes(format: AudioFormat): nat {
    format.sampleSize / 8
  }

  /** `channel_bytes`: the size of one frame (one sample per channel) in bytes. */
  function FrameBytes(format: AudioFormat): nat {
    format.channelCount * SampleBytes(format)
  }

  /**
   * The number of samples `writeData` scans in a buffer of maxSize bytes:
   * every channel of every whole frame (`total_samples` frames). Only whole
   * frames are scanned: the scanned samples end inside the first maxSize
   * bytes, and what is left over is shorter than one frame.
   */
  function ScannedSamples(format: AudioFormat, maxSize: nat): (n: nat)
    requires FrameBytes(format) > 0
    ensures n * SampleBytes(format) <= maxSize
    ensures maxSize - n * SampleBytes(format) < FrameBytes(format)
    ensures format.channelCount > 0 && n % format.channelCount == 0
  {
    var ch, sb := format.channelCount, SampleBytes(format);
    var frames := maxSize / (ch * sb);
    MulAssoc(frames, ch, sb);
    DivBounds(maxSize, ch * sb);
    PositiveFactor(sb, ch);
    MulMod(frames, ch);
    frames * ch
  }

  lemma DivBounds(a: nat, b: nat)
    requires b > 0
    ensures (a / b) * b <= a < (a / b) * b + b
  {
  }

  /**
   * `sample_bytes` is 1 for 8-bit and 2 for 16-bit samples and 0 below 8
   * bits; a frame has bytes exactly when there is a channel and a sample
   * has at least one byte.
   */
  lemma FrameSizes(format: AudioFormat)
    ensures format.sampleSize == 8 ==> SampleBytes(format) == 1
    ensures format.sampleSize == 16 ==> SampleBytes(format) == 2
    ensures format.sampleSize < 8 ==> SampleBytes(format) == 0
    ensures FrameBytes(format) > 0 <==> format.channelCount > 0 && format.sampleSize >= 8
  {
    var ch, sb := format.channelCount, SampleBytes(format);
    if ch > 0 && sb > 0 {
      MulMono(1, ch, sb);
    } else if ch * sb > 0 {
      PositiveFactor(ch, sb);
      PositiveFactor(sb, ch);
    }
  }

  lemma MulMod(a: nat, b: nat)
    requires b > 0
    ensures (a * b) % b == 0
  {
    var q, r := (a * b) / b, (a * b) % b;
    assert r == (a - q) * b;
    if a > q {
      MulMono(1, a - q, b);
      assert false;
    }
  }

  lemma MulAssoc(a: int, b: int, c: int)
    ensures (a * b) * c == a * (b * c)
  {
  }

  /**
   * The magnitude of the sample whose first byte is data[pos], decoded by
   * depth, signedness and byte order; 0 for an encoding the meter does not
   * recognise (no branch of the decoder matches).
   */
  function DecodeAt(format: AudioFormat, data: seq<Byte>, pos: nat): U16
    requires pos + SampleBytes(format) <= |data|
  {
    if format.sampleSize == 8 && format.sampleType == UnSignedInt then
      data[pos]
    else if format.sampleSize == 8 && format.sampleType == SignedInt then
      AbsInt8(data[pos])
    else if format.sampleSize == 16 && format.sampleType == UnSignedInt then
      Word(format.byteOrder, data[pos], data[pos + 1])
    else if format.sampleSize == 16 && format.sampleType == SignedInt then
      AbsInt16(Word(format.byteOrder, data[pos], data[pos + 1]))
    else
      0
  }

  /**
   * What each encoding decodes to: the raw byte, the absolute value of a
   * signed byte, the word in the format's byte order, or the absolute value
   * of a signed word. The most negative signed value decodes above the peak,
   * and any other sample type decodes to 0.
   */
  lemma DecodeAtCases(format: AudioFormat, data: seq<Byte>, pos: nat)
    requires pos + SampleBytes(format) <= |data|
    ensures var v, size, kind := DecodeAt(format, data, pos), format.sampleSize, format.sampleType;
      && (size == 8 && kind == UnSignedInt ==> v == data[pos])
      && (size == 8 && kind == SignedInt && data[pos] != 0x80 ==> v == Abs(Int8(data[pos])))
      && (size == 16 && kind == UnSignedInt ==>
            v == if format.byteOrder == LittleEndian then data[pos] as int + 0x100 * data[pos + 1] as int
                 else 0x100 * data[pos] as int + data[pos + 1] as int)
      && (size == 16 && kind == SignedInt ==>
            var w := Word(format.byteOrder, data[pos], data[pos + 1]);
            w != 0x8000 ==> v == Abs(Int16(w)))
      && (MostNegative(format, data, pos) ==> v > PeakAmplitude(size, kind).value)
      && (kind != UnSignedInt && kind != SignedInt ==> v == 0)
  {
  }

  /**
   * The sample at pos holds the most negative value of a signed encoding
   * (0x80, or the word 0x8000), whose magnitude does not fit the signed type.
   */
  predicate MostNegative(format: AudioFormat, data: seq<Byte>, pos: nat) {
    && pos + SampleBytes(format) <= |data|
    && format.sampleType == SignedInt
    && (|| (format.sampleSize == 8 && data[pos] == 0x80)
        || (format.sampleSize == 16 && Word(format.byteOrder, data[pos], data[pos + 1]) == 0x8000))
  }

  /**
   * For the recognised encodings the peak amplitude bounds every decoded
   * magnitude except that of the most negative signed value, and some
   * sample reaches it.
   */
  lemma DecodeWithinPeak(format: AudioFormat, data: seq<Byte>, pos: nat)
    requires pos + SampleBytes(format) <= |data|
    requires format.sampleSize == 8 || format.sampleSize == 16
    ensures !MostNegative(format, data, pos) ==>
      DecodeAt(format, data, pos) <= PeakAmplitude(format.sampleSize, format.sampleType).value
    ensures exists b0: Byte, b1: Byte ::
      DecodeAt(format, [b0, b1], 0) == PeakAmplitude(format.sampleSize, format.sampleType).value
  {
    var peak := PeakAmplitude(format.sampleSize, format.sampleType).value;
    var b0: Byte, b1: Byte := 0, 0;
    match format.sampleType {
      case UnSignedInt =>
        b0, b1 := 0xFF, 0xFF;
      case SignedInt =>
        if format.sampleSize == 8 {
          b0 := 0x7F;
        } else if format.byteOrder == LittleEndian {
          b0, b1 := 0xFF, 0x7F;
        } else {
          b0, b1 := 0x7F, 0xFF;
        }
      case _ =>
    }
    assert DecodeAt(format, [b0, b1], 0) == peak;
  }

  /**
   * The magnitudes of the first n samples of the buffer, in buffer order:
   * sample k starts at byte k * sample_bytes, whatever its channel.
   */
  function Samples(format: AudioFormat, data: seq<Byte>, n: nat): (s: seq<U16>)
    requires n * SampleBytes(format) <= |data|
    ensures |s| == n
  {
    if n == 0 then []
    else
      var sb := SampleBytes(format);
      assert (n - 1) * sb + sb == n * sb;
      Samples(format, data, n - 1) + [DecodeAt(format, data, (n - 1) * sb)]
  }

  /** Sample k of the scan is the sample decoded at byte k * sample_bytes. */
  lemma {:induction false} SampleIndex(format: AudioFormat, data: seq<Byte>, n: nat, k: nat)
    requires n * SampleBytes(format) <= |data| && k < n
    ensures k * SampleBytes(format) + SampleBytes(format) <= n * SampleBytes(format)
    ensures Samples(format, data, n)[k] == DecodeAt(format, data, k * SampleBytes(format))
  {
    var sb := SampleBytes(format);
    MulMono(k + 1, n, sb);
    if k < n - 1 {
      assert (n - 1) * sb + sb == n * sb;
      SampleIndex(format, data, n - 1, k);
    }
  }

  /**
   * The running maximum over a run of magnitudes, folded from the left as
   * the scan does, starting from 0.
   */
  function SeqMax(s: seq<U16>): U16 {
    if |s| == 0 then 0
    else Max(SeqMax(s[..|s| - 1]), s[|s| - 1])
  }

  /**
   * The running maximum is the largest of the magnitudes: it bounds each
   * of them and is one of them, and it is 0 when there are none.
   */
  lemma {:induction false} SeqMaxIsMax(s: seq<U16>)
    ensures forall k :: 0 <= k < |s| ==> s[k] <= SeqMax(s)
    ensures |s| == 0 ==> SeqMax(s) == 0
    ensures |s| > 0 ==> SeqMax(s) in s
  {
    if |s| > 0 {
      var init := s[..|s| - 1];
      SeqMaxIsMax(init);
      assert forall k :: 0 <= k < |init| ==> s[k] == init[k];
      if |init| > 0 {
        assert SeqMax(init) in s;
      }
    }
  }

  /**
   * The level reported for a running maximum m: m clamped to the peak, as a
   * percentage of the peak rounded down.
   */
  function Level(m: U16, peak: U16): (level: int)
    requires peak > 0
    ensures 0 <= level <= 100
    ensures level * peak <= Min(m, peak) * 100 < (level + 1) * peak
  {
    Min(m, peak) * 100 / peak
  }

  /** The level `writeData` reports for the first maxSize bytes of data. */
  function BufferLevel(format: AudioFormat, data: seq<Byte>, maxSize: nat, peak: U16): int
    requires peak > 0 && FrameBytes(format) > 0 && maxSize <= |data|
  {
    Level(SeqMax(Samples(format, data, ScannedSamples(format, maxSize))), peak)
  }

  /** An all-silent buffer reports level 0, whatever the format. */
  lemma SilentBufferLevel(format: AudioFormat, data: seq<Byte>, maxSize: nat, peak: U16)
    requires peak > 0 && FrameBytes(format) > 0 && maxSize <= |data|
    requires forall i :: 0 <= i < maxSize ==> data[i] == 0
    ensures BufferLevel(format, data, maxSize, peak) == 0
  {
    var samples := Samples(format, data, ScannedSamples(format, maxSize));
    SilentSamples(format, data, ScannedSamples(format, maxSize), maxSize);
    SeqMaxIsMax(samples);
  }

  /** Samples read from all-zero bytes all decode to 0. */
  lemma SilentSamples(format: AudioFormat, data: seq<Byte>, n: nat, limit: nat)
    requires n * SampleBytes(format) <= limit <= |data|
    requires forall i :: 0 <= i < limit ==> data[i] == 0
    ensures forall k :: 0 <= k < n ==> Samples(format, data, n)[k] == 0
  {
    forall k | 0 <= k < n
      ensures Samples(format, data, n)[k] == 0
    {
      SampleIndex(format, data, n, k);
      DecodeSilent(format, data, k * SampleBytes(format));
    }
  }

  /** A sample whose bytes are all zero decodes to magnitude 0. */
  lemma DecodeSilent(format: AudioFormat, data: seq<Byte>, pos: nat)
    requires pos + SampleBytes(format) <= |data|
    requires forall i :: pos <= i < pos + SampleBytes(format) ==> data[i] == 0
    ensures DecodeAt(format, data, pos) == 0
  {
  }

  /**
   * For a sample size other than 8 and 16 no branch of the decoder matches:
   * every emitted level is 0, whatever the peak field holds.
   */
  lemma UnsupportedSizeLevel(format: AudioFormat, data: seq<Byte>, maxSize: nat, peak: U16)
    requires peak > 0 && FrameBytes(format) > 0 && maxSize <= |data|
    requires format.sampleSize != 8 && format.sampleSize != 16
    ensures BufferLevel(format, data, maxSize, peak) == 0
  {
    var n := ScannedSamples(format, maxSize);
    var samples := Samples(format, data, n);
    forall k | 0 <= k < n
      ensures samples[k] == 0
    {
      SampleIndex(format, data, n, k);
    }
    SeqMaxIsMax(samples);
  }

  /**
   * One scanned sample, of any channel, at or above the peak amplitude makes
   * the level 100: the running maximum is clamped to the peak.
   */
  lemma FullScaleLevel(format: AudioFormat, data: seq<Byte>, maxSize: nat, peak: U16, k: nat)
    requires peak > 0 && FrameBytes(format) > 0 && maxSize <= |data|
    requires k < ScannedSamples(format, maxSize)
    requires Samples(format, data, ScannedSamples(format, maxSize))[k] >= peak
    ensures BufferLevel(format, data, maxSize, peak) == 100
  {
    var samples := Samples(format, data, ScannedSamples(format, maxSize));
    SeqMaxIsMax(samples);
    var m := SeqMax(samples);
    assert Min(m, peak) == peak;
    assert Level(m, peak) == 100 by { LevelAtPeak(m, peak); }
  }

  lemma LevelAtPeak(m: U16, peak: U16)
    requires 0 < peak <= m
    ensures Level(m, peak) == 100
  {
    var level := Level(m, peak);
    assert Min(m, peak) == peak;
    if level < 100 {
      MulMono(level + 1, 100, peak);
      assert false;
    }
  }

  /**
   * The most negative signed sample anywhere in the scanned frames drives
   * the level to 100 rather than past it.
   */
  lemma MostNegativeLevel(format: AudioFormat, data: seq<Byte>, maxSize: nat, k: nat)
    requires format.sampleSize == 8 || format.sampleSize == 16
    requires FrameBytes(format) > 0 && maxSize <= |data|
    requires k < ScannedSamples(format, maxSize)
    requires MostNegative(format, data, k * SampleBytes(format))
    ensures PeakAmplitude(format.sampleSize, format.sampleType).value > 0
    ensures BufferLevel(format, data, maxSize, PeakAmplitude(format.sampleSize, format.sampleType).value) == 100
  {
    var peak := PeakAmplitude(format.sampleSize, format.sampleType).value;
    var n := ScannedSamples(format, maxSize);
    SampleIndex(format, data, n, k);
    FullScaleLevel(format, data, maxSize, peak, k);
  }

  /** The magnitudes of the first n samples depend only on their own bytes. */
  lemma {:induction false} SamplesOfPrefix(format: AudioFormat, d1: seq<Byte>, d2: seq<Byte>, n: nat)
    requires n * SampleBytes(format) <= |d1| && n * SampleBytes(format) <= |d2|
    requires d1[..n * SampleBytes(format)] == d2[..n * SampleBytes(format)]
    ensures Samples(format, d1, n) == Samples(format, d2, n)
  {
    if n > 0 {
      var sb := SampleBytes(format);
      var pos := (n - 1) * sb;
      assert pos + sb == n * sb;
      assert d1[..pos] == d1[..n * sb][..pos] && d2[..pos] == d2[..n * sb][..pos];
      SamplesOfPrefix(format, d1, d2, n - 1);
      if format.sampleSize == 8 || format.sampleSize == 16 {
        assert d1[pos] == d1[..n * sb][pos] && d2[pos] == d2[..n * sb][pos];
      }
      if format.sampleSize == 16 {
        assert d1[pos + 1] == d1[..n * sb][pos + 1] && d2[pos + 1] == d2[..n * sb][pos + 1];
      }
    }
  }

  /**
   * Bytes after the last whole frame are never read: two buffers that agree
   * on the scanned frames report the same level.
   */
  lemma TrailingBytesIgnored(format: AudioFormat, d1: seq<Byte>, d2: seq<Byte>, maxSize: nat, peak: U16)
    requires peak > 0 && FrameBytes(format) > 0 && maxSize <= |d1| && maxSize <= |d2|
    requires var scanned := ScannedSamples(format, maxSize) * SampleBytes(format);
      d1[..scanned] == d2[..scanned]
    ensures BufferLevel(format, d1, maxSize, peak) == BufferLevel(format, d2, maxSize, peak)
  {
    SamplesOfPrefix(format, d1, d2, ScannedSamples(format, maxSize));
  }

  /**
   * A stereo 16-bit signed little-endian buffer of two frames, (0, 0) and
   * (0x4000, 0): the loudest sample is 16384 and the level is
   * 16384 * 100 / 32767 = 50.
   */
  lemma StereoExampleLevel()
    ensures var format := AudioFormat(16, SignedInt, LittleEndian, 2);
      BufferLevel(format, [0, 0, 0, 0, 0, 0x40, 0, 0], 8, 32767) == 50
  {
    var format := AudioFormat(16, SignedInt, LittleEndian, 2);
    var data: seq<Byte> := [0, 0, 0, 0, 0, 0x40, 0, 0];
    assert ScannedSamples(format, 8) == 4;
    var samples := Samples(format, data, 4);
    assert samples == [0, 0, 0x4000, 0] by {
      forall k | 0 <= k < 4
        ensures samples[k] == [0, 0, 0x4000, 0][k]
      {
        SampleIndex(format, data, 4, k);
      }
    }
    SeqMaxIsMax(samples);
    assert SeqMax(samples) == 0x4000;
  }

  class AudioInputSurface {
    const id: int
    const format: AudioFormat
    /** `audio_peak_amplitude`. */
    var peak: U16
    /** Every `microphone_data` emission so far, oldest first. */
    ghost var emitted: seq<MicrophoneData>

    /** The peak matches the format whenever `set_amplitude` assigns it. */
    ghost predicate Valid()
      reads this
    {
      PeakAmplitude(format.sampleSize, format.sampleType).Some? ==>
        peak == PeakAmplitude(format.sampleSize, format.sampleType).value
    }

    /**
     * Builds the surface for the format finally negotiated with the device.
     * `unsetPeak` stands for the indeterminate contents of the never
     * initialised peak field, which `set_amplitude` keeps for sample sizes
     * other than 8 and 16.
     */
    constructor (newId: int, newFormat: AudioFormat, unsetPeak: U16)
      ensures id == newId && format == newFormat && emitted == []
      ensures peak == PeakAmplitude(newFormat.sampleSize, newFormat.sampleType).GetOr(unsetPeak)
      ensures Valid()
    {
      id := newId;
      format := newFormat;
      peak := unsetPeak;
      emitted := [];
      new;
      SetAmplitude();
    }

    /** `set_amplitude`: store the peak amplitude of the format's encoding. */
    method SetAmplitude()
      modifies this`peak
      ensures peak == PeakAmplitude(format.sampleSize, format.sampleType).GetOr(old(peak))
      ensures Valid()
    {
      match format.sampleSize
      case 8 =>
        match format.sampleType {
          case UnSignedInt => peak := 255;
          case SignedInt => peak := 127;
          case _ => peak := 0;
        }
      case 16 =>
        match format.sampleType {
          case UnSignedInt => peak := 65535;
          case SignedInt => peak := 32767;
          case _ => peak := 0;
        }
      case _ =>
    }

    /**
     * The two loops of `writeData`: walk the whole frames of bytes, channel
     * by channel, and keep the largest sample magnitude seen.
     */
    method ScanFrames(bytes: seq<Byte>, maxSize: nat) returns (maxValue: U16)
      requires maxSize <= |bytes| && FrameBytes(format) > 0
      ensures maxValue == SeqMax(Samples(format, bytes, ScannedSamples(format, maxSize)))
    {
      maxValue := 0;
      var sampleBytes := format.sampleSize / 8;
      var channelBytes := format.channelCount * sampleBytes;
      assert sampleBytes == SampleBytes(format) && channelBytes == FrameBytes(format);
      PositiveFactor(format.channelCount, sampleBytes);
      // the source calls this total_samples; it counts whole frames
      var frames := maxSize / channelBytes;
      var ptr: nat := 0;
      for i := 0 to frames
        invariant ptr == i * channelBytes && ptr <= maxSize
        invariant maxValue == SeqMax(SamplesBelow(format, bytes, ptr))
      {
        WholeFrame(i, frames, channelBytes, maxSize);
        ghost var start := ptr;
        for j := 0 to format.channelCount
          invariant ptr == start + j * sampleBytes && ptr <= maxSize
          invariant maxValue == SeqMax(SamplesBelow(format, bytes, ptr))
        {
          InFrame(j, format.channelCount, sampleBytes, start, maxSize);
          var value := DecodeAt(format, bytes, ptr);
          ScanStep(format, bytes, ptr, ptr + sampleBytes, maxValue, value);
          maxValue := if value < maxValue then maxValue else value;
          ptr := ptr + sampleBytes;
          MulSucc(j, sampleBytes);
        }
        MulSucc(i, channelBytes);
      }
      ScannedBytes(format, bytes, maxSize, ptr);
    }

    /**
     * `writeData`: scan the first maxSize bytes of data and, unless the peak
     * is 0, emit the level once with this surface's id. The whole buffer is
     * reported as consumed.
     */
    method WriteData(data: array<Byte>, maxSize: nat) returns (consumed: nat)
      requires Valid() && maxSize <= data.Length
      requires peak != 0 ==> FrameBytes(format) > 0
      modifies this`emitted
      ensures Valid() && consumed == maxSize
      ensures peak == 0 ==> emitted == old(emitted)
      ensures peak != 0 ==>
        emitted == old(emitted) + [MicrophoneData(id, BufferLevel(format, data[..], maxSize, peak))]
    {
      if peak != 0 {
        var maxValue := ScanFrames(data[..], maxSize);
        ghost var scanMax := maxValue;
        maxValue := if maxValue < peak then maxValue else peak;
        var level := maxValue * 100 / peak;
        assert level == Level(scanMax, peak);
        emitted := emitted + [MicrophoneData(id, level)];
      }
      consumed := maxSize;
    }
  }

  /**
   * The magnitudes of the samples that end at or before byte end, stepping
   * back one sample at a time from end: for end a multiple of the sample
   * size, the samples of the first end bytes in buffer order.
   */
  function SamplesBelow(format: AudioFormat, data: seq<Byte>, end: nat): seq<U16>
    requires SampleBytes(format) > 0 && end <= |data|
    decreases end
  {
    if end < SampleBytes(format) then []
    else
      SamplesBelow(format, data, end - SampleBytes(format))
        + [DecodeAt(format, data, end - SampleBytes(format))]
  }

  /** The first n samples are the samples below byte n * sample_bytes. */
  lemma {:induction false} SamplesBelowCount(format: AudioFormat, data: seq<Byte>, n: nat)
    requires SampleBytes(format) > 0 && n * SampleBytes(format) <= |data|
    ensures Samples(format, data, n) == SamplesBelow(format, data, n * SampleBytes(format))
  {
    if n > 0 {
      var sb := SampleBytes(format);
      MulSucc(n - 1, sb);
      SamplesBelowCount(format, data, n - 1);
    }
  }

  /**
   * The samples below the end of the last whole frame are the samples the
   * scan counts.
   */
  lemma ScannedBytes(format: AudioFormat, data: seq<Byte>, maxSize: nat, end: nat)
    requires FrameBytes(format) > 0 && maxSize <= |data|
    requires end == (maxSize / FrameBytes(format)) * FrameBytes(format) && end <= |data|
    ensures SampleBytes(format) > 0
    ensures Samples(format, data, ScannedSamples(format, maxSize)) == SamplesBelow(format, data, end)
  {
    var frames, ch, sb := maxSize / FrameBytes(format), format.channelCount, SampleBytes(format);
    MulAssoc(frames, ch, sb);
    SamplesBelowCount(format, data, frames * ch);
  }

  /**
   * One step of the scan: folding the sample at byte pos into the maximum
   * of the samples below pos gives the maximum of the samples below next,
   * the end of that sample.
   */
  lemma ScanStep(format: AudioFormat, data: seq<Byte>, pos: nat, next: nat, maxValue: U16, value: U16)
    requires SampleBytes(format) > 0 && next == pos + SampleBytes(format) && next <= |data|
    requires maxValue == SeqMax(SamplesBelow(format, data, pos))
    requires value == DecodeAt(format, data, pos)
    ensures (if value < maxValue then maxValue else value) == SeqMax(SamplesBelow(format, data, next))
  {
    var below := SamplesBelow(format, data, pos);
    SamplesBelowStep(format, data, pos);
    assert SamplesBelow(format, data, next) == below + [value];
    SeqMaxAppend(below, value);
  }

  /** The samples below the end of the sample at pos are those below pos and that sample. */
  lemma SamplesBelowStep(format: AudioFormat, data: seq<Byte>, pos: nat)
    requires SampleBytes(format) > 0 && pos + SampleBytes(format) <= |data|
    ensures SamplesBelow(format, data, pos + SampleBytes(format))
      == SamplesBelow(format, data, pos) + [DecodeAt(format, data, pos)]
  {
  }

  /** Frame i of the whole frames ends inside maxSize bytes. */
  lemma WholeFrame(i: nat, frames: nat, frameBytes: nat, maxSize: nat)
    requires frameBytes > 0 && frames == maxSize / frameBytes && i < frames
    ensures i * frameBytes + frameBytes <= maxSize
  {
    MulMono(i + 1, frames, frameBytes);
    MulSucc(i, frameBytes);
    DivBounds(maxSize, frameBytes);
  }

  /** Sample j of a frame of count samples starting at byte start ends inside the frame. */
  lemma InFrame(j: nat, count: nat, size: nat, start: nat, limit: nat)
    requires j < count && start + count * size <= limit
    ensures start + j * size + size <= limit
  {
    MulMono(j + 1, count, size);
    MulSucc(j, size);
  }

  /** The maximum of a sequence extended by v is the larger of its old maximum and v. */
  lemma SeqMaxAppend(s: seq<U16>, v: U16)
    ensures SeqMax(s + [v]) == if v < SeqMax(s) then SeqMax(s) else v
  {
    assert (s + [v])[..|s|] == s;
  }

  lemma PositiveFactor(a: nat, b: nat)
    requires a * b > 0
    ensures b > 0
  {
  }

  lemma MulSucc(a: nat, b: nat)
    ensures 0 <= a * b && (a + 1) * b == a * b + b
  {
  }

  lemma MulMono(a: nat, b: nat, c: nat)
    requires a <= b
    ensures a * c <= b * c
  {
  }
}
