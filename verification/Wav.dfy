/** `audioBufferToWav`: a decoded audio buffer re-encoded as a canonical
    44-byte-header RIFF/WAVE file of interleaved little-endian 16-bit PCM. */
module Wav {

  newtype byte = x: int | 0 <= x < 256

  // ---------------------------------------------------------------------------
  // Little-endian fields

  const Two16: int := 0x1_0000
  const Two32: int := 0x1_0000_0000

  /** `DataView.setUint16(pos, v, true)`: `v` reduced modulo 2^16, low byte
      first. `setInt16` writes the same bytes (two's complement). */
  function U16Le(v: int): (r: seq<byte>)
    ensures |r| == 2
  {
    var w := v % Two16;
    [(w % 256) as byte, (w / 256) as byte]
  }

  /** `DataView.setUint32(pos, v, true)`: `v` reduced modulo 2^32, low byte
      first. */
  function U32Le(v: int): (r: seq<byte>)
    ensures |r| == 4
  {
    var w := v % Two32;
    [(w % 256) as byte, (w / 256 % 256) as byte, (w / 0x1_0000 % 256) as byte, (w / 0x100_0000) as byte]
  }

  function ReadU16Le(s: seq<byte>, i: nat): nat
    requires i + 2 <= |s|
  {
    s[i] as nat + 256 * s[i + 1] as nat
  }

  function ReadU32Le(s: seq<byte>, i: nat): nat
    requires i + 4 <= |s|
  {
    s[i] as nat + 256 * s[i + 1] as nat + 0x1_0000 * s[i + 2] as nat + 0x100_0000 * s[i + 3] as nat
  }

  /** A field of the file as the encoder writes it. */
  datatype Field = U16(value: int) | U32(value: int)

  function Encode(f: Field): (r: seq<byte>)
    ensures |r| == if f.U16? then 2 else 4
  {
    match f
    case U16(v) => U16Le(v)
    case U32(v) => U32Le(v)
  }

  /** The bytes of a list of fields written one after the other. */
  function Encoding(fs: seq<Field>): seq<byte> {
    if fs == [] then [] else Encoding(fs[..|fs| - 1]) + Encode(fs[|fs| - 1])
  }

  /** Writing one more field appends its bytes. */
  lemma EncodingPrefix(fs: seq<Field>, k: nat)
    requires k < |fs|
    ensures Encoding(fs[..k + 1]) == Encoding(fs[..k]) + Encode(fs[k])
  {
    assert fs[..k + 1][..k] == fs[..k];
  }

  /** The signed reading of a 16-bit field (two's complement). */
  function ReadI16Le(s: seq<byte>, i: nat): int
    requires i + 2 <= |s|
  {
    var u := ReadU16Le(s, i);
    if u < 0x8000 then u else u - Two16
  }

  lemma U16RoundTrip(v: int)
    ensures ReadU16Le(U16Le(v), 0) == v % Two16
  {
  }

  lemma U32RoundTrip(v: int)
    ensures ReadU32Le(U32Le(v), 0) == v % Two32
  {
    var w := v % Two32;
    var a, b, c := w / 256, w / 0x1_0000, w / 0x100_0000;
    assert w == a * 256 + w % 256;
    assert a == (a / 256) * 256 + a % 256;
    assert a / 256 == b;
    assert b == (b / 256) * 256 + b % 256;
    assert b / 256 == c;
  }

  /** A 16-bit sample in range reads back as itself. */
  lemma I16RoundTrip(v: int)
    requires -0x8000 <= v < 0x8000
    ensures ReadI16Le(U16Le(v), 0) == v
  {
    U16RoundTrip(v);
  }

  /** A field read inside a larger sequence only looks at its own bytes. */
  lemma ReadU16Within(s: seq<byte>, i: nat, v: int)
    requires i + 2 <= |s| && s[i..i + 2] == U16Le(v)
    ensures ReadU16Le(s, i) == v % Two16
  {
    U16RoundTrip(v);
    assert s[i] == U16Le(v)[0] && s[i + 1] == U16Le(v)[1];
  }

  lemma ReadI16Within(s: seq<byte>, i: nat, v: int)
    requires -0x8000 <= v < 0x8000
    requires i + 2 <= |s| && s[i..i + 2] == U16Le(v)
    ensures ReadI16Le(s, i) == v
  {
    I16RoundTrip(v);
    assert s[i] == U16Le(v)[0] && s[i + 1] == U16Le(v)[1];
  }

  lemma ReadU32Within(s: seq<byte>, i: nat, v: int)
    requires i + 4 <= |s| && s[i..i + 4] == U32Le(v)
    ensures ReadU32Le(s, i) == v % Two32
  {
    U32RoundTrip(v);
    var f := U32Le(v);
    assert s[i] == f[0] && s[i + 1] == f[1] && s[i + 2] == f[2] && s[i + 3] == f[3];
  }

  // ---------------------------------------------------------------------------
  // Sample quantisation

  /** `x | 0` on a value inside the 32-bit range: truncation toward zero. */
  function TruncToInt(x: real): int {
    if x >= 0.0 then x.Floor else -((-x).Floor)
  }

  /** Truncation moves toward zero by less than one. */
  lemma TruncBounds(x: real)
    ensures x >= 0.0 ==> TruncToInt(x) as real <= x < TruncToInt(x) as real + 1.0
    ensures x < 0.0 ==> TruncToInt(x) as real - 1.0 < x <= TruncToInt(x) as real
  {
  }

  function Clamp(x: real): (r: real)
    ensures -1.0 <= r <= 1.0
    ensures -1.0 <= x <= 1.0 ==> r == x
    ensures x < -1.0 ==> r == -1.0
    ensures x > 1.0 ==> r == 1.0
  {
    if x > 1.0 then 1.0 else if x < -1.0 then -1.0 else x
  }

  /** One sample: clamped to [-1, 1], scaled by 0x8000 when negative and by
      0x7fff otherwise, truncated toward zero. */
  function Quantize(x: real): (r: int)
    ensures -0x8000 <= r <= 0x7fff
    ensures x >= 0.0 ==> r >= 0
    ensures x <= 0.0 ==> r <= 0
    ensures Clamp(x) < 0.0 ==> r as real - 1.0 < Clamp(x) * 32768.0 <= r as real
    ensures Clamp(x) >= 0.0 ==> r as real <= Clamp(x) * 32767.0 < r as real + 1.0
  {
    var c := Clamp(x);
    TruncBounds(c * 32768.0);
    TruncBounds(c * 32767.0);
    if c < 0.0 then TruncToInt(c * 32768.0) else TruncToInt(c * 32767.0)
  }

  /** Full scale: the clamp sends everything at or beyond 1 to 0x7fff and
      everything at or below -1 to -0x8000. */
  lemma QuantizeExtremes(x: real)
    ensures x >= 1.0 ==> Quantize(x) == 0x7fff
    ensures x <= -1.0 ==> Quantize(x) == -0x8000
    ensures Quantize(0.0) == 0
  {
  }

  /** Quantisation never reverses the order of two samples. */
  lemma QuantizeMonotone(x: real, y: real)
    requires x <= y
    ensures Quantize(x) <= Quantize(y)
  {
    var cx, cy := Clamp(x), Clamp(y);
    assert cx <= cy;
    if cx < 0.0 && cy < 0.0 {
      TruncMonotone(cx * 32768.0, cy * 32768.0);
    } else if cx >= 0.0 && cy >= 0.0 {
      TruncMonotone(cx * 32767.0, cy * 32767.0);
    }
  }

  lemma TruncMonotone(x: real, y: real)
    requires x <= y
    ensures TruncToInt(x) <= TruncToInt(y)
  {
  }

  // ---------------------------------------------------------------------------
  // The buffer and the file

  /** `AudioBuffer`: `length` frames of `numberOfChannels` channels, each
      channel's data a sequence of `length` samples. */
  datatype AudioBuffer = AudioBuffer(sampleRate: nat, length: nat, channels: seq<seq<real>>)
  {
    predicate Valid() {
      forall i :: 0 <= i < |channels| ==> |channels[i]| == length
    }

    function NumberOfChannels(): nat {
      |channels|
    }
  }

  datatype Blob = Blob(data: seq<byte>, mimeType: string)

  const HeaderSize: nat := 44

  /** The byte length `audioBufferToWav` allocates. */
  function WavLength(b: AudioBuffer): nat {
    b.length * b.NumberOfChannels() * 2 + HeaderSize
  }

  /** The header fields, in the order they are written. */
  function HeaderLayout(numChan: nat, sampleRate: nat, length: nat): seq<Field> {
    [ U32(0x46464952), U32(length - 8), U32(0x45564157),
      U32(0x20746d66), U32(16), U16(1), U16(numChan),
      U32(sampleRate), U32(sampleRate * 2 * numChan),
      U16(numChan * 2), U16(16),
      U32(0x61746164), U32(length - HeaderSize) ]
  }

  /** The 44-byte header. */
  function WavHeader(numChan: nat, sampleRate: nat, length: nat): (r: seq<byte>)
    ensures |r| == HeaderSize
  {
    HeaderBytes(numChan, sampleRate, length);
    Encoding(HeaderLayout(numChan, sampleRate, length))
  }

  /** The header spelled out field by field. */
  lemma HeaderBytes(numChan: nat, sampleRate: nat, length: nat)
    ensures Encoding(HeaderLayout(numChan, sampleRate, length))
      == U32Le(0x46464952) + U32Le(length - 8) + U32Le(0x45564157)
      + U32Le(0x20746d66) + U32Le(16) + U16Le(1) + U16Le(numChan)
      + U32Le(sampleRate) + U32Le(sampleRate * 2 * numChan)
      + U16Le(numChan * 2) + U16Le(16)
      + U32Le(0x61746164) + U32Le(length - HeaderSize)
  {
    var fs := HeaderLayout(numChan, sampleRate, length);
    assert fs[..0] == [] && fs[..13] == fs;
    EncodingPrefix(fs, 0);
    EncodingPrefix(fs, 1);
    EncodingPrefix(fs, 2);
    EncodingPrefix(fs, 3);
    EncodingPrefix(fs, 4);
    EncodingPrefix(fs, 5);
    EncodingPrefix(fs, 6);
    EncodingPrefix(fs, 7);
    EncodingPrefix(fs, 8);
    EncodingPrefix(fs, 9);
    EncodingPrefix(fs, 10);
    EncodingPrefix(fs, 11);
    EncodingPrefix(fs, 12);
  }

  /** The bytes of the first `chans` channels of frame `f`. */
  function FrameBytes(b: AudioBuffer, f: nat, chans: nat): (r: seq<byte>)
    requires b.Valid() && f < b.length && chans <= b.NumberOfChannels()
    ensures |r| == 2 * chans
  {
    if chans == 0 then []
    else FrameBytes(b, f, chans - 1) + U16Le(Quantize(b.channels[chans - 1][f]))
  }

  /** The sample bytes of the first `frames` frames, channel-interleaved. */
  function Interleaved(b: AudioBuffer, frames: nat): (r: seq<byte>)
    requires b.Valid() && frames <= b.length
  {
    if frames == 0 then []
    else Interleaved(b, frames - 1) + FrameBytes(b, frames - 1, b.NumberOfChannels())
  }

  lemma {:induction false} InterleavedLength(b: AudioBuffer, frames: nat)
    requires b.Valid() && frames <= b.length
    ensures |Interleaved(b, frames)| == 2 * b.NumberOfChannels() * frames
  {
    if frames > 0 {
      InterleavedLength(b, frames - 1);
      assert 2 * b.NumberOfChannels() * frames == 2 * b.NumberOfChannels() * (frames - 1) + 2 * b.NumberOfChannels();
    }
  }

  /** The whole file `audioBufferToWav` produces. */
  function WavBytes(b: AudioBuffer): seq<byte>
    requires b.Valid()
  {
    WavHeader(b.NumberOfChannels(), b.sampleRate, WavLength(b)) + Interleaved(b, b.length)
  }

  /** Where the sample of channel `c` in frame `f` starts. */
  function SampleOffset(numChan: nat, f: nat, c: nat): nat {
    HeaderSize + 2 * (f * numChan + c)
  }

  // ---------------------------------------------------------------------------
  // Properties of the file

  /** The file is exactly header plus two bytes per sample. */
  lemma WavSize(b: AudioBuffer)
    requires b.Valid()
    ensures |WavBytes(b)| == WavLength(b) == HeaderSize + 2 * b.NumberOfChannels() * b.length
  {
    var n := b.NumberOfChannels();
    InterleavedLength(b, b.length);
    ProgressArith(n, b.length, b.length);
    assert |WavBytes(b)| == HeaderSize + |Interleaved(b, b.length)|;
  }

  /** Every header field, read back little-endian: the RIFF size is the file
      length minus 8, the format tag 1 (PCM), the byte rate
      `sampleRate * 2 * numChan`, the block align `numChan * 2`, 16 bits per
      sample, and the data size the file length minus 44 (each field modulo
      its width). */
  lemma HeaderFields(numChan: nat, sampleRate: nat, length: nat)
    ensures var h := WavHeader(numChan, sampleRate, length);
      && ReadU32Le(h, 0) == 0x46464952
      && ReadU32Le(h, 4) == (length - 8) % Two32
      && ReadU32Le(h, 8) == 0x45564157
      && ReadU32Le(h, 12) == 0x20746d66
      && ReadU32Le(h, 16) == 16
      && ReadU16Le(h, 20) == 1
      && ReadU16Le(h, 22) == numChan % Two16
      && ReadU32Le(h, 24) == sampleRate % Two32
      && ReadU32Le(h, 28) == (sampleRate * 2 * numChan) % Two32
      && ReadU16Le(h, 32) == (numChan * 2) % Two16
      && ReadU16Le(h, 34) == 16
      && ReadU32Le(h, 36) == 0x61746164
      && ReadU32Le(h, 40) == (length - HeaderSize) % Two32
  {
    RiffFields(numChan, sampleRate, length);
    FormatFields(numChan, sampleRate, length);
    DataFields(numChan, sampleRate, length);
  }

  /** The RIFF chunk header: tag, size, and the `WAVE` form type. */
  lemma RiffFields(numChan: nat, sampleRate: nat, length: nat)
    ensures var h := WavHeader(numChan, sampleRate, length);
      && ReadU32Le(h, 0) == 0x46464952
      && ReadU32Le(h, 4) == (length - 8) % Two32
      && ReadU32Le(h, 8) == 0x45564157
  {
    var h := WavHeader(numChan, sampleRate, length);
    HeaderBytes(numChan, sampleRate, length);
    ReadU32Within(h, 0, 0x46464952);
    ReadU32Within(h, 4, length - 8);
    ReadU32Within(h, 8, 0x45564157);
  }

  /** The `fmt ` chunk: PCM, channel count, rates, alignment and depth. */
  lemma FormatFields(numChan: nat, sampleRate: nat, length: nat)
    ensures var h := WavHeader(numChan, sampleRate, length);
      && ReadU32Le(h, 12) == 0x20746d66
      && ReadU32Le(h, 16) == 16
      && ReadU16Le(h, 20) == 1
      && ReadU16Le(h, 22) == numChan % Two16
      && ReadU32Le(h, 24) == sampleRate % Two32
      && ReadU32Le(h, 28) == (sampleRate * 2 * numChan) % Two32
      && ReadU16Le(h, 32) == (numChan * 2) % Two16
      && ReadU16Le(h, 34) == 16
  {
    FormatTagFields(numChan, sampleRate, length);
    RateFields(numChan, sampleRate, length);
  }

  lemma FormatTagFields(numChan: nat, sampleRate: nat, length: nat)
    ensures var h := WavHeader(numChan, sampleRate, length);
      && ReadU32Le(h, 12) == 0x20746d66
      && ReadU32Le(h, 16) == 16
      && ReadU16Le(h, 20) == 1
      && ReadU16Le(h, 22) == numChan % Two16
  {
    var h := WavHeader(numChan, sampleRate, length);
    HeaderBytes(numChan, sampleRate, length);
    ReadU32Within(h, 12, 0x20746d66);
    ReadU32Within(h, 16, 16);
    ReadU16Within(h, 20, 1);
    ReadU16Within(h, 22, numChan);
  }

  lemma RateFields(numChan: nat, sampleRate: nat, length: nat)
    ensures var h := WavHeader(numChan, sampleRate, length);
      && ReadU32Le(h, 24) == sampleRate % Two32
      && ReadU32Le(h, 28) == (sampleRate * 2 * numChan) % Two32
      && ReadU16Le(h, 32) == (numChan * 2) % Two16
      && ReadU16Le(h, 34) == 16
  {
    var h := WavHeader(numChan, sampleRate, length);
    HeaderBytes(numChan, sampleRate, length);
    ReadU32Within(h, 24, sampleRate);
    ReadU32Within(h, 28, sampleRate * 2 * numChan);
    ReadU16Within(h, 32, numChan * 2);
    ReadU16Within(h, 34, 16);
  }

  /** The `data` chunk header: tag and the size of the sample data. */
  lemma DataFields(numChan: nat, sampleRate: nat, length: nat)
    ensures var h := WavHeader(numChan, sampleRate, length);
      && ReadU32Le(h, 36) == 0x61746164
      && ReadU32Le(h, 40) == (length - HeaderSize) % Two32
  {
    var h := WavHeader(numChan, sampleRate, length);
    HeaderBytes(numChan, sampleRate, length);
    ReadU32Within(h, 36, 0x61746164);
    ReadU32Within(h, 40, length - HeaderSize);
  }

  /** The four chunk tags spell `RIFF`, `WAVE`, `fmt ` and `data` in ASCII. */
  lemma HeaderTags(numChan: nat, sampleRate: nat, length: nat)
    ensures var h := WavHeader(numChan, sampleRate, length);
      && h[0..4] == [0x52, 0x49, 0x46, 0x46]
      && h[8..12] == [0x57, 0x41, 0x56, 0x45]
      && h[12..16] == [0x66, 0x6d, 0x74, 0x20]
      && h[36..40] == [0x64, 0x61, 0x74, 0x61]
  {
    var h := WavHeader(numChan, sampleRate, length);
    HeaderBytes(numChan, sampleRate, length);
    TagBytes();
    var riff, wave, fmt, data := h[0..4], h[8..12], h[12..16], h[36..40];
    assert riff == U32Le(0x46464952);
    assert wave == U32Le(0x45564157);
    assert fmt == U32Le(0x20746d66);
    assert data == U32Le(0x61746164);
  }

  lemma TagBytes()
    ensures U32Le(0x46464952) == [0x52, 0x49, 0x46, 0x46]
    ensures U32Le(0x45564157) == [0x57, 0x41, 0x56, 0x45]
    ensures U32Le(0x20746d66) == [0x66, 0x6d, 0x74, 0x20]
    ensures U32Le(0x61746164) == [0x64, 0x61, 0x74, 0x61]
  {
  }

  /** Within one frame, channel `c` sits at byte `2 * c`. */
  lemma {:induction false} FrameSample(b: AudioBuffer, f: nat, chans: nat, c: nat)
    requires b.Valid() && f < b.length && c < chans <= b.NumberOfChannels()
    ensures FrameBytes(b, f, chans)[2 * c..2 * c + 2] == U16Le(Quantize(b.channels[c][f]))
  {
    if c < chans - 1 {
      FrameSample(b, f, chans - 1, c);
    }
  }

  lemma SliceLeft(a: seq<byte>, b: seq<byte>, i: nat, j: nat)
    requires i <= j <= |a|
    ensures (a + b)[i..j] == a[i..j]
  {
  }

  lemma SliceRight(a: seq<byte>, b: seq<byte>, i: nat, j: nat)
    requires i <= j <= |b|
    ensures (a + b)[|a| + i..|a| + j] == b[i..j]
  {
  }

  /** A sample of an earlier frame lies before the last frame. */
  lemma EarlierFrame(n: nat, f: nat, c: nat, frames: nat)
    requires f < frames && c < n
    ensures 2 * (f * n + c) + 2 <= 2 * n * frames
  {
    MulMono(n, f + 1, frames);
    assert n * (f + 1) == n * f + n;
    assert f * n == n * f;
    assert 2 * n * frames == 2 * (n * frames);
  }

  lemma FrameOffset(n: nat, f: nat, c: nat)
    ensures 2 * (f * n + c) == 2 * n * f + 2 * c
  {
    assert f * n == n * f;
    assert 2 * n * f == 2 * (n * f);
  }

  /** The samples of the last frame written sit after all earlier frames. */
  lemma LastFrameSample(b: AudioBuffer, frames: nat, c: nat)
    requires b.Valid() && 0 < frames <= b.length && c < b.NumberOfChannels()
    ensures var n, f := b.NumberOfChannels(), frames - 1;
      2 * (f * n + c) + 2 <= |Interleaved(b, frames)|
      && Interleaved(b, frames)[2 * (f * n + c)..2 * (f * n + c) + 2] == U16Le(Quantize(b.channels[c][f]))
  {
    var n, f := b.NumberOfChannels(), frames - 1;
    var prev := Interleaved(b, f);
    var frame := FrameBytes(b, f, n);
    assert 2 * (f * n + c) == |prev| + 2 * c by {
      InterleavedLength(b, f);
      FrameOffset(n, f, c);
    }
    assert frame[2 * c..2 * c + 2] == U16Le(Quantize(b.channels[c][f])) by {
      FrameSample(b, f, n, c);
    }
    SliceRight(prev, frame, 2 * c, 2 * c + 2);
  }

  /** Frame `f`, channel `c` sits at byte `2 * (f * numChan + c)` of the
      sample data. */
  lemma {:induction false} InterleavedSample(b: AudioBuffer, frames: nat, f: nat, c: nat)
    requires b.Valid() && frames <= b.length && f < frames && c < b.NumberOfChannels()
    ensures var n := b.NumberOfChannels();
      2 * (f * n + c) + 2 <= |Interleaved(b, frames)|
      && Interleaved(b, frames)[2 * (f * n + c)..2 * (f * n + c) + 2] == U16Le(Quantize(b.channels[c][f]))
  {
    if f == frames - 1 {
      LastFrameSample(b, frames, c);
    } else {
      var n := b.NumberOfChannels();
      var prev := Interleaved(b, frames - 1);
      var frame := FrameBytes(b, frames - 1, n);
      var k := 2 * (f * n + c);
      InterleavedLength(b, frames - 1);
      InterleavedSample(b, frames - 1, f, c);
      EarlierFrame(n, f, c, frames - 1);
      SliceLeft(prev, frame, k, k + 2);
    }
  }

  /** Every sample of the buffer is in the file at its offset, quantised. */
  lemma WavSample(b: AudioBuffer, f: nat, c: nat)
    requires b.Valid() && f < b.length && c < b.NumberOfChannels()
    ensures var n := b.NumberOfChannels();
      SampleOffset(n, f, c) + 2 <= |WavBytes(b)|
      && ReadI16Le(WavBytes(b), SampleOffset(n, f, c)) == Quantize(b.channels[c][f])
  {
    var n := b.NumberOfChannels();
    InterleavedSample(b, b.length, f, c);
    ReadI16After(WavHeader(n, b.sampleRate, WavLength(b)), Interleaved(b, b.length),
      2 * (f * n + c), Quantize(b.channels[c][f]));
  }

  /** A 16-bit field of the data part, read from the whole file. */
  lemma ReadI16After(h: seq<byte>, d: seq<byte>, k: nat, v: int)
    requires -0x8000 <= v < 0x8000
    requires k + 2 <= |d| && d[k..k + 2] == U16Le(v)
    ensures |h| + k + 2 <= |h + d| && ReadI16Le(h + d, |h| + k) == v
  {
    assert (h + d)[|h| + k..|h| + k + 2] == d[k..k + 2];
    ReadI16Within(h + d, |h| + k, v);
  }

  // ---------------------------------------------------------------------------
  // The encoder

  /** `setUint32`: writes `v` at `pos` and returns the advanced position. */
  method PutU32(view: array<byte>, pos: nat, v: int) returns (next: nat)
    requires pos + 4 <= view.Length
    modifies view
    ensures next == pos + 4
    ensures view[..next] == old(view[..pos]) + U32Le(v)
    ensures view[next..] == old(view[next..])
  {
    var bs := U32Le(v);
    view[pos] := bs[0];
    view[pos + 1] := bs[1];
    view[pos + 2] := bs[2];
    view[pos + 3] := bs[3];
    next := pos + 4;
  }

  /** `setUint16` (and `setInt16`, which writes the same bytes). */
  method PutU16(view: array<byte>, pos: nat, v: int) returns (next: nat)
    requires pos + 2 <= view.Length
    modifies view
    ensures next == pos + 2
    ensures view[..next] == old(view[..pos]) + U16Le(v)
    ensures view[next..] == old(view[next..])
  {
    var bs := U16Le(v);
    view[pos] := bs[0];
    view[pos + 1] := bs[1];
    next := pos + 2;
  }

  lemma MulMono(n: nat, a: nat, b: nat)
    requires a <= b
    ensures n * a <= n * b
  {
    assert n * b == n * a + n * (b - a);
  }

  lemma MulStrict(n: nat, a: nat, b: nat)
    requires 0 < n && a < b
    ensures n * a < n * b
  {
    assert n * b == n * a + n * (b - a);
  }

  /** While the file is not full, a further frame fits. */
  lemma {:induction false} FrameFits(b: AudioBuffer, offset: nat)
    requires b.Valid() && offset <= b.length
    requires |Interleaved(b, offset)| < |Interleaved(b, b.length)|
    ensures offset < b.length && 0 < b.NumberOfChannels()
    ensures |Interleaved(b, offset)| + 2 * b.NumberOfChannels() <= |Interleaved(b, b.length)|
  {
    InterleavedLength(b, offset);
    InterleavedLength(b, b.length);
    ProgressArith(b.NumberOfChannels(), offset, b.length);
  }

  /** A full file holds every frame. */
  lemma {:induction false} AllFrames(b: AudioBuffer, offset: nat)
    requires b.Valid() && offset <= b.length
    requires |Interleaved(b, offset)| >= |Interleaved(b, b.length)|
    ensures Interleaved(b, offset) == Interleaved(b, b.length)
  {
    var n := b.NumberOfChannels();
    InterleavedLength(b, offset);
    InterleavedLength(b, b.length);
    ProgressArith(n, offset, b.length);
    if n == 0 {
      NoChannels(b, offset);
      NoChannels(b, b.length);
    }
  }

  lemma ProgressArith(n: nat, offset: nat, frames: nat)
    requires offset <= frames
    ensures frames * n * 2 == 2 * n * frames
    ensures 2 * n * offset <= 2 * n * frames
    ensures 2 * n * offset < 2 * n * frames ==> offset < frames && 0 < n && 2 * n * offset + 2 * n <= 2 * n * frames
    ensures 2 * n * offset >= 2 * n * frames ==> n == 0 || offset == frames
  {
    MulMono(2 * n, offset, frames);
    if offset < frames {
      MulMono(2 * n, offset + 1, frames);
      if n > 0 {
        MulStrict(2 * n, offset, frames);
      }
    }
  }

  /** Without channels there is no sample data at all. */
  lemma {:induction false} NoChannels(b: AudioBuffer, frames: nat)
    requires b.Valid() && frames <= b.length && b.NumberOfChannels() == 0
    ensures Interleaved(b, frames) == []
  {
    if frames > 0 {
      NoChannels(b, frames - 1);
    }
  }

  /** Completing frame `offset` extends the written data by one frame. */
  lemma NextFrame(b: AudioBuffer, offset: nat, header: seq<byte>)
    requires b.Valid() && offset < b.length
    ensures header + Interleaved(b, offset) + FrameBytes(b, offset, b.NumberOfChannels())
         == header + Interleaved(b, offset + 1)
    ensures |Interleaved(b, offset + 1)| == |Interleaved(b, offset)| + 2 * b.NumberOfChannels()
  {
  }

  /** A write at or before `next` that keeps everything from `next` on
      keeps the bytes after the header. */
  lemma TailKept(before: seq<byte>, after: seq<byte>, next: nat, rest: seq<byte>)
    requires next <= HeaderSize <= |before| == |after|
    requires after[next..] == before[next..] && before[HeaderSize..] == rest
    ensures after[HeaderSize..] == rest
  {
    assert after[HeaderSize..] == after[next..][HeaderSize - next..];
    assert before[HeaderSize..] == before[next..][HeaderSize - next..];
  }

  /** The header writes of `audioBufferToWav`, in order, at the start of
      `view`. */
  method WriteHeader(view: array<byte>, numChan: nat, sampleRate: nat) returns (pos: nat)
    requires HeaderSize <= view.Length
    modifies view
    ensures pos == HeaderSize
    ensures view[..pos] == WavHeader(numChan, sampleRate, view.Length)
    ensures view[pos..] == old(view[HeaderSize..])
  {
    var length := view.Length;
    ghost var rest := view[HeaderSize..];
    ghost var before: seq<byte>;
    pos := 0;
    before := view[..];
    pos := PutU32(view, pos, 0x46464952);
    TailKept(before, view[..], pos, rest);
    ghost var written := U32Le(0x46464952);
    assert view[..pos] == written;
    before := view[..];
    pos := PutU32(view, pos, length - 8);
    TailKept(before, view[..], pos, rest);
    written := written + U32Le(length - 8);
    assert view[..pos] == written;
    before := view[..];
    pos := PutU32(view, pos, 0x45564157);
    TailKept(before, view[..], pos, rest);
    written := written + U32Le(0x45564157);
    assert view[..pos] == written;
    before := view[..];
    pos := PutU32(view, pos, 0x20746d66);
    TailKept(before, view[..], pos, rest);
    written := written + U32Le(0x20746d66);
    assert view[..pos] == written;
    before := view[..];
    pos := PutU32(view, pos, 16);
    TailKept(before, view[..], pos, rest);
    written := written + U32Le(16);
    assert view[..pos] == written;
    before := view[..];
    pos := PutU16(view, pos, 1);
    TailKept(before, view[..], pos, rest);
    written := written + U16Le(1);
    assert view[..pos] == written;
    before := view[..];
    pos := PutU16(view, pos, numChan);
    TailKept(before, view[..], pos, rest);
    written := written + U16Le(numChan);
    assert view[..pos] == written;
    before := view[..];
    pos := PutU32(view, pos, sampleRate);
    TailKept(before, view[..], pos, rest);
    written := written + U32Le(sampleRate);
    assert view[..pos] == written;
    before := view[..];
    pos := PutU32(view, pos, sampleRate * 2 * numChan);
    TailKept(before, view[..], pos, rest);
    written := written + U32Le(sampleRate * 2 * numChan);
    assert view[..pos] == written;
    before := view[..];
    pos := PutU16(view, pos, numChan * 2);
    TailKept(before, view[..], pos, rest);
    written := written + U16Le(numChan * 2);
    assert view[..pos] == written;
    before := view[..];
    pos := PutU16(view, pos, 16);
    TailKept(before, view[..], pos, rest);
    written := written + U16Le(16);
    assert view[..pos] == written;
    before := view[..];
    pos := PutU32(view, pos, 0x61746164);
    TailKept(before, view[..], pos, rest);
    written := written + U32Le(0x61746164);
    assert view[..pos] == written;
    ghost var dataSize := length - pos - 4;
    before := view[..];
    pos := PutU32(view, pos, length - pos - 4);
    TailKept(before, view[..], pos, rest);
    written := written + U32Le(dataSize);
    assert view[..pos] == written;
    HeaderBytes(numChan, sampleRate, length);
    assert written == WavHeader(numChan, sampleRate, length);
  }

  /** One pass of the channel loop: the samples of frame `offset`, channel
      by channel, from `pos`. */
  method WriteFrame(view: array<byte>, buffer: AudioBuffer, offset: nat, pos0: nat) returns (pos: nat)
    requires buffer.Valid() && offset < buffer.length
    requires pos0 + 2 * buffer.NumberOfChannels() <= view.Length
    modifies view
    ensures pos == pos0 + 2 * buffer.NumberOfChannels()
    ensures view[..pos] == old(view[..pos0]) + FrameBytes(buffer, offset, buffer.NumberOfChannels())
    ensures view[pos..] == old(view[pos..])
  {
    var numOfChan := buffer.NumberOfChannels();
    ghost var done := view[..pos0];
    pos := pos0;
    var i := 0;
    assert done + FrameBytes(buffer, offset, 0) == done;
    while i < numOfChan
      invariant i <= numOfChan
      invariant pos == pos0 + 2 * i
      invariant view[..pos] == done + FrameBytes(buffer, offset, i)
      invariant view[pos..] == old(view[pos..])
    {
      var sample := Quantize(buffer.channels[i][offset]);
      pos := PutU16(view, pos, sample);
      i := i + 1;
    }
  }

  /** The sample loop of `audioBufferToWav`: from the end of the header,
      frame after frame and each frame's channels in order, until the file is
      full. */
  method WriteSamples(view: array<byte>, buffer: AudioBuffer)
    requires buffer.Valid() && view.Length == HeaderSize + |Interleaved(buffer, buffer.length)|
    modifies view
    ensures view[..] == old(view[..HeaderSize]) + Interleaved(buffer, buffer.length)
  {
    var numOfChan := buffer.NumberOfChannels();
    var length := view.Length;
    ghost var header := view[..HeaderSize];
    var pos := HeaderSize;
    var offset: nat := 0;
    while pos < length
      invariant offset <= buffer.length
      invariant pos == HeaderSize + |Interleaved(buffer, offset)| <= length
      invariant view[..pos] == header + Interleaved(buffer, offset)
      decreases length - pos
    {
      FrameFits(buffer, offset);
      pos := WriteFrame(view, buffer, offset, pos);
      NextFrame(buffer, offset, header);
      offset := offset + 1;
    }
    AllFrames(buffer, offset);
    assert pos == view.Length;
  }

  /** `audioBufferToWav`: allocate the file, write the header, then the
      samples, and wrap the bytes as an `audio/wav` blob. */
  method AudioBufferToWav(buffer: AudioBuffer) returns (blob: Blob)
    requires buffer.Valid()
    ensures blob.mimeType == "audio/wav"
    ensures blob.data == WavBytes(buffer)
  {
    var numOfChan := buffer.NumberOfChannels();
    var length := buffer.length * numOfChan * 2 + HeaderSize;
    var view := new byte[length];
    WavSize(buffer);
    var pos := WriteHeader(view, numOfChan, buffer.sampleRate);
    WriteSamples(view, buffer);
    blob := Blob(view[..], "audio/wav");
  }
}
