/**
 The sample-rate conversion of source/aaudio_bridge.c.  Samples are opaque values; what is modelled
 is which input sample goes where, how many frames come out, and the remainder that is carried
 from one callback to the next.
 */
module Resampler {
  const OUT_RATE: nat := 48000

  // The parameters of an open stream.
  datatype Config = Config(frames: nat, rate: nat, channels: nat, capacity: nat)

  predicate Legal(c: Config) {
    && 32 <= c.frames <= 8192 && 8000 <= c.rate <= 192000 && 1 <= c.channels <= 8
    && c.capacity == (c.frames * OUT_RATE + c.rate - 1) / c.rate
  }

  const FORMAT_UNSPECIFIED: int := 0
  const FORMAT_PCM_I16: int := 1
  const FORMAT_PCM_FLOAT: int := 2

  // What the guest set on the builder; the numbers are whatever it passed.
  datatype Builder = Builder(output: bool, callback: bool, rate: int, channels: int, format: int, frames: int)

  datatype Opened = Accepted(c: Config, format: int) | Unimplemented | IllegalArgument

  // The limits of aaudio_bridge_builder_open_stream: defaults for what is not positive or not
  // specified, then the range checks and the clamps.
  function Open(b: Builder): Opened {
    var r, ch := if b.rate > 0 then b.rate else 48000, if b.channels > 0 then b.channels else 2;
    var format := if b.format == FORMAT_UNSPECIFIED then FORMAT_PCM_FLOAT else b.format;
    if !b.output then Unimplemented
    else if !b.callback then IllegalArgument
    else if r < 8000 || r > 192000 || ch < 1 || ch > 8 || (format != FORMAT_PCM_FLOAT && format != FORMAT_PCM_I16) then
      IllegalArgument
    else
      var asked := if b.frames > 0 then b.frames else 1024;
      var f := if asked < 32 then 32 else if asked > 8192 then 8192 else asked;
      Accepted(Config(f, r, ch, (f * OUT_RATE + r - 1) / r), format)
  }

  lemma OpenIsLegal(b: Builder)
    ensures Open(b).Accepted? ==> Legal(Open(b).c) && Open(b).format in {FORMAT_PCM_I16, FORMAT_PCM_FLOAT}
    ensures Open(b).Unimplemented? <==> !b.output
    ensures Open(b).IllegalArgument? <==>
      b.output && (!b.callback || 0 < b.rate < 8000 || b.rate > 192000 || b.channels > 8 || b.format !in {0, 1, 2})
  {
  }

  /** The guest gets what it asked for: defaults stand in only for what it left out, limits for what exceeds them. */
  lemma OpenKeepsRequest(b: Builder)
    requires Open(b).Accepted?
    ensures
      var c := Open(b).c;
      && (b.rate > 0 ==> c.rate == b.rate) && (b.rate <= 0 ==> c.rate == OUT_RATE)
      && (b.channels > 0 ==> c.channels == b.channels) && (b.channels <= 0 ==> c.channels == 2)
      && (b.format != FORMAT_UNSPECIFIED ==> Open(b).format == b.format)
      && (32 <= b.frames <= 8192 ==> c.frames == b.frames) && (b.frames <= 0 ==> c.frames == 1024)
      && (0 < b.frames < 32 ==> c.frames == 32) && (b.frames > 8192 ==> c.frames == 8192)
  {
  }

  // Input frames per callback, measured in output ticks.
  function Ticks(c: Config): nat { c.frames * OUT_RATE }

  lemma TicksInRange(c: Config)
    requires Legal(c)
    ensures 1536000 <= Ticks(c) <= 393216000
  {
  }

  // ---------------------------------------------------------------- division

  lemma Divided(a: nat, b: nat)
    requires b > 0
    ensures a == b * (a / b) + a % b
  {
  }

  lemma Scale(b: nat, x: nat, y: nat)
    requires x <= y
    ensures b * x <= b * y
  {
  }

  lemma AtMost(a: nat, b: nat, q: nat)
    requires b > 0 && a < b * (q + 1)
    ensures a / b <= q
  {
    if a / b > q { Scale(b, q + 1, a / b); Divided(a, b); }
  }

  lemma AtLeast(a: nat, b: nat, q: nat)
    requires b > 0 && b * q <= a
    ensures q <= a / b
  {
    if a / b < q { Scale(b, a / b + 1, q); Divided(a, b); }
  }

  // ---------------------------------------------------------------- one callback

  // The two clamps on the frame count, in their order.
  function Limited(frames: nat, capacity: nat): nat {
    var n := if frames < 1 then 1 else frames;
    if n > capacity then capacity else n
  }

  /** The frame count of a callback is at least one and never exceeds the capacity: both clamps are dead. */
  lemma CountInRange(c: Config, remainder: nat)
    requires Legal(c) && remainder < c.rate
    ensures 1 <= (Ticks(c) + remainder) / c.rate <= c.capacity
    ensures Limited((Ticks(c) + remainder) / c.rate, c.capacity) == (Ticks(c) + remainder) / c.rate
  {
    TicksInRange(c);
    var n, top := Ticks(c) + remainder, Ticks(c) + c.rate - 1;
    AtLeast(n, c.rate, 1);
    Divided(n, c.rate);
    AtLeast(top, c.rate, n / c.rate);
  }

  // The input frame that output frame `of` is taken from.
  function SourceFrame(c: Config, of: nat): nat
    requires c.rate > 0
  {
    of * c.rate / OUT_RATE
  }

  /** Every output frame of a callback has its source inside the callback's buffer: the index clamp is dead. */
  lemma SourceInRange(c: Config, remainder: nat, of: nat)
    requires Legal(c) && remainder < c.rate && of < (Ticks(c) + remainder) / c.rate
    ensures SourceFrame(c, of) < c.frames
  {
    var n := Ticks(c) + remainder;
    Divided(n, c.rate);
    Scale(c.rate, of + 1, n / c.rate);
    assert c.rate * (of + 1) == of * c.rate + c.rate;
    assert of * c.rate < OUT_RATE * c.frames;
    AtMost(of * c.rate, OUT_RATE, c.frames - 1);
  }

  /** Output frames take their sources in order. */
  lemma SourcesInOrder(c: Config, i: nat, j: nat)
    requires i <= j && c.rate > 0
    ensures SourceFrame(c, i) <= SourceFrame(c, j)
  {
    Scale(c.rate, i, j);
    Divided(i * c.rate, OUT_RATE);
    AtLeast(j * c.rate, OUT_RATE, i * c.rate / OUT_RATE);
  }

  // The sample of a channel, with the channel brought into range.
  function SampleIndex(c: Config, frame: nat, channel: nat): nat
    requires c.channels > 0
  {
    frame * c.channels + (if c.channels <= 1 then 0 else if channel >= c.channels then c.channels - 1 else channel)
  }

  lemma SampleInRange(c: Config, frame: nat, channel: nat)
    requires c.channels > 0 && frame < c.frames
    ensures SampleIndex(c, frame, channel) < c.frames * c.channels
  {
    Scale(c.channels, frame + 1, c.frames);
  }

  // input_sample_i16
  function Sample<T>(c: Config, input: seq<T>, frame: nat, channel: nat): T
    requires c.channels > 0 && frame < c.frames && |input| == c.frames * c.channels
  {
    SampleInRange(c, frame, channel);
    input[SampleIndex(c, frame, channel)]
  }

  // Frame `of` of the output: left from the first channel, right from the second if there is one.
  predicate Filled<T(==)>(c: Config, input: seq<T>, left: T, right: T, of: nat)
    requires c.channels > 0 && c.rate > 0 && |input| == c.frames * c.channels
  {
    && SourceFrame(c, of) < c.frames
    && left == Sample(c, input, SourceFrame(c, of), 0)
    && right == Sample(c, input, SourceFrame(c, of), if c.channels > 1 then 1 else 0)
  }

  // Output frame `of` is what the guest played `of` output ticks after the callback began: the last input
  // frame that starts no later, its first sample to the left, its second, if there is one, to the right.
  ghost predicate Plays<T>(c: Config, input: seq<T>, left: T, right: T, of: nat)
    requires 0 < c.channels && |input| == c.frames * c.channels
  {
    exists sf: nat ::
      && sf * OUT_RATE <= of * c.rate < (sf + 1) * OUT_RATE && (sf + 1) * c.channels <= |input|
      && left == input[sf * c.channels]
      && right == if c.channels > 1 then input[sf * c.channels + 1] else left
  }

  /** Every output frame is the input frame of its time, whatever the rates and the number of channels. */
  lemma FilledPlays<T>(c: Config, input: seq<T>, left: T, right: T, of: nat)
    requires c.channels > 0 && c.rate > 0 && |input| == c.frames * c.channels
    requires Filled(c, input, left, right, of)
    ensures Plays(c, input, left, right, of)
  {
    var sf := SourceFrame(c, of);
    Divided(of * c.rate, OUT_RATE);
    Scale(c.channels, sf + 1, c.frames);
    assert SampleIndex(c, sf, 0) == sf * c.channels;
    assert c.channels > 1 ==> SampleIndex(c, sf, 1) == sf * c.channels + 1;
  }

  // The loop of the conversion.
  method Fill<T(==)>(c: Config, input: seq<T>, dst: array<T>, outFrames: nat, ghost remainder: nat)
    requires Legal(c) && remainder < c.rate && outFrames == (Ticks(c) + remainder) / c.rate
    requires |input| == c.frames * c.channels && dst.Length >= 2 * outFrames
    modifies dst
    ensures forall of | 0 <= of < outFrames :: Filled(c, input, dst[2 * of], dst[2 * of + 1], of)
    ensures forall k | 2 * outFrames <= k < dst.Length :: dst[k] == old(dst[k])
  {
    for of := 0 to outFrames
      invariant forall k | 0 <= k < of :: Filled(c, input, dst[2 * k], dst[2 * k + 1], k)
      invariant forall k | 2 * of <= k < dst.Length :: dst[k] == old(dst[k])
    {
      SourceInRange(c, remainder, of);
      var sf := of * c.rate / OUT_RATE;
      if sf >= c.frames { sf := c.frames - 1; }
      dst[of * 2] := Sample(c, input, sf, 0);
      dst[of * 2 + 1] := Sample(c, input, sf, if c.channels > 1 then 1 else 0);
    }
  }

  // ---------------------------------------------------------------- the stream

  lemma Carried(c: Config, callbacks: nat, produced: nat, before: nat, outFrames: nat, after: nat)
    requires produced * c.rate + before == callbacks * Ticks(c)
    requires Ticks(c) + before == c.rate * outFrames + after
    ensures (produced + outFrames) * c.rate + after == (callbacks + 1) * Ticks(c)
  {
  }

  class Stream {
    const c: Config
    var remainder: nat
    ghost var callbacks: nat            // since the last reset
    ghost var produced: nat             // output frames since the last reset

    // Nothing is lost: what came out, in input units, and what is carried make up what went in.
    ghost predicate Valid()
      reads this
    {
      Legal(c) && remainder < c.rate && produced * c.rate + remainder == callbacks * Ticks(c)
    }

    constructor (c: Config)
      requires Legal(c)
      ensures Valid() && this.c == c && remainder == 0 && callbacks == 0 && produced == 0
    {
      this.c := c;
      remainder, callbacks, produced := 0, 0, 0;
    }

    // On start and on recovery.
    method Reset()
      requires Valid()
      modifies this
      ensures Valid() && remainder == 0 && callbacks == 0 && produced == 0
    {
      remainder, callbacks, produced := 0, 0, 0;
    }

    /** convert_callback_to_audout: one callback's samples, resampled to stereo frames. */
    method Convert<T(==)>(input: seq<T>, dst: array<T>) returns (outFrames: nat)
      requires Valid() && |input| == c.frames * c.channels && dst.Length == 2 * c.capacity
      modifies this, dst
      ensures Valid() && callbacks == old(callbacks) + 1 && produced == old(produced) + outFrames
      ensures 1 <= outFrames <= c.capacity
      ensures forall of | 0 <= of < outFrames :: Filled(c, input, dst[2 * of], dst[2 * of + 1], of)
      ensures forall of | 0 <= of < outFrames :: Plays(c, input, dst[2 * of], dst[2 * of + 1], of)
      ensures forall k | 2 * outFrames <= k < dst.Length :: dst[k] == old(dst[k])
    {
      var numer := c.frames * OUT_RATE + remainder;
      CountInRange(c, remainder);
      Divided(numer, c.rate);
      ghost var before := remainder;
      outFrames := Limited(numer / c.rate, c.capacity);
      remainder := numer % c.rate;
      Fill(c, input, dst, outFrames, before);
      forall of | 0 <= of < outFrames ensures Plays(c, input, dst[2 * of], dst[2 * of + 1], of) {
        FilledPlays(c, input, dst[2 * of], dst[2 * of + 1], of);
      }
      Carried(c, callbacks, produced, before, outFrames, remainder);
      callbacks, produced := callbacks + 1, produced + outFrames;
    }
  }

  /** After any number of callbacks the frames produced are exactly the input time in output frames, rounded down. */
  lemma ExactCount(c: Config, callbacks: nat, produced: nat, remainder: nat)
    requires c.rate > 0 && remainder < c.rate && produced * c.rate + remainder == callbacks * Ticks(c)
    ensures produced == callbacks * c.frames * OUT_RATE / c.rate
  {
    var n := callbacks * Ticks(c);
    AtLeast(n, c.rate, produced);
    AtMost(n, c.rate, produced);
    assert callbacks * c.frames * OUT_RATE == n;
  }
}
