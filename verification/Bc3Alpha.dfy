/**
 The BC3 alpha encoder of source/etc2_bc.c, against a decoder that reads the block back the way
 chapter 18 (S3TC) of the Khronos Data Format Specification does.
 */
module Bc3Alpha {
  import opened Bits
  import opened Digits
  import opened Etc2Decode
  import Bc1

  // ---------------------------------------------------------------- the reader

  // The point k of n on the way from a0 to a1, rounded, for the n the format uses.
  function Blend(a0: nat, a1: nat, n: nat, k: nat): (r: int)
    requires k <= n && (n == 5 || n == 7)
  {
    if n == 5 then ((5 - k) * a0 + k * a1 + 2) / 5 else ((7 - k) * a0 + k * a1 + 3) / 7
  }

  // The eight values between two endpoints, and the six between them with 0 and 255 added.
  function EightValues(a0: nat, a1: nat): (r: seq<int>)
    ensures |r| == 8
  {
    [a0, a1] + seq(6, i requires 0 <= i < 6 => Blend(a0, a1, 7, i + 1))
  }

  function SixValues(a0: nat, a1: nat): (r: seq<int>)
    ensures |r| == 8
  {
    [a0, a1] + seq(4, i requires 0 <= i < 4 => Blend(a0, a1, 5, i + 1)) + [0, 255]
  }

  // The mode is the order of the endpoints.
  function Values(a0: nat, a1: nat): (r: seq<int>)
    ensures |r| == 8
  {
    if a0 > a1 then EightValues(a0, a1) else SixValues(a0, a1)
  }

  function DecoderValues(block: seq<nat>): (r: seq<int>)
    requires |block| == 8
    ensures |r| == 8
  {
    Values(block[0], block[1])
  }

  // The three index bits of pixel i, in the last six bytes.
  function IndexAt(block: seq<nat>, i: nat): (r: nat)
    requires |block| == 8
    ensures r < 8
  {
    Digit(Packed(block[2..8], 256), 8, i)
  }

  function DecodedAlpha(block: seq<nat>, i: nat): int
    requires |block| == 8
  {
    DecoderValues(block)[IndexAt(block, i)]
  }

  // ---------------------------------------------------------------- the encoder

  function Distance(a: int, b: int): nat { if a < b then b - a else a - b }

  ghost predicate Nearest(values: seq<int>, a: nat, q: nat) {
    && q < |values|
    && (forall k | 0 <= k < |values| :: Distance(a, values[q]) <= Distance(a, values[k]))
    && (forall k | 0 <= k < q :: Distance(a, values[q]) < Distance(a, values[k]))
  }

  ghost predicate Words(px: seq<nat>) { |px| == 16 && forall i | 0 <= i < 16 :: px[i] < 0x1_0000_0000 }

  function MaxAlpha(px: seq<nat>): nat requires |px| == 16 { Bc1.Greatest(px, AlphaOf, 16) }
  function MinAlpha(px: seq<nat>): nat requires |px| == 16 { Bc1.Least(px, AlphaOf, 16) }

  lemma {:induction false} AlphaRange(px: seq<nat>, n: nat)
    requires Words(px) && n <= 16
    ensures forall i | 0 <= i < n :: Bc1.Least(px, AlphaOf, n) <= AlphaOf(px[i]) <= Bc1.Greatest(px, AlphaOf, n)
    ensures Bc1.Least(px, AlphaOf, n) <= 255 && Bc1.Greatest(px, AlphaOf, n) <= 255
  {
    if n > 0 {
      AlphaRange(px, n - 1);
      assert AlphaOf(px[n - 1]) <= 255;
    }
  }

  // Read back by a decoder, the block shows each pixel the nearest of its eight values.
  ghost predicate ShowsNearest(block: seq<nat>, px: seq<nat>)
    requires |block| == 8 && |px| == 16
  {
    forall i | 0 <= i < 16 :: Nearest(DecoderValues(block), AlphaOf(px[i]), IndexAt(block, i))
  }

  // What an encoded block must be.
  ghost predicate Encodes(block: seq<nat>, px: seq<nat>)
    requires |px| == 16
  {
    && |block| == 8 && (forall k | 0 <= k < 8 :: block[k] < 256)
    && block[0] == MaxAlpha(px) && block[1] == MinAlpha(px)
    && forall i | 0 <= i < 16 :: Nearest(DecoderValues(block), AlphaOf(px[i]), IndexAt(block, i))
  }

  lemma Products(k: nat, a1: nat, a0: nat)
    requires a1 <= a0
    ensures k * a1 <= k * a0
  {
  }

  lemma BlendBetween(a0: nat, a1: nat, n: nat, k: nat)
    requires a1 <= a0 && k <= n && (n == 5 || n == 7)
    ensures a1 <= Blend(a0, a1, n, k) <= a0
  {
    Products(n - k, a1, a0);
    Products(k, a1, a0);
    assert (n - k) * a1 + k * a1 == n * a1 && (n - k) * a0 + k * a0 == n * a0;
  }

  /** Every interpolated value is its point between the endpoints, rounded to the nearest. */
  lemma BlendIsRounded(a0: nat, a1: nat, n: nat, k: nat)
    requires k <= n && (n == 5 || n == 7)
    ensures 0 <= 2 * (n * Blend(a0, a1, n, k) - ((n - k) * a0 + k * a1)) + n <= 2 * n
  {
  }

  // The six interpolated values of the longer palette, and the four of the shorter one.
  method Interpolate(pal: array<int>, amax: nat, amin: nat, n: nat)
    requires amin <= amax <= 255 && pal.Length == 8 && (n == 5 || n == 7) && pal[0] == amax && pal[1] == amin
    modifies pal
    ensures pal[0] == amax && pal[1] == amin
    ensures forall k | 2 <= k <= n :: pal[k] == Blend(amax, amin, n, k - 1) && 0 <= pal[k] <= 255
  {
    for i := 1 to n
      invariant pal[0] == amax && pal[1] == amin
      invariant forall k | 2 <= k <= i :: pal[k] == Blend(amax, amin, n, k - 1) && 0 <= pal[k] <= 255
    {
      BlendBetween(amax, amin, n, i);
      var value := Blend(amax, amin, n, i);
      pal[i + 1] := value;
    }
  }

  // The palette the encoder builds: interpolated if the block has two alphas, the short form if it is flat.
  method Palette(amax: nat, amin: nat) returns (pal: array<int>)
    requires amin <= amax <= 255
    ensures fresh(pal) && pal.Length == 8 && (forall k | 0 <= k < 8 :: 0 <= pal[k] <= 255)
    ensures pal[..] == Values(amax, amin)
  {
    pal := new int[8](i => 0);
    pal[0], pal[1] := amax, amin;
    if amax > amin {
      Interpolate(pal, amax, amin, 7);
    } else {
      Interpolate(pal, amax, amin, 5);
      pal[6], pal[7] := 0, 255;
    }
  }

  method FindNearest(values: seq<int>, a: nat) returns (best: nat)
    requires |values| == 8 && a <= 255 && forall k | 0 <= k < 8 :: 0 <= values[k] <= 255
    ensures Nearest(values, a, best)
  {
    best := 0;
    var bestd := 1000;
    for q := 0 to 8
      invariant q == 0 ==> best == 0 && bestd == 1000
      invariant q > 0 ==> best < q && bestd == Distance(a, values[best])
      invariant q > 0 ==> forall k | 0 <= k < q :: bestd <= Distance(a, values[k])
      invariant q > 0 ==> forall k | 0 <= k < best :: bestd < Distance(a, values[k])
    {
      var d := a - values[q];
      if d < 0 { d := -d; }
      if d < bestd { bestd := d; best := q; }
    }
  }

  method AlphaBox(px: seq<nat>) returns (amin: nat, amax: nat)
    requires |px| == 16
    ensures amin == MinAlpha(px) && amax == MaxAlpha(px)
  {
    amin, amax := 255, 0;
    for i := 0 to 16
      invariant amin == Bc1.Least(px, AlphaOf, i) && amax == Bc1.Greatest(px, AlphaOf, i)
    {
      var a := AlphaOf(px[i]);
      if a < amin { amin := a; }
      if a > amax { amax := a; }
    }
  }

  lemma AlphaFits(p: nat)
    requires p < 0x1_0000_0000
    ensures AlphaOf(p) <= 255
  {
  }

  lemma OrIndex(indices: seq<nat>, x: nat, shift: nat)
    requires AreDigits(indices, 8) && shift == 3 * |indices|
    ensures Or(Packed(indices, 8), x * Pow2(shift)) == Packed(indices + [x], 8)
  {
    assert Pow2(3) == 8;
    OrDigit(indices, x, 3);
  }

  lemma FieldsOfPacked(indices: seq<nat>)
    requires |indices| == 16 && AreDigits(indices, 8)
    ensures forall i | 0 <= i < 16 :: Digit(Packed(indices, 8), 8, i) == indices[i]
  {
    forall i | 0 <= i < 16 ensures Digit(Packed(indices, 8), 8, i) == indices[i] { DigitOfPacked(indices, 8, i); }
  }

  lemma FitsInBytes(indices: seq<nat>)
    requires |indices| == 16 && AreDigits(indices, 8)
    ensures Packed(indices, 8) < Power(256, 6)
  {
    PackedBelow(indices, 8);
    PowerOfPower(3, 16);
    PowerOfPower(8, 6);
    assert Pow2(3) == 8 && Pow2(8) == 256;
  }

  // Indices that are nearest stay so once they are packed.
  lemma PackedNearest(values: seq<int>, px: seq<nat>, indices: seq<nat>)
    requires |px| == 16 && |indices| == 16 && AreDigits(indices, 8)
    requires forall k | 0 <= k < 16 :: Nearest(values, AlphaOf(px[k]), indices[k])
    ensures Packed(indices, 8) < Power(256, 6)
    ensures forall i | 0 <= i < 16 :: Nearest(values, AlphaOf(px[i]), Digit(Packed(indices, 8), 8, i))
  {
    FitsInBytes(indices);
    FieldsOfPacked(indices);
  }

  // One turn of that loop: the nearest index goes above the bits so far.
  method ChooseIndex(values: seq<int>, p: nat, bits: nat, ghost indices: seq<nat>, shift: nat)
    returns (next: nat, ghost best: nat)
    requires |values| == 8 && p < 0x1_0000_0000 && forall k | 0 <= k < 8 :: 0 <= values[k] <= 255
    requires AreDigits(indices, 8) && bits == Packed(indices, 8) && shift == 3 * |indices|
    ensures Nearest(values, AlphaOf(p), best) && best < 8
    ensures AreDigits(indices + [best], 8) && next == Packed(indices + [best], 8)
  {
    AlphaFits(p);
    var q := FindNearest(values, AlphaOf(p));
    OrIndex(indices, q, shift);
    next, best := Or(bits, q * Pow2(shift)), q;
  }

  // The loop of the encoder that chooses and packs the indices: field i of the bits is pixel i's.
  method ChooseIndices(values: seq<int>, px: seq<nat>) returns (bits: nat)
    requires |values| == 8 && Words(px) && forall k | 0 <= k < 8 :: 0 <= values[k] <= 255
    ensures bits < Power(256, 6)
    ensures forall i | 0 <= i < 16 :: Nearest(values, AlphaOf(px[i]), Digit(bits, 8, i))
  {
    bits := 0;
    ghost var indices: seq<nat> := [];
    for i := 0 to 16
      invariant |indices| == i && AreDigits(indices, 8) && bits == Packed(indices, 8)
      invariant forall k | 0 <= k < i :: Nearest(values, AlphaOf(px[k]), indices[k])
    {
      ghost var best;
      bits, best := ChooseIndex(values, px[i], bits, indices, 3 * i);
      indices := indices + [best];
    }
    PackedNearest(values, px, indices);
  }

  lemma BlockParts(block: seq<nat>, bits: nat)
    requires |block| == 8 && bits < Power(256, 6) && block[2..8] == Bytes(bits, 6)
    ensures forall k | 2 <= k < 8 :: block[k] < 256
    ensures forall i | 0 <= i < 16 :: IndexAt(block, i) == Digit(bits, 8, i)
  {
    PackedBytes(bits, 6);
    forall k | 2 <= k < 8 ensures block[k] < 256 {
      ByteAt(bits, 6, k - 2);
      assert block[2..8][k - 2] == block[k];
    }
  }

  // The stores of the encoder.
  method StoreBlock(amax: nat, amin: nat, bits: nat, out: array<nat>, at: nat)
    requires at + 8 <= out.Length
    modifies out
    ensures out[at..at + 8] == [amax, amin] + Bytes(bits, 6)
    ensures out[..at] == old(out[..at]) && out[at + 8..] == old(out[at + 8..])
  {
    ghost var bytes := Bytes(bits, 6);
    out[at], out[at + 1] := amax, amin;
    for i := 0 to 6
      invariant out[at] == amax && out[at + 1] == amin
      invariant forall k | 0 <= k < i :: out[at + 2 + k] == bytes[k]
      invariant forall k | 0 <= k < at || at + 8 <= k < out.Length :: out[k] == old(out[k])
    {
      ByteAt(bits, 6, i);
      out[at + 2 + i] := Drop(bits, 256, i) % 256;          // (uint8_t)(bits >> 8 * i)
    }
    assert out[at + 2..at + 8] == bytes;
    assert out[at..at + 8] == [amax, amin] + out[at + 2..at + 8];
  }

  lemma StillNearest(values: seq<int>, same: seq<int>, a: nat, q: nat, k: nat)
    requires Nearest(values, a, q) && same == values && k == q
    ensures Nearest(same, a, k)
  {
  }

  lemma AllNearest(px: seq<nat>, bits: nat, values: seq<int>, block: seq<nat>)
    requires |px| == 16 && |block| == 8 && values == DecoderValues(block)
    requires forall i | 0 <= i < 16 :: Nearest(values, AlphaOf(px[i]), Digit(bits, 8, i))
    requires forall i | 0 <= i < 16 :: IndexAt(block, i) == Digit(bits, 8, i)
    ensures ShowsNearest(block, px)
  {
    forall i | 0 <= i < 16 ensures Nearest(DecoderValues(block), AlphaOf(px[i]), IndexAt(block, i)) {
      StillNearest(values, DecoderValues(block), AlphaOf(px[i]), Digit(bits, 8, i), IndexAt(block, i));
    }
  }

  lemma Written(px: seq<nat>, amax: nat, amin: nat, bits: nat, values: seq<int>, block: seq<nat>)
    requires Words(px) && amax == MaxAlpha(px) <= 255 && amin == MinAlpha(px) <= 255 && values == Values(amax, amin)
    requires bits < Power(256, 6) && block == [amax, amin] + Bytes(bits, 6)
    requires forall i | 0 <= i < 16 :: Nearest(values, AlphaOf(px[i]), Digit(bits, 8, i))
    ensures Encodes(block, px)
  {
    var bytes := Bytes(bits, 6);
    assert block[2..8] == bytes && block[0] == amax && block[1] == amin;
    BlockParts(block, bits);
    AllNearest(px, bits, values, block);
  }

  /** encode_bc3_alpha: eight bytes that a decoder turns into the nearest of its own eight values. */
  method EncodeAlpha(px: seq<nat>, out: array<nat>, at: nat)
    requires Words(px) && at + 8 <= out.Length
    modifies out
    ensures Encodes(out[at..at + 8], px)
    ensures out[..at] == old(out[..at]) && out[at + 8..] == old(out[at + 8..])
  {
    AlphaRange(px, 16);
    var amin, amax := AlphaBox(px);
    assert amin <= AlphaOf(px[0]) <= amax;
    var pal := Palette(amax, amin);
    ghost var values := pal[..];
    var bits := ChooseIndices(pal[..], px);
    StoreBlock(amax, amin, bits, out, at);
    Written(px, amax, amin, bits, values, out[at..at + 8]);
  }

  // ---------------------------------------------------------------- what a decoder sees

  /** A block of one alpha decodes exactly. */
  lemma FlatIsExact(block: seq<nat>, px: seq<nat>, i: nat)
    requires Words(px) && Encodes(block, px) && i < 16 && MaxAlpha(px) == MinAlpha(px)
    ensures DecodedAlpha(block, i) == AlphaOf(px[i])
  {
    AlphaRange(px, 16);
    assert Nearest(DecoderValues(block), AlphaOf(px[i]), IndexAt(block, i));
    assert DecoderValues(block)[0] == AlphaOf(px[i]);
  }

  // The eight values from the greatest to the least.
  function Step(hi: nat, lo: nat, k: nat): int
    requires k <= 7
  {
    Blend(hi, lo, 7, k)
  }

  lemma StepsAreValues(hi: nat, lo: nat, k: nat)
    requires k <= 7
    ensures exists q | 0 <= q < 8 :: EightValues(hi, lo)[q] == Step(hi, lo, k)
  {
    var values := EightValues(hi, lo);
    if k == 0 { assert values[0] == Step(hi, lo, 0); }
    else if k == 7 { assert values[1] == Step(hi, lo, 7); }
    else { assert values[k + 1] == Step(hi, lo, k); }
  }

  lemma FloorGap(n: int, d: int)
    requires 0 <= d
    ensures 0 <= n / 7 - (n - d) / 7 <= (d + 6) / 7
  {
  }

  lemma StepGap(hi: nat, lo: nat, k: nat)
    requires lo <= hi && k < 7
    ensures 0 <= Step(hi, lo, k) - Step(hi, lo, k + 1) <= (hi - lo + 6) / 7
  {
    var n := (7 - k) * hi + k * lo + 3;
    var d := hi - lo;
    assert (7 - (k + 1)) * hi + (k + 1) * lo + 3 == n - d;
    FloorGap(n, d);
  }

  // Some value is within half a gap of a.
  lemma {:induction false} CloseStep(hi: nat, lo: nat, a: int, k: nat) returns (j: nat)
    requires lo <= hi && k <= 7 && lo <= a <= Step(hi, lo, k)
    ensures j <= 7 && Distance(a, Step(hi, lo, j)) <= (hi - lo + 6) / 7 / 2
    decreases 7 - k
  {
    if k == 7 {
      j := 7;
    } else if a <= Step(hi, lo, k + 1) {
      j := CloseStep(hi, lo, a, k + 1);
    } else {
      StepGap(hi, lo, k);
      j := if 2 * (a - Step(hi, lo, k + 1)) <= Step(hi, lo, k) - Step(hi, lo, k + 1) then k + 1 else k;
    }
  }

  /** Every decoded alpha is within half an interpolation gap of its input, so never off by more than 18. */
  lemma AlphaError(block: seq<nat>, px: seq<nat>, i: nat)
    requires Words(px) && Encodes(block, px) && i < 16
    ensures Distance(AlphaOf(px[i]), DecodedAlpha(block, i)) <= (MaxAlpha(px) - MinAlpha(px) + 6) / 7 / 2 <= 18
  {
    AlphaRange(px, 16);
    var hi, lo, a := MaxAlpha(px), MinAlpha(px), AlphaOf(px[i]);
    assert lo <= a <= hi <= 255;
    if hi == lo {
      FlatIsExact(block, px, i);
    } else {
      assert Step(hi, lo, 0) == hi;
      var j := CloseStep(hi, lo, a, 0);
      StepsAreValues(hi, lo, j);
      assert Nearest(DecoderValues(block), a, IndexAt(block, i));
    }
  }
}
