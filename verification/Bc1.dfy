/**
 The BC1 colour encoder of source/etc2_bc.c, against a decoder that reads the block back the way
 chapter 18 (S3TC) of the Khronos Data Format Specification does.
 */
module Bc1 {
  import opened Bits
  import opened Digits
  import opened Etc2Format
  import opened Etc2Decode

  function ColourOf(p: nat): Rgb { Rgb(RedOf(p), GreenOf(p), BlueOf(p)) }

  // ---------------------------------------------------------------- endpoints

  function Least(px: seq<nat>, channel: nat -> nat, n: nat): (r: nat)
    requires n <= |px|
  {
    if n == 0 then 255
    else if channel(px[n - 1]) < Least(px, channel, n - 1) then channel(px[n - 1])
    else Least(px, channel, n - 1)
  }

  function Greatest(px: seq<nat>, channel: nat -> nat, n: nat): (r: nat)
    requires n <= |px|
  {
    if n == 0 then 0
    else if channel(px[n - 1]) > Greatest(px, channel, n - 1) then channel(px[n - 1])
    else Greatest(px, channel, n - 1)
  }

  lemma {:induction false} Between(px: seq<nat>, channel: nat -> nat, n: nat)
    requires n <= |px| && forall p :: channel(p) <= 255
    ensures forall i | 0 <= i < n :: Least(px, channel, n) <= channel(px[i]) <= Greatest(px, channel, n)
    ensures Least(px, channel, n) <= 255 && Greatest(px, channel, n) <= 255
    ensures n > 0 ==>
      && (exists i | 0 <= i < n :: Least(px, channel, n) == channel(px[i]))
      && (exists i | 0 <= i < n :: Greatest(px, channel, n) == channel(px[i]))
  {
    if n > 0 { Between(px, channel, n - 1); }
  }

  function Rgb565(r: nat, g: nat, b: nat): nat { r / 8 * 2048 + g / 4 * 32 + b / 8 }

  // A range shrunk by a sixteenth at both ends.
  function Shrunk(lo: nat, hi: nat): (nat, nat)
    requires lo <= hi
  {
    (lo + (hi - lo) / 16, hi - (hi - lo) / 16)
  }

  // Equal endpoints are moved apart.
  function Distinct(c0: nat, c1: nat): (nat, nat) {
    if c0 != c1 then (c0, c1)
    else if c0 < 0xffff then (c0 + 1, c1)
    else (c0, c1 - 1)
  }

  lemma Quantised(r0: nat, g0: nat, b0: nat, r1: nat, g1: nat, b1: nat)
    requires r0 <= r1 <= 255 && g0 <= g1 <= 255 && b0 <= b1 <= 255
    ensures Rgb565(r0, g0, b0) <= Rgb565(r1, g1, b1) <= 0xffff
  {
  }

  lemma InBox(px: seq<nat>, i: nat)
    requires |px| == 16 && i < 16
    ensures Least(px, RedOf, 16) <= RedOf(px[i]) <= Greatest(px, RedOf, 16)
    ensures Least(px, GreenOf, 16) <= GreenOf(px[i]) <= Greatest(px, GreenOf, 16)
    ensures Least(px, BlueOf, 16) <= BlueOf(px[i]) <= Greatest(px, BlueOf, 16)
  {
    Between(px, RedOf, 16); Between(px, GreenOf, 16); Between(px, BlueOf, 16);
  }

  lemma BoxInOrder(px: seq<nat>)
    requires |px| == 16
    ensures Least(px, RedOf, 16) <= Greatest(px, RedOf, 16) <= 255
    ensures Least(px, GreenOf, 16) <= Greatest(px, GreenOf, 16) <= 255
    ensures Least(px, BlueOf, 16) <= Greatest(px, BlueOf, 16) <= 255
  {
    InBox(px, 0);
    Between(px, RedOf, 16); Between(px, GreenOf, 16); Between(px, BlueOf, 16);
  }

  // The endpoints before they are moved apart: the quantised corners of the shrunk colour box.
  function Corners(px: seq<nat>): (nat, nat)
    requires |px| == 16
  {
    BoxInOrder(px);
    var (r0, r1) := Shrunk(Least(px, RedOf, 16), Greatest(px, RedOf, 16));
    var (g0, g1) := Shrunk(Least(px, GreenOf, 16), Greatest(px, GreenOf, 16));
    var (b0, b1) := Shrunk(Least(px, BlueOf, 16), Greatest(px, BlueOf, 16));
    (Rgb565(r1, g1, b1), Rgb565(r0, g0, b0))
  }

  function Ends(px: seq<nat>): (nat, nat)
    requires |px| == 16
  {
    Distinct(Corners(px).0, Corners(px).1)
  }

  /** Quantising keeps the corners in order, so they are never swapped and the first endpoint is always greater. */
  lemma EndsDescend(px: seq<nat>)
    requires |px| == 16
    ensures Corners(px).1 <= Corners(px).0 <= 0xffff
    ensures Ends(px).1 < Ends(px).0 <= 0xffff
  {
    BoxInOrder(px);
    var (r0, r1) := Shrunk(Least(px, RedOf, 16), Greatest(px, RedOf, 16));
    var (g0, g1) := Shrunk(Least(px, GreenOf, 16), Greatest(px, GreenOf, 16));
    var (b0, b1) := Shrunk(Least(px, BlueOf, 16), Greatest(px, BlueOf, 16));
    Quantised(r0, g0, b0, r1, g1, b1);
  }

  // ---------------------------------------------------------------- the palette and its reader

  function Unpack565(c: nat): Rgb { Rgb(c / 2048 % 32 * 255 / 31, c / 32 % 64 * 255 / 63, c % 32 * 255 / 31) }

  function Third(near: int, far: int): int { (2 * near + far + 1) / 3 }

  function FourColours(c0: nat, c1: nat): (r: seq<Rgb>)
    ensures |r| == 4
  {
    var p, q := Unpack565(c0), Unpack565(c1);
    [p, q, Rgb(Third(p.r, q.r), Third(p.g, q.g), Third(p.b, q.b)),
     Rgb(Third(q.r, p.r), Third(q.g, p.g), Third(q.b, p.b))]
  }

  // The other mode of the format, with a midpoint and black.
  function ThreeColours(c0: nat, c1: nat): (r: seq<Rgb>)
    ensures |r| == 4
  {
    var p, q := Unpack565(c0), Unpack565(c1);
    [p, q, Rgb((p.r + q.r) / 2, (p.g + q.g) / 2, (p.b + q.b) / 2), Rgb(0, 0, 0)]
  }

  function Word16(bytes: seq<nat>, at: nat): nat
    requires at + 2 <= |bytes|
  {
    bytes[at] + 256 * bytes[at + 1]
  }

  // The palette a decoder selects by comparing the endpoints.
  function DecoderPalette(block: seq<nat>): (r: seq<Rgb>)
    requires |block| == 8
    ensures |r| == 4
  {
    var c0, c1 := Word16(block, 0), Word16(block, 2);
    if c0 > c1 then FourColours(c0, c1) else ThreeColours(c0, c1)
  }

  // The two index bits of pixel i.
  function IndexAt(block: seq<nat>, i: nat): (r: nat)
    requires |block| == 8
    ensures r < 4
  {
    Digit(Packed(block[4..8], 256), 4, i)
  }

  function DecodedColour(block: seq<nat>, i: nat): Rgb
    requires |block| == 8
  {
    DecoderPalette(block)[IndexAt(block, i)]
  }

  function Square(n: int): (r: nat)
    ensures r as int == n * n
  {
    if n < 0 then (-n) * (-n) else n * n
  }

  function Distance2(c: Rgb, e: Rgb): nat { Square(c.r - e.r) + Square(c.g - e.g) + Square(c.b - e.b) }

  // Entry q is nearest to c, and the first of those.
  ghost predicate Nearest(palette: seq<Rgb>, c: Rgb, q: nat) {
    && q < |palette|
    && (forall k | 0 <= k < |palette| :: Distance2(c, palette[q]) <= Distance2(c, palette[k]))
    && (forall k | 0 <= k < q :: Distance2(c, palette[q]) < Distance2(c, palette[k]))
  }

  lemma SquareFits(n: int)
    requires -255 <= n <= 255
    ensures Square(n) <= 65025
  {
  }

  lemma DistanceFits(c: Rgb, e: Rgb)
    requires InRange(c) && InRange(e)
    ensures Distance2(c, e) < 0x7fff_ffff
  {
    SquareFits(c.r - e.r); SquareFits(c.g - e.g); SquareFits(c.b - e.b);
  }

  method FindNearest(palette: seq<Rgb>, c: Rgb) returns (best: nat)
    requires |palette| == 4 && InRange(c) && forall k | 0 <= k < 4 :: InRange(palette[k])
    ensures Nearest(palette, c, best)
  {
    best := 0;
    var bestd := 0x7fff_ffff;
    for q := 0 to 4
      invariant q == 0 ==> best == 0 && bestd == 0x7fff_ffff
      invariant q > 0 ==> best < q && bestd == Distance2(c, palette[best])
      invariant q > 0 ==> forall k | 0 <= k < q :: bestd <= Distance2(c, palette[k])
      invariant q > 0 ==> forall k | 0 <= k < best :: bestd < Distance2(c, palette[k])
    {
      DistanceFits(c, palette[q]);
      var d := Distance2(c, palette[q]);
      if d < bestd { bestd := d; best := q; }
    }
  }

  // ---------------------------------------------------------------- the encoder

  // What an encoded block must be: read back by a decoder, it shows each pixel the nearest of four colours.
  ghost predicate Encodes(block: seq<nat>, px: seq<nat>)
    requires |px| == 16
  {
    && |block| == 8 && (forall k | 0 <= k < 8 :: block[k] < 256)
    && (Word16(block, 0), Word16(block, 2)) == Ends(px)
    && forall i | 0 <= i < 16 :: Nearest(DecoderPalette(block), ColourOf(px[i]), IndexAt(block, i))
  }

  function Block(c0: nat, c1: nat, bits: nat): (r: seq<nat>)
    ensures |r| == 8
  {
    Bytes(c0, 2) + Bytes(c1, 2) + Bytes(bits, 4)
  }

  lemma TwoBytes(c: nat)
    requires c <= 0xffff
    ensures Bytes(c, 2)[0] + 256 * Bytes(c, 2)[1] == c && Bytes(c, 2)[0] < 256 && Bytes(c, 2)[1] < 256
  {
    assert Bytes(c, 2)[1] == Bytes(c / 256, 1)[0] == c / 256 % 256;
  }

  lemma BlockParts(c0: nat, c1: nat, bits: nat)
    requires c0 <= 0xffff && c1 <= 0xffff && bits < Power(256, 4)
    ensures var block := Block(c0, c1, bits);
      && Word16(block, 0) == c0 && Word16(block, 2) == c1
      && (forall k | 0 <= k < 8 :: block[k] < 256)
      && forall i | 0 <= i < 16 :: IndexAt(block, i) == Digit(bits, 4, i)
  {
    var block := Block(c0, c1, bits);
    TwoBytes(c0); TwoBytes(c1);
    assert block[0..2] == Bytes(c0, 2) && block[2..4] == Bytes(c1, 2) && block[4..8] == Bytes(bits, 4);
    PackedBytes(bits, 4);
    forall k | 0 <= k < 4 ensures Bytes(bits, 4)[k] < 256 { ByteAt(bits, 4, k); }
  }

  lemma FitsInBytes(indices: seq<nat>)
    requires |indices| == 16 && AreDigits(indices, 4)
    ensures Packed(indices, 4) < Power(256, 4)
  {
    PackedBelow(indices, 4);
    PowerOfPower(2, 16);
    PowerOfPower(8, 4);
    assert Pow2(2) == 4 && Pow2(8) == 256;
  }

  lemma FieldInRange(v: nat, top: nat)
    requires v <= top && (top == 31 || top == 63)
    ensures 0 <= v * 255 / top <= 255
  {
  }

  lemma UnpackInRange(c: nat)
    ensures InRange(Unpack565(c))
  {
    FieldInRange(c / 2048 % 32, 31); FieldInRange(c / 32 % 64, 63); FieldInRange(c % 32, 31);
  }

  lemma PaletteInRange(c0: nat, c1: nat)
    ensures forall k | 0 <= k < 4 :: InRange(FourColours(c0, c1)[k])
  {
    UnpackInRange(c0);
    UnpackInRange(c1);
  }

  lemma ColourInRange(p: nat)
    ensures InRange(ColourOf(p))
  {
  }

  // The loop of the encoder that finds the corners of the colour box.
  method ColourBox(px: seq<nat>) returns (lo: Rgb, hi: Rgb)
    requires |px| == 16
    ensures lo == Rgb(Least(px, RedOf, 16), Least(px, GreenOf, 16), Least(px, BlueOf, 16))
    ensures hi == Rgb(Greatest(px, RedOf, 16), Greatest(px, GreenOf, 16), Greatest(px, BlueOf, 16))
  {
    var minr, ming, minb, maxr, maxg, maxb := 255, 255, 255, 0, 0, 0;
    for i := 0 to 16
      invariant minr == Least(px, RedOf, i) && ming == Least(px, GreenOf, i) && minb == Least(px, BlueOf, i)
      invariant maxr == Greatest(px, RedOf, i) && maxg == Greatest(px, GreenOf, i) && maxb == Greatest(px, BlueOf, i)
    {
      var b, g, r := BlueOf(px[i]), GreenOf(px[i]), RedOf(px[i]);
      if r < minr { minr := r; }
      if r > maxr { maxr := r; }
      if g < ming { ming := g; }
      if g > maxg { maxg := g; }
      if b < minb { minb := b; }
      if b > maxb { maxb := b; }
    }
    lo, hi := Rgb(minr, ming, minb), Rgb(maxr, maxg, maxb);
  }

  method MoveApart(c0: nat, c1: nat) returns (d0: nat, d1: nat)
    ensures (d0, d1) == Distinct(c0, c1)
  {
    d0, d1 := c0, c1;
    if d0 == d1 {
      if d0 < 0xffff { d0 := d0 + 1; } else if d1 > 0 { d1 := d1 - 1; }
    }
  }

  // c0 and c1 of the encoder.
  method Endpoints(px: seq<nat>) returns (c0: nat, c1: nat)
    requires |px| == 16
    ensures (c0, c1) == Ends(px)
  {
    EndsDescend(px);
    BoxInOrder(px);
    var lo, hi := ColourBox(px);
    var (r0, r1) := Shrunk(lo.r, hi.r);
    var (g0, g1) := Shrunk(lo.g, hi.g);
    var (b0, b1) := Shrunk(lo.b, hi.b);
    c0, c1 := Rgb565(r1, g1, b1), Rgb565(r0, g0, b0);
    assert (c0, c1) == Corners(px);
    if c0 < c1 { c0, c1 := c1, c0; }
    c0, c1 := MoveApart(c0, c1);
  }

  lemma OrIndex(indices: seq<nat>, x: nat, shift: nat)
    requires AreDigits(indices, 4) && shift == 2 * |indices|
    ensures Or(Packed(indices, 4), x * Pow2(shift)) == Packed(indices + [x], 4)
  {
    assert Pow2(2) == 4;
    OrDigit(indices, x, 2);
  }

  lemma FieldsOfPacked(indices: seq<nat>)
    requires |indices| == 16 && AreDigits(indices, 4)
    ensures forall i | 0 <= i < 16 :: Digit(Packed(indices, 4), 4, i) == indices[i]
  {
    forall i | 0 <= i < 16 ensures Digit(Packed(indices, 4), 4, i) == indices[i] { DigitOfPacked(indices, 4, i); }
  }

  // Each pixel so far has its nearest palette index.
  ghost predicate NearestSoFar(palette: seq<Rgb>, px: seq<nat>, indices: seq<nat>) {
    && |indices| <= |px| && AreDigits(indices, 4)
    && forall k | 0 <= k < |indices| :: Nearest(palette, ColourOf(px[k]), indices[k])
  }

  lemma OneMoreNearest(palette: seq<Rgb>, px: seq<nat>, indices: seq<nat>, best: nat)
    requires NearestSoFar(palette, px, indices) && |palette| == 4
    requires |indices| < |px| && Nearest(palette, ColourOf(px[|indices|]), best)
    ensures NearestSoFar(palette, px, indices + [best])
  {
  }

  // Indices that are nearest stay so once they are packed.
  lemma PackedNearest(palette: seq<Rgb>, px: seq<nat>, indices: seq<nat>)
    requires |px| == 16 && |indices| == 16 && NearestSoFar(palette, px, indices)
    ensures Packed(indices, 4) < Power(256, 4)
    ensures forall i | 0 <= i < 16 :: Nearest(palette, ColourOf(px[i]), Digit(Packed(indices, 4), 4, i))
  {
    FitsInBytes(indices);
    FieldsOfPacked(indices);
  }

  // The loop of the encoder that chooses and packs the indices: field i of the bits is pixel i's.
  method ChooseIndices(palette: seq<Rgb>, px: seq<nat>) returns (bits: nat)
    requires |palette| == 4 && |px| == 16 && forall k | 0 <= k < 4 :: InRange(palette[k])
    ensures bits < Power(256, 4)
    ensures forall i | 0 <= i < 16 :: Nearest(palette, ColourOf(px[i]), Digit(bits, 4, i))
  {
    bits := 0;
    ghost var indices: seq<nat> := [];
    for i := 0 to 16
      invariant |indices| == i && bits == Packed(indices, 4) && NearestSoFar(palette, px, indices)
    {
      ColourInRange(px[i]);
      var best := FindNearest(palette, ColourOf(px[i]));
      OneMoreNearest(palette, px, indices, best);
      var shift := 2 * i;
      OrIndex(indices, best, shift);
      bits := Or(bits, best * Pow2(shift));
      indices := indices + [best];
    }
    PackedNearest(palette, px, indices);
  }

  /** encode_bc1_color: eight bytes that a decoder turns into the nearest palette colours. */
  method EncodeColor(px: seq<nat>, out: array<nat>, at: nat)
    requires |px| == 16 && at + 8 <= out.Length
    modifies out
    ensures Encodes(out[at..at + 8], px)
    ensures out[..at] == old(out[..at]) && out[at + 8..] == old(out[at + 8..])
  {
    EndsDescend(px);
    var c0, c1 := Endpoints(px);
    PaletteInRange(c0, c1);
    var bits := ChooseIndices(FourColours(c0, c1), px);
    BlockParts(c0, c1, bits);
    var block := Block(c0, c1, bits);
    for k := 0 to 8
      invariant out[at..at + k] == block[..k]
      invariant out[..at] == old(out[..at]) && out[at + 8..] == old(out[at + 8..])
    {
      out[at + k] := block[k];
    }
    assert out[at..at + 8] == block;
    assert DecoderPalette(block) == FourColours(c0, c1);
  }

  // ---------------------------------------------------------------- what a decoder sees

  /** Every block is in four-colour mode: the decoder's palette is the one the encoder measured against. */
  lemma AlwaysFourColours(block: seq<nat>, px: seq<nat>)
    requires |px| == 16 && Encodes(block, px)
    ensures Word16(block, 0) > Word16(block, 2)
    ensures DecoderPalette(block) == FourColours(Ends(px).0, Ends(px).1)
  {
    EndsDescend(px);
  }

  ghost predicate Solid(px: seq<nat>, c: Rgb) { forall i | 0 <= i < |px| :: ColourOf(px[i]) == c }

  lemma {:induction false} SolidExtremes(px: seq<nat>, c: Rgb, n: nat)
    requires n <= |px| && Solid(px, c) && InRange(c)
    ensures n > 0 ==> Least(px, RedOf, n) == Greatest(px, RedOf, n) == c.r
    ensures n > 0 ==> Least(px, GreenOf, n) == Greatest(px, GreenOf, n) == c.g
    ensures n > 0 ==> Least(px, BlueOf, n) == Greatest(px, BlueOf, n) == c.b
  {
    if n > 0 {
      assert ColourOf(px[n - 1]) == c;
      SolidExtremes(px, c, n - 1);
    }
  }

  lemma FieldError(v: nat)
    requires v <= 255
    ensures -7 <= v / 8 * 255 / 31 - v <= 7
    ensures -3 <= v / 4 * 255 / 63 - v <= 3
  {
  }

  lemma FieldsOf565(r: nat, g: nat, b: nat)
    requires r <= 255 && g <= 255 && b <= 255
    ensures var c := Rgb565(r, g, b); c / 2048 % 32 == r / 8 && c / 32 % 64 == g / 4 && c % 32 == b / 8
  {
    var c := Rgb565(r, g, b);
    assert c / 32 == r / 8 * 64 + g / 4;
    assert c / 2048 == r / 8;
  }

  lemma SquareMonotone(k: nat, m: nat)
    requires k <= m
    ensures k * k <= m * m
  {
    assert k * k <= k * m <= m * m;
  }

  lemma SquareWithin(n: int, m: int)
    requires 0 - m <= n <= m
    ensures Square(n) <= Square(m)
  {
    SquareMonotone(if n < 0 then -n else n, m);
  }

  // A corner's stored channel is within the channel's range, and the rounding of the field, of every pixel.
  lemma RedBlueError(lo: nat, hi: nat, corner: nat, v: nat)
    requires lo <= corner <= hi <= 255 && lo <= v <= hi
    ensures Square(v - corner / 8 * 255 / 31) <= Square(hi - lo + 7)
  {
    FieldError(corner);
    SquareWithin(v - corner / 8 * 255 / 31, hi - lo + 7);
  }

  lemma GreenError(lo: nat, hi: nat, corner: nat, v: nat)
    requires lo <= corner <= hi <= 255 && lo <= v <= hi
    ensures Square(v - corner / 4 * 255 / 63) <= Square(hi - lo + 3)
  {
    FieldError(corner);
    SquareWithin(v - corner / 4 * 255 / 63, hi - lo + 3);
  }

  lemma UnpackedCorner(r: nat, g: nat, b: nat)
    requires r <= 255 && g <= 255 && b <= 255
    ensures Unpack565(Rgb565(r, g, b)) == Rgb(r / 8 * 255 / 31, g / 4 * 255 / 63, b / 8 * 255 / 31)
  {
    FieldsOf565(r, g, b);
  }

  // How far a channel of the block spreads.
  function Spread(px: seq<nat>, channel: nat -> nat): int
    requires |px| == 16
  {
    Greatest(px, channel, 16) - Least(px, channel, 16)
  }

  // The error that the spreads of the three channels allow.
  function Tolerance(px: seq<nat>): nat
    requires |px| == 16
  {
    Square(Spread(px, RedOf) + 7) + Square(Spread(px, GreenOf) + 3) + Square(Spread(px, BlueOf) + 7)
  }

  // A box around a colour: the corner of another colour in it is not far.
  lemma BoxError(c: Rgb, lo: Rgb, hi: Rgb, r: nat, g: nat, b: nat)
    requires 0 <= lo.r <= c.r <= hi.r <= 255 && 0 <= lo.g <= c.g <= hi.g <= 255 && 0 <= lo.b <= c.b <= hi.b <= 255
    requires lo.r <= r <= hi.r && lo.g <= g <= hi.g && lo.b <= b <= hi.b
    ensures Distance2(c, Unpack565(Rgb565(r, g, b)))
      <= Square(hi.r - lo.r + 7) + Square(hi.g - lo.g + 3) + Square(hi.b - lo.b + 7)
  {
    UnpackedCorner(r, g, b);
    RedBlueError(lo.r, hi.r, r, c.r);
    GreenError(lo.g, hi.g, g, c.g);
    RedBlueError(lo.b, hi.b, b, c.b);
  }

  lemma CornerError(px: seq<nat>, i: nat, r: nat, g: nat, b: nat, corner: nat)
    requires |px| == 16 && i < 16 && corner == Rgb565(r, g, b)
    requires Least(px, RedOf, 16) <= r <= Greatest(px, RedOf, 16)
    requires Least(px, GreenOf, 16) <= g <= Greatest(px, GreenOf, 16)
    requires Least(px, BlueOf, 16) <= b <= Greatest(px, BlueOf, 16)
    ensures Distance2(ColourOf(px[i]), Unpack565(corner)) <= Tolerance(px)
  {
    InBox(px, i);
    BoxInOrder(px);
    var lo := Rgb(Least(px, RedOf, 16), Least(px, GreenOf, 16), Least(px, BlueOf, 16));
    var hi := Rgb(Greatest(px, RedOf, 16), Greatest(px, GreenOf, 16), Greatest(px, BlueOf, 16));
    BoxError(ColourOf(px[i]), lo, hi, r, g, b);
  }

  lemma ShrunkInside(lo: nat, hi: nat)
    requires lo <= hi
    ensures lo <= Shrunk(lo, hi).0 <= hi && lo <= Shrunk(lo, hi).1 <= hi
  {
  }

  lemma CornersAreClose(px: seq<nat>, i: nat)
    requires |px| == 16 && i < 16
    ensures Distance2(ColourOf(px[i]), Unpack565(Corners(px).0)) <= Tolerance(px)
    ensures Distance2(ColourOf(px[i]), Unpack565(Corners(px).1)) <= Tolerance(px)
  {
    BoxInOrder(px);
    var (r0, r1) := Shrunk(Least(px, RedOf, 16), Greatest(px, RedOf, 16));
    var (g0, g1) := Shrunk(Least(px, GreenOf, 16), Greatest(px, GreenOf, 16));
    var (b0, b1) := Shrunk(Least(px, BlueOf, 16), Greatest(px, BlueOf, 16));
    ShrunkInside(Least(px, RedOf, 16), Greatest(px, RedOf, 16));
    ShrunkInside(Least(px, GreenOf, 16), Greatest(px, GreenOf, 16));
    ShrunkInside(Least(px, BlueOf, 16), Greatest(px, BlueOf, 16));
    var c := Corners(px);
    CornerError(px, i, r1, g1, b1, c.0);
    CornerError(px, i, r0, g0, b0, c.1);
  }

  // Moving the endpoints apart leaves one of them where it was.
  lemma OneCornerStays(px: seq<nat>) returns (k: nat)
    requires |px| == 16
    ensures k < 2
    ensures FourColours(Ends(px).0, Ends(px).1)[k] == Unpack565(if k == 0 then Corners(px).0 else Corners(px).1)
  {
    k := if Ends(px).0 == Corners(px).0 then 0 else 1;
  }

  lemma NearestIsAtMost(palette: seq<Rgb>, c: Rgb, q: nat, k: nat)
    requires Nearest(palette, c, q) && k < |palette|
    ensures Distance2(c, palette[q]) <= Distance2(c, palette[k])
  {
  }

  /**
   Every decoded pixel of every block is within (range + rounding) of its input in each channel: squared
   distance at most (R + 7)^2 + (G + 3)^2 + (B + 7)^2, where R, G and B are the channel ranges of the block.
   */
  lemma BlockError(block: seq<nat>, px: seq<nat>, i: nat)
    requires |px| == 16 && Encodes(block, px) && i < 16
    ensures Distance2(ColourOf(px[i]), DecodedColour(block, i)) <= Tolerance(px)
  {
    AlwaysFourColours(block, px);
    CornersAreClose(px, i);
    var k := OneCornerStays(px);
    NearestIsAtMost(DecoderPalette(block), ColourOf(px[i]), IndexAt(block, i), k);
  }

  lemma SolidTolerance(px: seq<nat>, c: Rgb)
    requires |px| == 16 && Solid(px, c) && InRange(c)
    ensures Tolerance(px) == 107
  {
    SolidExtremes(px, c, 16);
    assert Spread(px, RedOf) == 0 && Spread(px, GreenOf) == 0 && Spread(px, BlueOf) == 0;
  }

  /** A block of one colour decodes within squared distance 107 of it, pixel by pixel. */
  lemma SolidError(block: seq<nat>, px: seq<nat>, c: Rgb, i: nat)
    requires |px| == 16 && Encodes(block, px) && Solid(px, c) && i < 16
    ensures Distance2(c, DecodedColour(block, i)) <= 107
  {
    assert ColourOf(px[i]) == c;
    ColourInRange(px[i]);
    SolidTolerance(px, c);
    BlockError(block, px, i);
  }

  // ---------------------------------------------------------------- which endpoints

  predicate IsLeast(px: seq<nat>, channel: nat -> nat, v: nat) {
    (exists i | 0 <= i < |px| :: channel(px[i]) == v) && forall i | 0 <= i < |px| :: v <= channel(px[i])
  }

  predicate IsGreatest(px: seq<nat>, channel: nat -> nat, v: nat) {
    (exists i | 0 <= i < |px| :: channel(px[i]) == v) && forall i | 0 <= i < |px| :: channel(px[i]) <= v
  }

  // Two fields of the size of `step` hold the top bits of lo and hi, each moved inwards by the whole
  // sixteenths in between.
  predicate Inset(step: nat, high: nat, low: nat, lo: nat, hi: nat, inset: nat) {
    && 16 * inset <= hi - lo < 16 * inset + 16
    && step * high <= hi - inset < step * high + step && step * low <= lo + inset < step * low + step
  }

  // The stored fields of a channel come from its greatest and its least value.
  ghost predicate FieldsOfBox(px: seq<nat>, channel: nat -> nat, step: nat, high: nat, low: nat) {
    exists lo: nat, hi: nat, inset: nat ::
      IsLeast(px, channel, lo) && IsGreatest(px, channel, hi) && Inset(step, high, low, lo, hi, inset)
  }

  lemma ShrunkIsInset(lo: nat, hi: nat, step: nat)
    requires lo <= hi && (step == 8 || step == 4)
    ensures Inset(step, Shrunk(lo, hi).1 / step, Shrunk(lo, hi).0 / step, lo, hi, (hi - lo) / 16)
  {
  }

  lemma ChannelFields(px: seq<nat>, channel: nat -> nat, step: nat)
    requires |px| == 16 && (forall p :: channel(p) <= 255) && (step == 8 || step == 4)
    ensures
      var lo, hi := Least(px, channel, 16), Greatest(px, channel, 16);
      lo <= hi && FieldsOfBox(px, channel, step, Shrunk(lo, hi).1 / step, Shrunk(lo, hi).0 / step)
  {
    Between(px, channel, 16);
    var lo, hi := Least(px, channel, 16), Greatest(px, channel, 16);
    assert lo <= channel(px[0]) <= hi;
    assert IsLeast(px, channel, lo) && IsGreatest(px, channel, hi);
    ShrunkIsInset(lo, hi, step);
  }

  /** Read field by field, the corners are the ends of the colour box, each moved inwards by a sixteenth of its side. */
  lemma CornersMean(px: seq<nat>)
    requires |px| == 16
    ensures
      var (c0, c1) := Corners(px);
      && FieldsOfBox(px, RedOf, 8, c0 / 2048 % 32, c1 / 2048 % 32)
      && FieldsOfBox(px, GreenOf, 4, c0 / 32 % 64, c1 / 32 % 64) && FieldsOfBox(px, BlueOf, 8, c0 % 32, c1 % 32)
  {
    BoxInOrder(px);
    ChannelFields(px, RedOf, 8);
    ChannelFields(px, GreenOf, 4);
    ChannelFields(px, BlueOf, 8);
    var (r0, r1) := Shrunk(Least(px, RedOf, 16), Greatest(px, RedOf, 16));
    var (g0, g1) := Shrunk(Least(px, GreenOf, 16), Greatest(px, GreenOf, 16));
    var (b0, b1) := Shrunk(Least(px, BlueOf, 16), Greatest(px, BlueOf, 16));
    FieldsOf565(r1, g1, b1);
    FieldsOf565(r0, g0, b0);
  }

  /** The endpoints are the corners; equal corners are moved apart by one, the upper one unless it is all ones. */
  lemma EndsMean(px: seq<nat>)
    requires |px| == 16
    ensures
      var ((c0, c1), (e0, e1)) := (Corners(px), Ends(px));
      if c0 != c1 then e0 == c0 && e1 == c1
      else e0 == e1 + 1 && (if c0 == 0xffff then e0 == c0 else e1 == c1)
  {
    EndsDescend(px);
  }

  /** The third and fourth colour are a third of the way from one endpoint to the other, rounded to the nearest. */
  lemma ThirdsAreRounded(c0: nat, c1: nat)
    ensures
      var p := FourColours(c0, c1);
      && -1 <= 3 * p[2].r - (2 * p[0].r + p[1].r) <= 1 && -1 <= 3 * p[3].r - (p[0].r + 2 * p[1].r) <= 1
      && -1 <= 3 * p[2].g - (2 * p[0].g + p[1].g) <= 1 && -1 <= 3 * p[3].g - (p[0].g + 2 * p[1].g) <= 1
      && -1 <= 3 * p[2].b - (2 * p[0].b + p[1].b) <= 1 && -1 <= 3 * p[3].b - (p[0].b + 2 * p[1].b) <= 1
  {
  }
}
