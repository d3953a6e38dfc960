/**
 The image-level part of source/etc2_bc.c: the size computation with its overflow guards and the
 loop over blocks.
 */
module Transcode {
  import opened Etc2Format
  import opened Etc2Decode
  import Bc1
  import Bc3Alpha

  const SIZE_MAX: nat := 0xffff_ffff_ffff_ffff
  const INT_MAX: int := 0x7fff_ffff
  const RGB8: int := 1
  const RGBA8: int := 2

  function BlockSize(mode: int): nat { if mode == RGB8 then 8 else if mode == RGBA8 then 16 else 0 }

  // etc2_bc_image_size
  function ImageSize(mode: int, width: int, height: int): nat {
    if width <= 0 || height <= 0 then 0
    else
      var columns, rows, size := (width + 3) / 4, (height + 3) / 4, BlockSize(mode);
      if size == 0 || columns > SIZE_MAX / rows then 0
      else if columns * rows > SIZE_MAX / size then 0
      else columns * rows * size
  }

  function Area(a: nat, b: nat): nat { a * b }

  function BlockCount(width: int, height: int): nat
    requires width > 0 && height > 0
  {
    Area((width + 3) / 4, (height + 3) / 4)
  }

  lemma AreaMonotone(a: nat, b: nat, a1: nat, b1: nat)
    requires a <= a1 && b <= b1
    ensures Area(a, b) <= Area(a1, b1)
  {
    assert a * b <= a1 * b;
    assert a1 * b <= a1 * b1;
  }

  lemma DivideMonotone(rows: nat)
    requires 0 < rows <= 0x2000_0000
    ensures SIZE_MAX / rows >= SIZE_MAX / 0x2000_0000
  {
    var q, r := SIZE_MAX / rows, SIZE_MAX / 0x2000_0000;
    if q < r { AreaMonotone(q + 1, rows, r, 0x2000_0000); }
  }

  /** For every pair of C ints the size is exact: the overflow guards are never taken. */
  lemma SizeIsExact(mode: int, width: int, height: int)
    requires width <= INT_MAX && height <= INT_MAX
    ensures ImageSize(mode, width, height) ==
      if width <= 0 || height <= 0 || (mode != RGB8 && mode != RGBA8) then 0
      else BlockCount(width, height) * BlockSize(mode)
    ensures width > 0 && height > 0 ==> BlockCount(width, height) * 16 <= SIZE_MAX
  {
    if width > 0 && height > 0 {
      var columns, rows := (width + 3) / 4, (height + 3) / 4;
      AreaMonotone(columns, rows, 0x2000_0000, 0x2000_0000);
      assert columns <= 0x2000_0000 && SIZE_MAX / rows >= SIZE_MAX / 0x2000_0000 by { DivideMonotone(rows); }
      var size := BlockSize(mode);
      assert size == 8 || size == 16 || size == 0;
    }
  }

  // ---------------------------------------------------------------- blocks

  lemma AlphaFits(p: nat, a: nat)
    requires a <= 255
    ensures WithAlpha(p, a) < 0x1_0000_0000
  {
  }

  lemma WordsOfAlpha(d: seq<Byte>, px: seq<nat>)
    requires |d| == 8 && |px| == 16
    ensures Bc3Alpha.Words(AlphaImage(d, px))
  {
    forall p | 0 <= p < 16 ensures AlphaImage(d, px)[p] < 0x1_0000_0000 { AlphaFits(px[p], Alpha(d, p % 4, p / 4)); }
  }

  // Block b of the image, in the source or in the destination.
  function Part<T>(s: seq<T>, size: nat, b: nat): (r: seq<T>)
    requires size * b + size <= |s|
    ensures |r| == size
  {
    s[size * b..size * b + size]
  }

  lemma SameSlice(s: seq<nat>, t: seq<nat>, n: nat, i: nat)
    requires n <= |s| == |t| && s[..n] == t[..n] && i <= n
    ensures s[i..n] == t[i..n]
  {
    assert s[i..n] == s[..n][i..] && t[i..n] == t[..n][i..];
  }

  lemma PartAt<T>(s: seq<T>, size: nat, b: nat, at: nat)
    requires at == size * b && at + size <= |s|
    ensures Part(s, size, b) == s[at..at + size]
  {
  }

  // The two halves of an RGBA block.
  lemma HalvesAt(s: seq<nat>, b: nat, at: nat, middle: nat, end: nat)
    requires at == 16 * b && middle == at + 8 && end == at + 16 && end <= |s|
    ensures Part(s, 16, b)[..8] == s[at..middle] && Part(s, 16, b)[8..] == s[middle..end]
  {
    PartAt(s, 16, b, at);
    assert s[at..end][..8] == s[at..middle] && s[at..end][8..] == s[middle..end];
  }

  method EncodeRgba(px: seq<nat>, dst: array<nat>, at: nat)
    requires Bc3Alpha.Words(px) && at + 16 <= dst.Length
    modifies dst
    ensures Bc3Alpha.Encodes(dst[at..at + 8], px) && Bc1.Encodes(dst[at + 8..at + 16], px)
    ensures dst[..at] == old(dst[..at]) && dst[at + 16..] == old(dst[at + 16..])
  {
    Bc3Alpha.EncodeAlpha(px, dst, at);
    ghost var half := dst[..];
    Bc1.EncodeColor(px, dst, at + 8);
    SameSlice(half, dst[..], at + 8, at);
    assert dst[..at] == half[..at + 8][..at];
    assert dst[at + 16..] == half[at + 8..][8..];
  }

  lemma PartStays(before: seq<nat>, after: seq<nat>, size: nat, b: nat, n: nat)
    requires size * b + size <= n <= |before| == |after| && before[..n] == after[..n]
    ensures Part(after, size, b) == Part(before, size, b)
  {
    assert before[size * b..size * b + size] == before[..n][size * b..size * b + size];
    assert after[size * b..size * b + size] == after[..n][size * b..size * b + size];
  }

  // ---------------------------------------------------------------- the image

  // The pixels of one block.
  type Tile = px: seq<nat> | |px| == 16 witness seq(16, i => 0)

  function RgbPixels(block: seq<Byte>): Tile
    requires |block| == 8
  {
    Rows(Texels(block))
  }

  // The pixels of the first n blocks, as the formats define them.
  function RgbImage(src: seq<Byte>, n: nat): (r: seq<Tile>)
    requires 8 * n <= |src|
    ensures |r| == n
  {
    seq(n, b requires 0 <= b < n => RgbPixels(Part(src, 8, b)))
  }

  function RgbaPixels(block: seq<Byte>): Tile
    requires |block| == 16
  {
    AlphaImage(block[..8], Rows(Texels(block[8..])))
  }

  function RgbaImage(src: seq<Byte>, n: nat): (r: seq<Tile>)
    requires 16 * n <= |src|
    ensures |r| == n
  {
    seq(n, b requires 0 <= b < n => RgbaPixels(Part(src, 16, b)))
  }

  // The destination encodes the first n blocks of an image.
  ghost predicate RgbEncodes(dst: seq<nat>, image: seq<Tile>, n: nat)
    requires n <= |image| && 8 * n <= |dst|
  {
    forall b | 0 <= b < n :: Bc1.Encodes(Part(dst, 8, b), image[b])
  }

  ghost predicate BothEncode(block: seq<nat>, px: Tile)
    requires |block| == 16
  {
    Bc3Alpha.Encodes(block[..8], px) && Bc1.Encodes(block[8..], px)
  }

  ghost predicate RgbaEncodes(dst: seq<nat>, image: seq<Tile>, n: nat)
    requires n <= |image| && 16 * n <= |dst|
  {
    forall b | 0 <= b < n :: BothEncode(Part(dst, 16, b), image[b])
  }

  lemma RgbEncodesNext(before: seq<nat>, after: seq<nat>, image: seq<Tile>, i: nat)
    requires i < |image| && 8 * i + 8 <= |before| == |after| && before[..8 * i] == after[..8 * i]
    requires RgbEncodes(before, image, i) && Bc1.Encodes(Part(after, 8, i), image[i])
    ensures RgbEncodes(after, image, i + 1)
  {
    forall b | 0 <= b < i ensures Bc1.Encodes(Part(after, 8, b), image[b]) {
      PartStays(before, after, 8, b, 8 * i);
    }
  }

  lemma StillEncodes(before: seq<nat>, after: seq<nat>, image: seq<Tile>, i: nat, b: nat, n: nat)
    requires b < i <= |image| && n == 16 * i && n <= |before| == |after| && before[..n] == after[..n]
    requires RgbaEncodes(before, image, i)
    ensures BothEncode(Part(after, 16, b), image[b])
  {
    PartStays(before, after, 16, b, n);
  }

  lemma RgbaEncodesNext(before: seq<nat>, after: seq<nat>, image: seq<Tile>, i: nat)
    requires i < |image| && 16 * i + 16 <= |before| == |after| && before[..16 * i] == after[..16 * i]
    requires RgbaEncodes(before, image, i) && BothEncode(Part(after, 16, i), image[i])
    ensures RgbaEncodes(after, image, i + 1)
  {
    var n := 16 * i;
    forall b: nat | b < i ensures BothEncode(Part(after, 16, b), image[b]) {
      StillEncodes(before, after, image, i, b, n);
    }
  }

  lemma RgbImageAt(src: seq<Byte>, n: nat, b: nat)
    requires 8 * n <= |src| && b < n
    ensures RgbImage(src, n)[b] == RgbPixels(Part(src, 8, b))
  {
  }

  lemma PixelsAreWords(block: seq<Byte>)
    requires |block| == 16
    ensures Bc3Alpha.Words(RgbaPixels(block))
  {
    WordsOfAlpha(block[..8], Rows(Texels(block[8..])));
  }

  lemma RgbaImageAt(src: seq<Byte>, n: nat, b: nat)
    requires 16 * n <= |src| && b < n
    ensures RgbaImage(src, n)[b] == RgbaPixels(Part(src, 16, b)) && Bc3Alpha.Words(RgbaImage(src, n)[b])
  {
    PixelsAreWords(Part(src, 16, b));
  }

  lemma TailStays(start: seq<nat>, before: seq<nat>, at: nat, next: nat)
    requires at <= next <= |before| == |start| && before[at..] == start[at..]
    ensures before[next..] == start[next..]
  {
    assert before[at..][next - at..] == before[next..] && start[at..][next - at..] == start[next..];
  }

  // The first i blocks are recoded and everything behind them is as it was.
  ghost predicate RgbDone(start: seq<nat>, now: seq<nat>, image: seq<Tile>, i: nat)
    requires i <= |image| && 8 * i <= |now|
  {
    |now| == |start| && RgbEncodes(now, image, i) && now[8 * i..] == start[8 * i..]
  }

  lemma RgbDoneNext(start: seq<nat>, before: seq<nat>, after: seq<nat>, image: seq<Tile>, i: nat, at: nat, next: nat)
    requires i < |image| && at == 8 * i && next == at + 8 && next <= |before| == |after|
    requires RgbDone(start, before, image, i) && Bc1.Encodes(Part(after, 8, i), image[i])
    requires after[..at] == before[..at] && after[next..] == before[next..]
    ensures RgbDone(start, after, image, i + 1)
  {
    RgbEncodesNext(before, after, image, i);
    TailStays(start, before, at, next);
  }

  // The first i blocks are recoded and everything behind them is as it was.
  ghost predicate RgbaDone(start: seq<nat>, now: seq<nat>, image: seq<Tile>, i: nat)
    requires i <= |image| && 16 * i <= |now|
  {
    |now| == |start| && RgbaEncodes(now, image, i) && now[16 * i..] == start[16 * i..]
  }

  lemma RgbaDoneNext(start: seq<nat>, before: seq<nat>, after: seq<nat>, image: seq<Tile>, i: nat, at: nat, next: nat)
    requires i < |image| && at == 16 * i && next == at + 16 && next <= |before| == |after|
    requires RgbaDone(start, before, image, i) && BothEncode(Part(after, 16, i), image[i])
    requires after[..at] == before[..at] && after[next..] == before[next..]
    ensures RgbaDone(start, after, image, i + 1)
  {
    RgbaEncodesNext(before, after, image, i);
    TailStays(start, before, at, next);
  }

  // The colour half of a source block is its second half.
  method DecodeRgba(block: seq<Byte>, px: array<nat>)
    requires |block| == 16 && px.Length == 16
    modifies px
    ensures px[..] == RgbaPixels(block)
  {
    DecodeRgb(block[8..], px);
    DecodeAlpha(block[..8], px);
  }

  // One turn of the transcoder's loops.
  method RecodeRgb(src: seq<Byte>, dst: array<nat>, px: array<nat>, ghost image: seq<Tile>, b: nat, at: nat)
    requires 8 * |image| <= |src| && image == RgbImage(src, |image|) && b < |image| && at == 8 * b
    requires at + 8 <= dst.Length && px.Length == 16 && px != dst
    modifies dst, px
    ensures Bc1.Encodes(Part(dst[..], 8, b), image[b])
    ensures dst[..at] == old(dst[..at]) && dst[at + 8..] == old(dst[at + 8..])
  {
    DecodeRgb(Part(src, 8, b), px);
    RgbImageAt(src, |image|, b);
    Bc1.EncodeColor(px[..], dst, at);
    PartAt(dst[..], 8, b, at);
    assert dst[..][at..at + 8] == dst[at..at + 8];
  }

  method RecodeRgba(src: seq<Byte>, dst: array<nat>, px: array<nat>, ghost image: seq<Tile>, b: nat, at: nat)
    requires 16 * |image| <= |src| && image == RgbaImage(src, |image|) && b < |image| && at == 16 * b
    requires at + 16 <= dst.Length && px.Length == 16 && px != dst
    modifies dst, px
    ensures BothEncode(Part(dst[..], 16, b), image[b])
    ensures dst[..at] == old(dst[..at]) && dst[at + 16..] == old(dst[at + 16..])
  {
    DecodeRgba(Part(src, 16, b), px);
    RgbaImageAt(src, |image|, b);
    EncodeRgba(px[..], dst, at);
    HalvesAt(dst[..], b, at, at + 8, at + 16);
    assert dst[..][at..at + 8] == dst[at..at + 8] && dst[..][at + 8..at + 16] == dst[at + 8..at + 16];
  }

  method RecodeAllRgb(src: seq<Byte>, dst: array<nat>, blocks: nat)
    requires 8 * blocks <= |src| && 8 * blocks <= dst.Length
    modifies dst
    ensures RgbEncodes(dst[..], RgbImage(src, blocks), blocks)
    ensures dst[8 * blocks..] == old(dst[8 * blocks..])
  {
    ghost var start, image := dst[..], RgbImage(src, blocks);
    var px := new nat[16](i => 0);
    for i := 0 to blocks
      invariant RgbDone(start, dst[..], image, i)
    {
      ghost var before := dst[..];
      var at := 8 * i;
      RecodeRgb(src, dst, px, image, i, at);
      RgbDoneNext(start, before, dst[..], image, i, at, at + 8);
    }
  }

  method RecodeAllRgba(src: seq<Byte>, dst: array<nat>, blocks: nat)
    requires 16 * blocks <= |src| && 16 * blocks <= dst.Length
    modifies dst
    ensures RgbaEncodes(dst[..], RgbaImage(src, blocks), blocks)
    ensures dst[16 * blocks..] == old(dst[16 * blocks..])
  {
    ghost var start, image := dst[..], RgbaImage(src, blocks);
    var px := new nat[16](i => 0);
    for i := 0 to blocks
      invariant RgbaDone(start, dst[..], image, i)
    {
      ghost var before := dst[..];
      var at := 16 * i;
      RecodeRgba(src, dst, px, image, i, at);
      RgbaDoneNext(start, before, dst[..], image, i, at, at + 16);
    }
  }

  datatype Source = Null | Data(bytes: seq<Byte>)

  // Whether a call is refused.
  predicate Accepts(dst: array?<nat>, src: Source, width: int, height: int, mode: int) {
    var need := ImageSize(mode, width, height);
    dst != null && src.Data? && need > 0 && dst.Length >= need && |src.bytes| >= need
  }

  /**
   etc2_bc_transcode: on success every block of the image is recoded in its place and nothing beyond
   the image is written; otherwise nothing is written at all.
   */
  method Transcode(dst: array?<nat>, src: Source, width: int, height: int, mode: int) returns (ok: bool)
    requires width <= INT_MAX && height <= INT_MAX
    modifies dst
    ensures ok <==> Accepts(dst, src, width, height, mode)
    ensures !ok && dst != null ==> dst[..] == old(dst[..])
    ensures ok ==>
      width > 0 && height > 0 && ImageSize(mode, width, height) == BlockCount(width, height) * BlockSize(mode)
    ensures ok && mode == RGB8 ==>
      var n := BlockCount(width, height); RgbEncodes(dst[..], RgbImage(src.bytes, n), n)
    ensures ok && mode == RGBA8 ==>
      var n := BlockCount(width, height); RgbaEncodes(dst[..], RgbaImage(src.bytes, n), n)
    ensures ok ==> dst[ImageSize(mode, width, height)..] == old(dst[ImageSize(mode, width, height)..])
  {
    SizeIsExact(mode, width, height);
    var need := ImageSize(mode, width, height);
    if dst == null || src.Null? || need == 0 || dst.Length < need || |src.bytes| < need { return false; }
    var blocks := BlockCount(width, height);
    if mode == RGB8 { RecodeAllRgb(src.bytes, dst, blocks); } else { RecodeAllRgba(src.bytes, dst, blocks); }
    return true;
  }

  // ---------------------------------------------------------------- what a decoder of the output sees

  lemma AlphaOfImage(d: seq<Byte>, px: seq<nat>, p: nat)
    requires |d| == 8 && Bc3Alpha.Words(px) && p < 16
    ensures AlphaOf(AlphaImage(d, px)[p]) == Alpha(d, p % 4, p / 4)
  {
    AlphaLeavesColour(px[p], Alpha(d, p % 4, p / 4));
  }

  lemma OpaqueTexel(d: seq<Byte>, p: nat)
    requires |d| == 8 && p < 16
    ensures var word := Rows(Texels(d))[p]; word < 0x1_0000_0000 && Bc1.ColourOf(word) == Texel(d, p % 4, p / 4)
  {
    RowsAreTexels(d, p);
    Unpack(Texel(d, p % 4, p / 4), 255);
  }

  lemma RowsAreWords(d: seq<Byte>)
    requires |d| == 8
    ensures Bc3Alpha.Words(Rows(Texels(d)))
  {
    forall p | 0 <= p < 16 ensures Rows(Texels(d))[p] < 0x1_0000_0000 { OpaqueTexel(d, p); }
  }

  /** Every alpha that a decoder reads from an RGBA8 output is within 18 of the alpha of the source block. */
  lemma AlphaSurvives(src: seq<Byte>, dst: seq<nat>, n: nat, b: nat, p: nat)
    requires 16 * n <= |src| && 16 * n <= |dst| && RgbaEncodes(dst, RgbaImage(src, n), n) && b < n && p < 16
    ensures Bc3Alpha.Distance(
        Alpha(Part(src, 16, b)[..8], p % 4, p / 4), Bc3Alpha.DecodedAlpha(Part(dst, 16, b)[..8], p)) <= 18
  {
    var block := Part(src, 16, b);
    RgbaImageAt(src, n, b);
    RowsAreWords(block[8..]);
    AlphaOfImage(block[..8], Rows(Texels(block[8..])), p);
    assert BothEncode(Part(dst, 16, b), RgbaImage(src, n)[b]);
    Bc3Alpha.AlphaError(Part(dst, 16, b)[..8], RgbaImage(src, n)[b], p);
  }

  /** Every colour read from an RGB8 output is within the block's tolerance of the texel of the source block. */
  lemma ColourSurvives(src: seq<Byte>, dst: seq<nat>, n: nat, b: nat, p: nat)
    requires 8 * n <= |src| && 8 * n <= |dst| && RgbEncodes(dst, RgbImage(src, n), n) && b < n && p < 16
    ensures Bc1.Distance2(Texel(Part(src, 8, b), p % 4, p / 4), Bc1.DecodedColour(Part(dst, 8, b), p))
      <= Bc1.Tolerance(RgbImage(src, n)[b])
  {
    RgbImageAt(src, n, b);
    OpaqueTexel(Part(src, 8, b), p);
    assert Bc1.Encodes(Part(dst, 8, b), RgbImage(src, n)[b]);
    Bc1.BlockError(Part(dst, 8, b), RgbImage(src, n)[b], p);
  }
}
