/**
 The ETC1/ETC2 RGB and EAC alpha block formats as the Khronos Data Format Specification 1.3
 defines them (chapters 21 and 22): a 64-bit big-endian word whose numbered fields select a mode,
 colours and one index per texel.  This is the reference that Etc2Decode is proved against.
 */
module Etc2Format {
  import opened Digits

  type Byte = bv8
  type Word = bv64

  datatype Mode = Individual | Differential | T | H | Planar

  datatype Colour = Colour(r: Byte, g: Byte, b: Byte)

  // Red, green and blue as numbers, before or after clamping.
  datatype Rgb = Rgb(r: int, g: int, b: int)

  // ---------------------------------------------------------------- fields

  function WordOf(d: seq<Byte>): Word
    requires |d| == 8
  {
    ((d[0] as bv64) << 56) | ((d[1] as bv64) << 48) | ((d[2] as bv64) << 40) | ((d[3] as bv64) << 32)
      | ((d[4] as bv64) << 24) | ((d[5] as bv64) << 16) | ((d[6] as bv64) << 8) | (d[7] as bv64)
  }

  // `width` bits of the word starting at bit `low`, for the widths the format uses.
  function F1(w: Word, low: bv6): Byte { ((w >> low) & 1) as bv8 }
  function F2(w: Word, low: bv6): Byte { ((w >> low) & 3) as bv8 }
  function F3(w: Word, low: bv6): (r: Byte) ensures r as int < 8 { ((w >> low) & 7) as bv8 }
  function F4(w: Word, low: bv6): Byte { ((w >> low) & 15) as bv8 }
  function F5(w: Word, low: bv6): Byte { ((w >> low) & 31) as bv8 }
  function F6(w: Word, low: bv6): Byte { ((w >> low) & 63) as bv8 }
  function F7(w: Word, low: bv6): Byte { ((w >> low) & 127) as bv8 }

  // Replication of the leading bits up to eight bits.
  function Extend4(v: Byte): Byte { (v << 4) | v }
  function Extend5(v: Byte): Byte { (v << 3) | (v >> 2) }
  function Extend6(v: Byte): Byte { (v << 2) | (v >> 4) }
  function Extend7(v: Byte): Byte { (v << 1) | (v >> 6) }

  // A three-bit two's complement number.
  function Signed3(v: Byte): int { if v & 7 >= 4 then (v & 7) as int - 8 else (v & 7) as int }

  // ---------------------------------------------------------------- modes

  // The second base colour of differential mode, channel by channel, may leave the range of 5 bits.
  function Sum(w: Word, low: bv6): int
    requires low >= 3
  {
    F5(w, low) as int + Signed3(F3(w, low - 3))
  }

  predicate Fits5(sum: int) { 0 <= sum <= 31 }

  function ModeOf(w: Word): Mode {
    if F1(w, 33) == 0 then Individual
    else if !Fits5(Sum(w, 59)) then T
    else if !Fits5(Sum(w, 51)) then H
    else if !Fits5(Sum(w, 43)) then Planar
    else Differential
  }

  // ---------------------------------------------------------------- colours

  // The base colours of the two sub-blocks.
  function IndividualBase(w: Word, sub: bool): Colour {
    if sub then Colour(Extend4(F4(w, 56)), Extend4(F4(w, 48)), Extend4(F4(w, 40)))
    else Colour(Extend4(F4(w, 60)), Extend4(F4(w, 52)), Extend4(F4(w, 44)))
  }

  // The five-bit sum, where it fits.
  function Sum5(w: Word, low: bv6): Byte
    requires low >= 3
  {
    var delta := F3(w, low - 3);
    (F5(w, low) + (if delta >= 4 then delta + 0xf8 else delta)) & 31
  }

  function DifferentialBase(w: Word, sub: bool): Colour {
    if sub then Colour(Extend5(Sum5(w, 59)), Extend5(Sum5(w, 51)), Extend5(Sum5(w, 43)))
    else Colour(Extend5(F5(w, 59)), Extend5(F5(w, 51)), Extend5(F5(w, 43)))
  }

  function TBase(w: Word, second: bool): Colour {
    if second then Colour(Extend4(F4(w, 44)), Extend4(F4(w, 40)), Extend4(F4(w, 36)))
    else Colour(Extend4((F2(w, 59) << 2) | F2(w, 56)), Extend4(F4(w, 52)), Extend4(F4(w, 48)))
  }

  function TDistance(w: Word): Byte { (F2(w, 34) << 1) | F1(w, 32) }

  // The four-bit channels of H mode.
  function HRaw(w: Word, second: bool): Colour {
    if second then Colour(F4(w, 43), F4(w, 39), F4(w, 35))
    else Colour(F4(w, 59), (F3(w, 56) << 1) | F1(w, 52), (F1(w, 51) << 3) | F3(w, 47))
  }

  function HBase(w: Word, second: bool): Colour {
    var raw := HRaw(w, second);
    Colour(Extend4(raw.r), Extend4(raw.g), Extend4(raw.b))
  }

  // The channels as one 12-bit number, which orders the two colours.
  function Rank(raw: Colour): int { 256 * raw.r as int + 16 * raw.g as int + raw.b as int }

  function HDistance(w: Word): Byte {
    (F1(w, 34) << 2) | (F1(w, 32) << 1) | (if Rank(HRaw(w, false)) >= Rank(HRaw(w, true)) then 1 else 0)
  }

  // The colours of planar mode at the origin, and one step past the right and the lower edge.
  function PlanarO(w: Word): Colour {
    Colour(Extend6(F6(w, 57)),
           Extend7((F1(w, 56) << 6) | F6(w, 49)),
           Extend6((F1(w, 48) << 5) | (F2(w, 43) << 3) | F3(w, 39)))
  }
  function PlanarH(w: Word): Colour {
    Colour(Extend6((F5(w, 34) << 1) | F1(w, 32)), Extend7(F7(w, 25)), Extend6(F6(w, 19)))
  }
  function PlanarV(w: Word): Colour {
    Colour(Extend6(F6(w, 13)), Extend7(F7(w, 6)), Extend6(F6(w, 0)))
  }

  // ---------------------------------------------------------------- tables

  // Intensity modifiers by codeword and 2 * msb + lsb.
  const MODIFIERS: seq<seq<int>> := [
    [2, 8, -2, -8], [5, 17, -5, -17], [9, 29, -9, -29], [13, 42, -13, -42],
    [18, 60, -18, -60], [24, 80, -24, -80], [33, 106, -33, -106], [47, 183, -47, -183]]

  const DISTANCES: seq<int> := [3, 6, 11, 16, 23, 32, 41, 64]

  const ALPHA_MODIFIERS: seq<seq<int>> := [
    [-3, -6, -9, -15, 2, 5, 8, 14], [-3, -7, -10, -13, 2, 6, 9, 12],
    [-2, -5, -8, -13, 1, 4, 7, 12], [-2, -4, -6, -13, 1, 3, 5, 12],
    [-3, -6, -8, -12, 2, 5, 7, 11], [-3, -7, -9, -11, 2, 6, 8, 10],
    [-4, -7, -8, -11, 3, 6, 7, 10], [-3, -5, -8, -11, 2, 4, 7, 10],
    [-2, -6, -8, -10, 1, 5, 7, 9], [-2, -5, -8, -10, 1, 4, 7, 9],
    [-2, -4, -8, -10, 1, 3, 7, 9], [-2, -5, -7, -10, 1, 4, 6, 9],
    [-3, -4, -7, -10, 2, 3, 6, 9], [-1, -2, -3, -10, 0, 1, 2, 9],
    [-4, -6, -8, -9, 3, 5, 7, 8], [-3, -5, -7, -9, 2, 4, 6, 8]]

  // ---------------------------------------------------------------- texels

  function Clamp(n: int): (r: int)
    ensures 0 <= r <= 255
  {
    if n < 0 then 0 else if n > 255 then 255 else n
  }

  predicate InRange(c: Rgb) { 0 <= c.r <= 255 && 0 <= c.g <= 255 && 0 <= c.b <= 255 }

  function ClampRgb(c: Rgb): (r: Rgb)
    ensures InRange(r)
  {
    Rgb(Clamp(c.r), Clamp(c.g), Clamp(c.b))
  }

  function Shifted(c: Colour, m: int): (r: Rgb)
    ensures InRange(r)
  {
    ClampRgb(Rgb(c.r as int + m, c.g as int + m, c.b as int + m))
  }

  // The two planes of index bits; texel (x, y) has bit 4x + y of each.
  function Lsbs(d: seq<Byte>): nat requires |d| == 8 { 256 * (d[6] as nat) + d[7] as nat }
  function Msbs(d: seq<Byte>): nat requires |d| == 8 { 256 * (d[4] as nat) + d[5] as nat }

  function Index(d: seq<Byte>, x: nat, y: nat): (r: nat)
    requires |d| == 8
    ensures r < 4
  {
    2 * Digit(Msbs(d), 2, 4 * x + y) + Digit(Lsbs(d), 2, 4 * x + y)
  }

  predicate InSecondHalf(w: Word, x: nat, y: nat) { if F1(w, 32) == 1 then y >= 2 else x >= 2 }

  function Codeword(w: Word, sub: bool): (r: Byte) ensures r as int < 8 { if sub then F3(w, 34) else F3(w, 37) }

  // The paint colours of T and H mode.
  function PaintT(c1: Colour, c2: Colour, distance: int, index: nat): (r: Rgb)
    ensures InRange(r)
  {
    match index
    case 0 => Shifted(c1, 0)
    case 1 => Shifted(c2, distance)
    case 2 => Shifted(c2, 0)
    case _ => Shifted(c2, -distance)
  }

  function PaintH(c1: Colour, c2: Colour, distance: int, index: nat): (r: Rgb)
    ensures InRange(r)
  {
    match index
    case 0 => Shifted(c1, distance)
    case 1 => Shifted(c1, -distance)
    case 2 => Shifted(c2, distance)
    case _ => Shifted(c2, -distance)
  }

  function Distance(i: Byte): int { DISTANCES[(i & 7) as int] }

  function Plane(o: int, h: int, v: int, x: int, y: int): int { Clamp((x * (h - o) + y * (v - o) + 4 * o + 2) / 4) }

  function Apart(a: int, b: int): nat { if a < b then b - a else a - b }

  /** Clamping gives the value of 0..255 that is nearest. */
  lemma ClampIsNearest(n: int, v: int)
    requires 0 <= v <= 255
    ensures Apart(n, Clamp(n)) <= Apart(n, v)
  {
  }

  /**
   The plane of a channel, in quarters and up to clamping: it goes from o at the origin to h four texels to the
   right and to v four texels down, and every texel is the value of the plane there, rounded to the nearest.
   */
  lemma PlaneIsLinear(o: int, h: int, v: int, x: int, y: int)
    requires 0 <= o <= 255 && 0 <= h <= 255 && 0 <= v <= 255
    ensures Plane(o, h, v, 0, 0) == o && Plane(o, h, v, 4, 0) == h && Plane(o, h, v, 0, 4) == v
    ensures
      var quarters := 4 * o + x * (h - o) + y * (v - o);
      if quarters < 0 then Plane(o, h, v, x, y) == 0
      else if quarters > 4 * 255 then Plane(o, h, v, x, y) == 255
      else -2 < 4 * Plane(o, h, v, x, y) - quarters <= 2
  {
    var quarters := 4 * o + x * (h - o) + y * (v - o);
    assert x * (h - o) + y * (v - o) + 4 * o + 2 == quarters + 2;
    assert 4 * (h - o) + 4 * o + 2 == 4 * h + 2 && 4 * (v - o) + 4 * o + 2 == 4 * v + 2;
  }

  function PlaneColour(o: Colour, h: Colour, v: Colour, x: nat, y: nat): (r: Rgb)
    ensures InRange(r)
  {
    Rgb(Plane(o.r as int, h.r as int, v.r as int, x, y), Plane(o.g as int, h.g as int, v.g as int, x, y),
        Plane(o.b as int, h.b as int, v.b as int, x, y))
  }

  function Texel(d: seq<Byte>, x: nat, y: nat): (r: Rgb)
    requires |d| == 8 && x < 4 && y < 4
    ensures InRange(r)
  {
    var w, sub := WordOf(d), InSecondHalf(WordOf(d), x, y);
    match ModeOf(w)
    case Individual => Shifted(IndividualBase(w, sub), MODIFIERS[Codeword(w, sub) as int][Index(d, x, y)])
    case Differential => Shifted(DifferentialBase(w, sub), MODIFIERS[Codeword(w, sub) as int][Index(d, x, y)])
    case Planar => PlaneColour(PlanarO(w), PlanarH(w), PlanarV(w), x, y)
    case T => PaintT(TBase(w, false), TBase(w, true), Distance(TDistance(w)), Index(d, x, y))
    case H => PaintH(HBase(w, false), HBase(w, true), Distance(HDistance(w)), Index(d, x, y))
  }

  // ---------------------------------------------------------------- alpha

  // The block as a number; texel (x, y) has the three bits that end at bit 45 - 3 (4x + y).
  function BlockNumber(d: seq<Byte>): nat {
    if d == [] then 0 else 256 * BlockNumber(d[..|d| - 1]) + d[|d| - 1] as nat
  }

  function AlphaIndex(d: seq<Byte>, x: nat, y: nat): nat
    requires x < 4 && y < 4
  {
    Digit(BlockNumber(d), 8, 15 - (4 * x + y))
  }

  function Alpha(d: seq<Byte>, x: nat, y: nat): int
    requires |d| == 8 && x < 4 && y < 4
  {
    Clamp(d[0] as int + (d[1] >> 4) as int * ALPHA_MODIFIERS[(d[1] & 15) as int][AlphaIndex(d, x, y)])
  }
}
