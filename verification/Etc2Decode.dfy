/**
 The ETC2 decoder of source/etc2_bc.c: byte-wise bit fields, loops that shift the index planes and
 write through the transposed order, and a second pass for alpha.
 */
module Etc2Decode {
  import opened Digits
  import opened Etc2Format

  const WRITE_ORDER: seq<nat> := [0, 4, 8, 12, 1, 5, 9, 13, 2, 6, 10, 14, 3, 7, 11, 15]
  const WRITE_ORDER_REV: seq<nat> := [15, 11, 7, 3, 14, 10, 6, 2, 13, 9, 5, 1, 12, 8, 4, 0]
  const ETC1_MODIFIER: seq<seq<int>> := [[2, 8], [5, 17], [9, 29], [13, 42], [18, 60], [24, 80], [33, 106], [47, 183]]
  const ETC1_SUBBLOCK: seq<seq<nat>> := [
    [0, 0, 0, 0, 0, 0, 0, 0, 1, 1, 1, 1, 1, 1, 1, 1],
    [0, 0, 1, 1, 0, 0, 1, 1, 0, 0, 1, 1, 0, 0, 1, 1]]

  // ---------------------------------------------------------------- packed pixels

  // A BGRA pixel word.
  function Pack(c: Rgb, a: int): (p: nat)
    requires InRange(c) && 0 <= a <= 255
  {
    c.b + 0x100 * c.g + 0x1_0000 * c.r + 0x100_0000 * a
  }

  function BlueOf(p: nat): nat { p % 256 }
  function GreenOf(p: nat): nat { p / 0x100 % 256 }
  function RedOf(p: nat): nat { p / 0x1_0000 % 256 }
  function AlphaOf(p: nat): nat { p / 0x100_0000 }

  lemma Unpack(c: Rgb, a: int)
    requires InRange(c) && 0 <= a <= 255
    ensures var p := Pack(c, a); BlueOf(p) == c.b && GreenOf(p) == c.g && RedOf(p) == c.r && AlphaOf(p) == a
  {
    var ra := c.r + 0x100 * a;
    var gra := c.g + 0x100 * ra;
    var p := c.b + 0x100 * gra;
    assert p == Pack(c, a);
    assert p / 0x100 == gra && p % 0x100 == c.b;
    assert gra / 0x100 == ra && gra % 0x100 == c.g;
    assert p / 0x1_0000 == ra && ra % 0x100 == c.r && ra / 0x100 == a;
    assert p / 0x100_0000 == a;
  }

  // *p & 0x00ffffff | a << 24
  function WithAlpha(p: nat, a: nat): nat { p % 0x100_0000 + 0x100_0000 * a }

  function Opaque(c: Rgb): nat
    requires InRange(c)
  {
    Pack(c, 255)
  }

  // apply_color and raw_color
  function ApplyColor(c: Colour, m: int): nat { Opaque(Shifted(c, m)) }
  function RawColor(c: Colour): nat { Opaque(Rgb(c.r as int, c.g as int, c.b as int)) }

  // ---------------------------------------------------------------- bit fields, byte by byte

  function IndividualColours(d: seq<Byte>): (Colour, Colour)
    requires |d| == 8
  {
    (Colour((d[0] & 0xf0) | (d[0] >> 4), (d[1] & 0xf0) | (d[1] >> 4), (d[2] & 0xf0) | (d[2] >> 4)),
     Colour((d[0] & 0x0f) | (d[0] << 4), (d[1] & 0x0f) | (d[1] << 4), (d[2] & 0x0f) | (d[2] << 4)))
  }

  lemma IndividualFields(d: seq<Byte>)
    requires |d| == 8
    ensures IndividualColours(d) == (IndividualBase(WordOf(d), false), IndividualBase(WordOf(d), true))
  {
  }

  function Top5(b: Byte): Byte { b & 0xf8 }
  function DeltaOf(b: Byte): int { ((b << 3) & 0x18) as int - ((b << 3) & 0x20) as int }

  // (int)r + dr as a number, and truncated to eight bits
  function Moved(b: Byte): int { Top5(b) as int + DeltaOf(b) }
  function MovedByte(b: Byte): Byte { Top5(b) + ((b << 3) & 0x18) - ((b << 3) & 0x20) }

  predicate Overflows(b: Byte) { Moved(b) < 0 || Moved(b) > 255 }

  lemma MovedIsScaled(b: Byte)
    ensures Moved(b) == 8 * ((b >> 3) as int + Signed3(b & 7))
  {
    assert Top5(b) as int == 8 * ((b >> 3) as int);
  }

  // The five-bit and three-bit fields of differential mode are the two parts of a byte.
  lemma DifferentialParts(d: seq<Byte>)
    requires |d| == 8
    ensures var w := WordOf(d);
      && F5(w, 59) == d[0] >> 3 && F3(w, 56) == d[0] & 7
      && F5(w, 51) == d[1] >> 3 && F3(w, 48) == d[1] & 7
      && F5(w, 43) == d[2] >> 3 && F3(w, 40) == d[2] & 7
  {
  }

  lemma OverflowIsMisfit(b: Byte)
    ensures Overflows(b) <==> !Fits5((b >> 3) as int + Signed3(b & 7))
  {
    MovedIsScaled(b);
  }

  lemma SumFields(d: seq<Byte>)
    requires |d| == 8
    ensures Overflows(d[0]) <==> !Fits5(Sum(WordOf(d), 59))
    ensures Overflows(d[1]) <==> !Fits5(Sum(WordOf(d), 51))
    ensures Overflows(d[2]) <==> !Fits5(Sum(WordOf(d), 43))
  {
    DifferentialParts(d);
    OverflowIsMisfit(d[0]); OverflowIsMisfit(d[1]); OverflowIsMisfit(d[2]);
  }

  /** The decoder takes each of its five branches exactly for the mode the format gives that branch. */
  lemma {:induction false} BranchesAreModes(d: seq<Byte>)
    requires |d| == 8
    ensures
      var mode := ModeOf(WordOf(d));
      && (d[3] & 2 == 0 <==> mode == Individual)
      && (d[3] & 2 != 0 && Overflows(d[0]) <==> mode == T)
      && (d[3] & 2 != 0 && !Overflows(d[0]) && Overflows(d[1]) <==> mode == H)
      && (d[3] & 2 != 0 && !Overflows(d[0]) && !Overflows(d[1]) && Overflows(d[2]) <==> mode == Planar)
      && (d[3] & 2 != 0 && !Overflows(d[0]) && !Overflows(d[1]) && !Overflows(d[2]) <==> mode == Differential)
  {
    SumFields(d);
    assert F1(WordOf(d), 33) == (d[3] >> 1) & 1;
    assert (d[3] >> 1) & 1 == 0 <==> d[3] & 2 == 0;
  }

  function DifferentialColours(d: seq<Byte>): (Colour, Colour)
    requires |d| == 8
  {
    var r, g, b := Top5(d[0]), Top5(d[1]), Top5(d[2]);
    var r1, g1, b1 := MovedByte(d[0]), MovedByte(d[1]), MovedByte(d[2]);
    (Colour(r | (r >> 5), g | (g >> 5), b | (b >> 5)), Colour(r1 | (r1 >> 5), g1 | (g1 >> 5), b1 | (b1 >> 5)))
  }

  lemma DifferentialRed(d: seq<Byte>)
    requires |d| == 8
    ensures DifferentialColours(d).0.r == Extend5(F5(WordOf(d), 59))
    ensures DifferentialColours(d).1.r == Extend5(Sum5(WordOf(d), 59))
  {
  }

  lemma DifferentialGreen(d: seq<Byte>)
    requires |d| == 8
    ensures DifferentialColours(d).0.g == Extend5(F5(WordOf(d), 51))
    ensures DifferentialColours(d).1.g == Extend5(Sum5(WordOf(d), 51))
  {
  }

  lemma DifferentialBlue(d: seq<Byte>)
    requires |d| == 8
    ensures DifferentialColours(d).0.b == Extend5(F5(WordOf(d), 43))
    ensures DifferentialColours(d).1.b == Extend5(Sum5(WordOf(d), 43))
  {
  }

  lemma DifferentialFields(d: seq<Byte>)
    requires |d| == 8
    ensures DifferentialColours(d) == (DifferentialBase(WordOf(d), false), DifferentialBase(WordOf(d), true))
  {
    DifferentialRed(d); DifferentialGreen(d); DifferentialBlue(d);
  }

  function TColours(d: seq<Byte>): (Colour, Colour)
    requires |d| == 8
  {
    (Colour(((d[0] << 3) & 0xc0) | ((d[0] << 4) & 0x30) | ((d[0] >> 1) & 0x0c) | (d[0] & 3),
            (d[1] & 0xf0) | (d[1] >> 4), (d[1] & 0x0f) | (d[1] << 4)),
     Colour((d[2] & 0xf0) | (d[2] >> 4), (d[2] & 0x0f) | (d[2] << 4), (d[3] & 0xf0) | (d[3] >> 4)))
  }

  lemma TFields(d: seq<Byte>)
    requires |d| == 8
    ensures TColours(d) == (TBase(WordOf(d), false), TBase(WordOf(d), true))
    ensures ((d[3] >> 1) & 6) | (d[3] & 1) == TDistance(WordOf(d)) < 8
  {
  }

  function HColours(d: seq<Byte>): (Colour, Colour)
    requires |d| == 8
  {
    var g0, b0 := ((d[0] << 5) & 0xe0) | (d[1] & 0x10), (d[1] & 8) | ((d[1] << 1) & 6) | (d[2] >> 7);
    var g1 := ((d[2] << 5) & 0xe0) | ((d[3] >> 3) & 0x10);
    (Colour(((d[0] << 1) & 0xf0) | ((d[0] >> 3) & 0x0f), g0 | (g0 >> 4), b0 | (b0 << 4)),
     Colour(((d[2] << 1) & 0xf0) | ((d[2] >> 3) & 0x0f), g1 | (g1 >> 4), ((d[3] << 1) & 0xf0) | ((d[3] >> 3) & 0x0f)))
  }

  // The comparison of the expanded colours, channel after channel.
  predicate InOrder(r0: int, g0: int, b0: int, r1: int, g1: int, b1: int) {
    r0 > r1 || (r0 == r1 && (g0 > g1 || (g0 == g1 && b0 >= b1)))
  }

  predicate AtLeast(c: Colour, e: Colour) {
    InOrder(c.r as int, c.g as int, c.b as int, e.r as int, e.g as int, e.b as int)
  }

  function HDistanceCode(d: seq<Byte>): Byte
    requires |d| == 8
  {
    var (c0, c1) := HColours(d);
    ((d[3] & 4) | ((d[3] << 1) & 2)) + (if AtLeast(c0, c1) then 1 else 0)
  }

  lemma HColourFields(d: seq<Byte>)
    requires |d| == 8
    ensures HColours(d) == (HBase(WordOf(d), false), HBase(WordOf(d), true))
  {
  }

  lemma Extend4Scales(v: Byte)
    requires v < 16
    ensures Extend4(v) as int == 17 * v as int && v as int <= 15
  {
  }

  predicate Raw(c: Colour) { c.r < 16 && c.g < 16 && c.b < 16 }

  lemma OrderOfDigits(r0: int, g0: int, b0: int, r1: int, g1: int, b1: int)
    requires 0 <= r0 < 16 && 0 <= g0 < 16 && 0 <= b0 < 16 && 0 <= r1 < 16 && 0 <= g1 < 16 && 0 <= b1 < 16
    ensures InOrder(17 * r0, 17 * g0, 17 * b0, 17 * r1, 17 * g1, 17 * b1) <==>
      256 * r0 + 16 * g0 + b0 >= 256 * r1 + 16 * g1 + b1
  {
  }

  function Extended(c: Colour): Colour { Colour(Extend4(c.r), Extend4(c.g), Extend4(c.b)) }

  lemma ExtendedScales(c: Colour)
    requires Raw(c)
    ensures var e := Extended(c);
      e.r as int == 17 * c.r as int && e.g as int == 17 * c.g as int && e.b as int == 17 * c.b as int
    ensures 0 <= c.r as int < 16 && 0 <= c.g as int < 16 && 0 <= c.b as int < 16
  {
    Extend4Scales(c.r); Extend4Scales(c.g); Extend4Scales(c.b);
  }

  lemma AtLeastIs(c: Colour, e: Colour, r0: int, g0: int, b0: int, r1: int, g1: int, b1: int)
    requires c.r as int == r0 && c.g as int == g0 && c.b as int == b0
    requires e.r as int == r1 && e.g as int == g1 && e.b as int == b1
    ensures AtLeast(c, e) <==> InOrder(r0, g0, b0, r1, g1, b1)
  {
  }

  lemma RankIs(c: Colour, r: int, g: int, b: int)
    requires c.r as int == r && c.g as int == g && c.b as int == b
    ensures Rank(c) == 256 * r + 16 * g + b
  {
  }

  // Comparing extended channels one after the other orders the 12-bit raw colours.
  lemma OrderOfExtended(c: Colour, e: Colour)
    requires Raw(c) && Raw(e)
    ensures AtLeast(Extended(c), Extended(e)) <==> Rank(c) >= Rank(e)
  {
    ExtendedScales(c);
    ExtendedScales(e);
    var r0, g0, b0 := c.r as int, c.g as int, c.b as int;
    var r1, g1, b1 := e.r as int, e.g as int, e.b as int;
    OrderOfDigits(r0, g0, b0, r1, g1, b1);
    AtLeastIs(Extended(c), Extended(e), 17 * r0, 17 * g0, 17 * b0, 17 * r1, 17 * g1, 17 * b1);
    RankIs(c, r0, g0, b0);
    RankIs(e, r1, g1, b1);
  }

  lemma RawChannels(w: Word, second: bool)
    ensures Raw(HRaw(w, second))
  {
  }

  lemma HDistanceFields(d: seq<Byte>)
    requires |d| == 8
    ensures (d[3] & 4) | ((d[3] << 1) & 2) == (F1(WordOf(d), 34) << 2) | (F1(WordOf(d), 32) << 1)
  {
  }

  lemma HOrder(w: Word)
    ensures AtLeast(HBase(w, false), HBase(w, true)) <==> Rank(HRaw(w, false)) >= Rank(HRaw(w, true))
  {
    RawChannels(w, false);
    RawChannels(w, true);
    OrderOfExtended(HRaw(w, false), HRaw(w, true));
  }

  lemma HFields(d: seq<Byte>)
    requires |d| == 8
    ensures HColours(d) == (HBase(WordOf(d), false), HBase(WordOf(d), true))
    ensures HDistanceCode(d) == HDistance(WordOf(d)) < 8
  {
    HColourFields(d);
    HOrder(WordOf(d));
    HDistanceFields(d);
  }

  function PlanarColours(d: seq<Byte>): (Colour, Colour, Colour)
    requires |d| == 8
  {
    var ob := ((d[1] << 7) & 0x80) | ((d[2] << 2) & 0x60) | ((d[2] << 3) & 0x18) | ((d[3] >> 5) & 4);
    var hb := ((d[4] << 7) & 0x80) | ((d[5] >> 1) & 0x7c);
    (Colour(((d[0] << 1) & 0xfc) | ((d[0] >> 5) & 3),
            ((d[0] << 7) & 0x80) | (d[1] & 0x7e) | (d[0] & 1), ob | (ob >> 6)),
     Colour(((d[3] << 1) & 0xf8) | ((d[3] << 2) & 4) | ((d[3] >> 5) & 3), (d[4] & 0xfe) | (d[4] >> 7), hb | (hb >> 6)),
     Colour(((d[5] << 5) & 0xe0) | ((d[6] >> 3) & 0x1c) | ((d[5] >> 1) & 3),
            ((d[6] << 3) & 0xf8) | ((d[7] >> 5) & 6) | ((d[6] >> 4) & 1), (d[7] << 2) | ((d[7] >> 4) & 3)))
  }

  lemma PlanarFields(d: seq<Byte>)
    requires |d| == 8
    ensures PlanarColours(d) == (PlanarO(WordOf(d)), PlanarH(WordOf(d)), PlanarV(WordOf(d)))
  {
  }

  // ---------------------------------------------------------------- loops over the texels

  /** The write order transposes: texel t of the index planes, column t / 4 and row t % 4, lands in row-major order. */
  lemma WriteOrderTransposes(t: nat)
    requires t < 16
    ensures WRITE_ORDER[t] == 4 * (t % 4) + t / 4 && WRITE_ORDER_REV[t] == WRITE_ORDER[15 - t]
  {
    if t < 4 {
    } else if t < 8 {
    } else if t < 12 {
    } else {
    }
  }

  lemma Transposed(p: nat)
    requires p < 16
    ensures var t := 4 * (p % 4) + p / 4; t < 16 && WRITE_ORDER[t] == p && t / 4 == p % 4 && t % 4 == p / 4
  {
    var t := 4 * (p % 4) + p / 4;
    assert t / 4 == p % 4 && t % 4 == p / 4;
    WriteOrderTransposes(t);
  }

  // Transposing twice changes nothing.
  lemma TransposedTwice(t: nat)
    requires t < 16
    ensures var p := 4 * (t % 4) + t / 4; p < 16 && p % 4 == t / 4 && p / 4 == t % 4 && 4 * (p % 4) + p / 4 == t
  {
    var p := 4 * (t % 4) + t / 4;
    assert p / 4 == t % 4 && p % 4 == t / 4;
    assert 4 * (t / 4) + t % 4 == t;
  }

  lemma WriteOrderOnce(u: nat)
    requires u < 16
    ensures forall t | 0 <= t < u :: WRITE_ORDER[t] != WRITE_ORDER[u]
  {
    WriteOrderTransposes(u);
    TransposedTwice(u);
    forall t | 0 <= t < u ensures WRITE_ORDER[t] != WRITE_ORDER[u] {
      WriteOrderTransposes(t);
      TransposedTwice(t);
    }
  }

  // Texels in the order of the index planes as an image of four rows.
  function Rows(texels: seq<nat>): (r: seq<nat>)
    requires |texels| == 16
    ensures |r| == 16
  {
    seq(16, p requires 0 <= p < 16 => texels[4 * (p % 4) + p / 4])
  }

  lemma InWriteOrder(texels: seq<nat>, px: seq<nat>)
    requires |texels| == 16 && |px| == 16 && forall t | 0 <= t < 16 :: px[WRITE_ORDER[t]] == texels[t]
    ensures px == Rows(texels)
  {
    forall p | 0 <= p < 16 ensures px[p] == texels[4 * (p % 4) + p / 4] {
      Transposed(p);
    }
  }

  // The loop of the T and H branches.
  method PaintTexels(set4: seq<nat>, lsbs: nat, msbs: nat, out: array<nat>)
    requires |set4| == 4 && out.Length == 16
    modifies out
    ensures forall t | 0 <= t < 16 :: out[WRITE_ORDER[t]] == set4[2 * Digit(msbs, 2, t) + Digit(lsbs, 2, t)]
  {
    var j, k := lsbs, 2 * msbs;
    for i := 0 to 16
      invariant j == Drop(lsbs, 2, i) && k / 2 == Drop(msbs, 2, i)
      invariant forall t | 0 <= t < i :: out[WRITE_ORDER[t]] == set4[2 * Digit(msbs, 2, t) + Digit(lsbs, 2, t)]
    {
      WriteOrderOnce(i);
      out[WRITE_ORDER[i]] := set4[2 * (k / 2 % 2) + j % 2];       // (k & 2) | (j & 1)
      j, k := j / 2, k / 2;
    }
  }

  // The texels that the two index planes pick from four paints.
  ghost predicate Paints(paints: seq<nat>, lsbs: nat, msbs: nat, texels: seq<nat>)
    requires |paints| == 4 && |texels| == 16
  {
    forall t | 0 <= t < 16 :: paints[2 * Digit(msbs, 2, t) + Digit(lsbs, 2, t)] == texels[t]
  }

  method PaintImage(paints: seq<nat>, lsbs: nat, msbs: nat, out: array<nat>, ghost texels: seq<nat>)
    requires |paints| == 4 && out.Length == 16 && |texels| == 16 && Paints(paints, lsbs, msbs, texels)
    modifies out
    ensures out[..] == Rows(texels)
  {
    PaintTexels(paints, lsbs, msbs, out);
    InWriteOrder(texels, out[..]);
  }

  predicate ShadeInputs(c: seq<Colour>, code: seq<nat>, table: seq<nat>) {
    |c| == 2 && |code| == 2 && code[0] < 8 && code[1] < 8 && table in ETC1_SUBBLOCK
  }

  // One texel of the individual and the differential branch: s and m, then apply_color.
  function Shade(c: seq<Colour>, code: seq<nat>, table: seq<nat>, t: nat, lsb: nat, msb: nat): nat
    requires ShadeInputs(c, code, table) && t < 16 && lsb < 2
  {
    var s := table[t];
    var m := ETC1_MODIFIER[code[s]][lsb];
    ApplyColor(c[s], if msb == 1 then -m else m)
  }

  // The texels that the two index planes pick.
  ghost predicate Shades(c: seq<Colour>, code: seq<nat>, table: seq<nat>, lsbs: nat, msbs: nat, texels: seq<nat>)
    requires ShadeInputs(c, code, table) && |texels| == 16
  {
    forall t | 0 <= t < 16 :: Shade(c, code, table, t, Digit(lsbs, 2, t), Digit(msbs, 2, t)) == texels[t]
  }

  lemma ShadeAt(c: seq<Colour>, code: seq<nat>, table: seq<nat>, lsbs: nat, msbs: nat, texels: seq<nat>,
                i: nat, j: nat, k: nat)
    requires ShadeInputs(c, code, table) && |texels| == 16 && Shades(c, code, table, lsbs, msbs, texels)
    requires i < 16 && j == Drop(lsbs, 2, i) && k == Drop(msbs, 2, i)
    ensures Shade(c, code, table, i, j % 2, k % 2) == texels[i]
  {
    assert Shade(c, code, table, i, Digit(lsbs, 2, i), Digit(msbs, 2, i)) == texels[i];
  }

  // The loop of those branches.
  method ShadeTexels(c: seq<Colour>, code: seq<nat>, table: seq<nat>, lsbs: nat, msbs: nat, out: array<nat>,
                     ghost texels: seq<nat>)
    requires ShadeInputs(c, code, table) && out.Length == 16 && |texels| == 16
    requires Shades(c, code, table, lsbs, msbs, texels)
    modifies out
    ensures forall t | 0 <= t < 16 :: out[WRITE_ORDER[t]] == texels[t]
  {
    var j, k := lsbs, msbs;
    for i := 0 to 16
      invariant j == Drop(lsbs, 2, i) && k == Drop(msbs, 2, i)
      invariant forall t | 0 <= t < i :: out[WRITE_ORDER[t]] == texels[t]
    {
      WriteOrderOnce(i);
      ShadeAt(c, code, table, lsbs, msbs, texels, i, j, k);
      out[WRITE_ORDER[i]] := Shade(c, code, table, i, j % 2, k % 2);
      j, k := j / 2, k / 2;
    }
  }

  method ShadeImage(c: seq<Colour>, code: seq<nat>, table: seq<nat>, lsbs: nat, msbs: nat, out: array<nat>,
                    ghost texels: seq<nat>)
    requires ShadeInputs(c, code, table) && out.Length == 16 && |texels| == 16
    requires Shades(c, code, table, lsbs, msbs, texels)
    modifies out
    ensures out[..] == Rows(texels)
  {
    ShadeTexels(c, code, table, lsbs, msbs, out, texels);
    InWriteOrder(texels, out[..]);
  }

  function PlaneWord(o: Colour, h: Colour, v: Colour, x: nat, y: nat): nat { Opaque(PlaneColour(o, h, v, x, y)) }

  lemma InRow(x: nat, y: nat, i: nat)
    requires x < 4 && i == 4 * y + x
    ensures i % 4 == x && i / 4 == y
  {
  }

  // The loops of the planar branch, which run row by row.
  method PlaneTexels(o: Colour, h: Colour, v: Colour, out: array<nat>)
    requires out.Length == 16
    modifies out
    ensures forall p | 0 <= p < 16 :: out[p] == PlaneWord(o, h, v, p % 4, p / 4)
  {
    var i := 0;
    for y := 0 to 4
      invariant i == 4 * y
      invariant forall p | 0 <= p < i :: out[p] == PlaneWord(o, h, v, p % 4, p / 4)
    {
      for x := 0 to 4
        invariant i == 4 * y + x
        invariant forall p | 0 <= p < i :: out[p] == PlaneWord(o, h, v, p % 4, p / 4)
      {
        InRow(x, y, i);
        var word := PlaneWord(o, h, v, x, y);
        out[i] := word;
        i := i + 1;
      }
    }
  }

  // ---------------------------------------------------------------- the RGB block

  // The texel of column t / 4 and row t % 4, packed.
  function TexelAt(d: seq<Byte>, t: nat): nat
    requires |d| == 8 && t < 16
  {
    Opaque(Texel(d, t / 4, t % 4))
  }

  lemma RawIsUnshifted(c: Colour)
    ensures RawColor(c) == Opaque(Shifted(c, 0))
  {
  }

  function SetT(c: (Colour, Colour), m: int): (r: seq<nat>)
    ensures |r| == 4
  {
    [RawColor(c.0), ApplyColor(c.1, m), RawColor(c.1), ApplyColor(c.1, -m)]
  }

  function SetH(c: (Colour, Colour), m: int): (r: seq<nat>)
    ensures |r| == 4
  {
    [ApplyColor(c.0, m), ApplyColor(c.0, -m), ApplyColor(c.1, m), ApplyColor(c.1, -m)]
  }

  lemma SetsArePaints(c: (Colour, Colour), m: int, index: nat)
    requires index < 4
    ensures SetT(c, m)[index] == Opaque(PaintT(c.0, c.1, m, index))
    ensures SetH(c, m)[index] == Opaque(PaintH(c.0, c.1, m, index))
  {
    RawIsUnshifted(c.0);
    RawIsUnshifted(c.1);
  }

  // The block's texels in the order of its index planes.
  function Texels(d: seq<Byte>): (r: seq<nat>)
    requires |d| == 8
    ensures |r| == 16
  {
    seq(16, t requires 0 <= t < 16 => TexelAt(d, t))
  }

  lemma RowsAt(texels: seq<nat>, p: nat, t: nat)
    requires |texels| == 16 && p < 16 && t < 16 && t == 4 * (p % 4) + p / 4
    ensures Rows(texels)[p] == texels[t]
  {
  }

  lemma TexelFrom(d: seq<Byte>, t: nat, x: nat, y: nat)
    requires |d| == 8 && t < 16 && x == t / 4 && y == t % 4
    ensures Texels(d)[t] == Opaque(Texel(d, x, y))
  {
  }

  /** Pixel p of the decoded image is the texel in column p % 4 and row p / 4. */
  lemma RowsAreTexels(d: seq<Byte>, p: nat)
    requires |d| == 8 && p < 16
    ensures Rows(Texels(d))[p] == Opaque(Texel(d, p % 4, p / 4))
  {
    var t := 4 * (p % 4) + p / 4;
    Transposed(p);
    RowsAt(Texels(d), p, t);
    TexelFrom(d, t, p % 4, p / 4);
  }

  lemma IndexIsDigits(d: seq<Byte>, t: nat)
    requires |d| == 8 && t < 16
    ensures Index(d, t / 4, t % 4) == 2 * Digit(Msbs(d), 2, t) + Digit(Lsbs(d), 2, t)
  {
    assert 4 * (t / 4) + t % 4 == t;
  }

  // The texels of d are the paint colours its index planes pick.
  ghost predicate PaintedWith(d: seq<Byte>, paints: seq<nat>)
    requires |d| == 8 && |paints| == 4
  {
    Paints(paints, Lsbs(d), Msbs(d), Texels(d))
  }

  method PaintBlock(d: seq<Byte>, paints: seq<nat>, out: array<nat>)
    requires |d| == 8 && |paints| == 4 && out.Length == 16 && PaintedWith(d, paints)
    modifies out
    ensures out[..] == Rows(Texels(d))
  {
    PaintImage(paints, Lsbs(d), Msbs(d), out, Texels(d));
  }

  function DistanceT(d: seq<Byte>): int
    requires |d| == 8
  {
    TFields(d);
    DISTANCES[(((d[3] >> 1) & 6) | (d[3] & 1)) as int]
  }

  lemma TReference(d: seq<Byte>, x: nat, y: nat)
    requires |d| == 8 && x < 4 && y < 4 && ModeOf(WordOf(d)) == T
    ensures Texel(d, x, y) == PaintT(TColours(d).0, TColours(d).1, DistanceT(d), Index(d, x, y))
  {
    TFields(d);
  }

  lemma TexelOfT(d: seq<Byte>, t: nat)
    requires |d| == 8 && t < 16 && ModeOf(WordOf(d)) == T
    ensures SetT(TColours(d), DistanceT(d))[2 * Digit(Msbs(d), 2, t) + Digit(Lsbs(d), 2, t)] == Texels(d)[t]
  {
    TReference(d, t / 4, t % 4);
    IndexIsDigits(d, t);
    SetsArePaints(TColours(d), DistanceT(d), Index(d, t / 4, t % 4));
  }

  function PaintsT(d: seq<Byte>): (r: seq<nat>)
    requires |d| == 8
    ensures |r| == 4
  {
    SetT(TColours(d), DistanceT(d))
  }

  lemma TexelsOfT(d: seq<Byte>)
    requires |d| == 8 && ModeOf(WordOf(d)) == T
    ensures PaintedWith(d, PaintsT(d))
  {
    forall t | 0 <= t < 16 ensures PaintsT(d)[2 * Digit(Msbs(d), 2, t) + Digit(Lsbs(d), 2, t)] == Texels(d)[t] {
      TexelOfT(d, t);
    }
  }

  function DistanceH(d: seq<Byte>): int
    requires |d| == 8
  {
    HFields(d);
    DISTANCES[HDistanceCode(d) as int]
  }

  lemma HReference(d: seq<Byte>, x: nat, y: nat)
    requires |d| == 8 && x < 4 && y < 4 && ModeOf(WordOf(d)) == H
    ensures Texel(d, x, y) == PaintH(HColours(d).0, HColours(d).1, DistanceH(d), Index(d, x, y))
  {
    HFields(d);
  }

  lemma TexelOfH(d: seq<Byte>, t: nat)
    requires |d| == 8 && t < 16 && ModeOf(WordOf(d)) == H
    ensures SetH(HColours(d), DistanceH(d))[2 * Digit(Msbs(d), 2, t) + Digit(Lsbs(d), 2, t)] == Texels(d)[t]
  {
    HReference(d, t / 4, t % 4);
    IndexIsDigits(d, t);
    SetsArePaints(HColours(d), DistanceH(d), Index(d, t / 4, t % 4));
  }

  function PaintsH(d: seq<Byte>): (r: seq<nat>)
    requires |d| == 8
    ensures |r| == 4
  {
    SetH(HColours(d), DistanceH(d))
  }

  lemma TexelsOfH(d: seq<Byte>)
    requires |d| == 8 && ModeOf(WordOf(d)) == H
    ensures PaintedWith(d, PaintsH(d))
  {
    forall t | 0 <= t < 16 ensures PaintsH(d)[2 * Digit(Msbs(d), 2, t) + Digit(Lsbs(d), 2, t)] == Texels(d)[t] {
      TexelOfH(d, t);
    }
  }

  lemma SubblockFields(d: seq<Byte>)
    requires |d| == 8
    ensures var w := WordOf(d);
      Codeword(w, false) == d[3] >> 5 && Codeword(w, true) == (d[3] >> 2) & 7 && F1(w, 32) == d[3] & 1
  {
  }

  // code[2] and the row of the sub-block table
  function Codes(d: seq<Byte>): (r: seq<nat>)
    requires |d| == 8
    ensures |r| == 2 && r[0] < 8 && r[1] < 8
  {
    [(d[3] >> 5) as nat, ((d[3] >> 2) & 7) as nat]
  }

  function TableOf(d: seq<Byte>): (r: seq<nat>)
    requires |d| == 8
    ensures r in ETC1_SUBBLOCK
  {
    if d[3] & 1 == 1 then ETC1_SUBBLOCK[1] else ETC1_SUBBLOCK[0]
  }

  lemma TableIsHalf(d: seq<Byte>, t: nat)
    requires |d| == 8 && t < 16
    ensures TableOf(d)[t] == if InSecondHalf(WordOf(d), t / 4, t % 4) then 1 else 0
  {
    SubblockFields(d);
  }

  lemma CodeIsCodeword(d: seq<Byte>, sub: bool)
    requires |d| == 8
    ensures Codes(d)[if sub then 1 else 0] == Codeword(WordOf(d), sub) as nat
  {
    SubblockFields(d);
  }

  lemma ModifierSigns(code: nat, lsb: nat, msb: nat)
    requires code < 8 && lsb < 2 && msb < 2
    ensures MODIFIERS[code][2 * msb + lsb] == if msb == 1 then -ETC1_MODIFIER[code][lsb] else ETC1_MODIFIER[code][lsb]
  {
  }

  lemma ShadeWith(c: seq<Colour>, code: seq<nat>, table: seq<nat>, t: nat, lsb: nat, msb: nat,
                  half: nat, codeword: nat, index: nat)
    requires ShadeInputs(c, code, table) && t < 16 && lsb < 2 && msb < 2 && half < 2 && table[t] == half
    requires codeword == code[half] && index == 2 * msb + lsb
    ensures Shade(c, code, table, t, lsb, msb) == Opaque(Shifted(c[half], MODIFIERS[codeword][index]))
  {
    ModifierSigns(codeword, lsb, msb);
  }

  // Shade picks the sub-block's colour and modifier.
  lemma ShadeInHalf(d: seq<Byte>, c: seq<Colour>, t: nat)
    requires |d| == 8 && |c| == 2 && t < 16
    ensures var sub := InSecondHalf(WordOf(d), t / 4, t % 4);
      Shade(c, Codes(d), TableOf(d), t, Digit(Lsbs(d), 2, t), Digit(Msbs(d), 2, t))
        == Opaque(Shifted(c[if sub then 1 else 0], MODIFIERS[Codeword(WordOf(d), sub) as int][Index(d, t / 4, t % 4)]))
  {
    var sub := InSecondHalf(WordOf(d), t / 4, t % 4);
    TableIsHalf(d, t);
    CodeIsCodeword(d, sub);
    IndexIsDigits(d, t);
    ShadeWith(c, Codes(d), TableOf(d), t, Digit(Lsbs(d), 2, t), Digit(Msbs(d), 2, t),
              if sub then 1 else 0, Codeword(WordOf(d), sub) as nat, Index(d, t / 4, t % 4));
  }

  predicate ShadedWith(d: seq<Byte>, c: seq<Colour>)
    requires |d| == 8
  {
    && |c| == 2
    && (|| (ModeOf(WordOf(d)) == Individual && (c[0], c[1]) == IndividualColours(d))
        || (ModeOf(WordOf(d)) == Differential && (c[0], c[1]) == DifferentialColours(d)))
  }

  lemma ShadeReference(d: seq<Byte>, c: seq<Colour>, x: nat, y: nat)
    requires |d| == 8 && ShadedWith(d, c) && x < 4 && y < 4
    ensures var sub := InSecondHalf(WordOf(d), x, y);
      Texel(d, x, y)
        == Shifted(c[if sub then 1 else 0], MODIFIERS[Codeword(WordOf(d), sub) as int][Index(d, x, y)])
  {
    if ModeOf(WordOf(d)) == Individual { IndividualFields(d); } else { DifferentialFields(d); }
  }

  lemma TexelOfShade(d: seq<Byte>, c: seq<Colour>, t: nat)
    requires |d| == 8 && ShadedWith(d, c) && t < 16
    ensures Shade(c, Codes(d), TableOf(d), t, Digit(Lsbs(d), 2, t), Digit(Msbs(d), 2, t)) == Texels(d)[t]
  {
    ShadeInHalf(d, c, t);
    ShadeReference(d, c, t / 4, t % 4);
    TexelFrom(d, t, t / 4, t % 4);
  }

  // The texels of d are the shades its index planes pick.
  ghost predicate ShadesTo(d: seq<Byte>, c: seq<Colour>)
    requires |d| == 8 && |c| == 2
  {
    Shades(c, Codes(d), TableOf(d), Lsbs(d), Msbs(d), Texels(d))
  }

  lemma TexelsOfShade(d: seq<Byte>, c: seq<Colour>)
    requires |d| == 8 && ShadedWith(d, c)
    ensures ShadesTo(d, c)
  {
    forall t | 0 <= t < 16 ensures
      Shade(c, Codes(d), TableOf(d), t, Digit(Lsbs(d), 2, t), Digit(Msbs(d), 2, t)) == Texels(d)[t]
    {
      TexelOfShade(d, c, t);
    }
  }

  lemma PlaneReference(d: seq<Byte>, x: nat, y: nat)
    requires |d| == 8 && x < 4 && y < 4 && ModeOf(WordOf(d)) == Planar
    ensures var (o, h, v) := PlanarColours(d); Texel(d, x, y) == PlaneColour(o, h, v, x, y)
  {
    PlanarFields(d);
  }

  lemma TexelOfPlane(d: seq<Byte>, p: nat)
    requires |d| == 8 && p < 16 && ModeOf(WordOf(d)) == Planar
    ensures var (o, h, v) := PlanarColours(d); PlaneWord(o, h, v, p % 4, p / 4) == Rows(Texels(d))[p]
  {
    RowsAreTexels(d, p);
    PlaneReference(d, p % 4, p / 4);
  }

  lemma TexelsOfPlane(d: seq<Byte>)
    requires |d| == 8 && ModeOf(WordOf(d)) == Planar
    ensures forall p | 0 <= p < 16 ::
      PlaneWord(PlanarColours(d).0, PlanarColours(d).1, PlanarColours(d).2, p % 4, p / 4) == Rows(Texels(d))[p]
  {
    forall p | 0 <= p < 16 ensures
      PlaneWord(PlanarColours(d).0, PlanarColours(d).1, PlanarColours(d).2, p % 4, p / 4) == Rows(Texels(d))[p]
    {
      TexelOfPlane(d, p);
    }
  }

  method BranchT(d: seq<Byte>, out: array<nat>)
    requires |d| == 8 && out.Length == 16 && ModeOf(WordOf(d)) == T
    modifies out
    ensures out[..] == Rows(Texels(d))
  {
    TexelsOfT(d);
    PaintBlock(d, PaintsT(d), out);
  }

  method BranchH(d: seq<Byte>, out: array<nat>)
    requires |d| == 8 && out.Length == 16 && ModeOf(WordOf(d)) == H
    modifies out
    ensures out[..] == Rows(Texels(d))
  {
    TexelsOfH(d);
    PaintBlock(d, PaintsH(d), out);
  }

  method BranchPlanar(d: seq<Byte>, out: array<nat>)
    requires |d| == 8 && out.Length == 16 && ModeOf(WordOf(d)) == Planar
    modifies out
    ensures out[..] == Rows(Texels(d))
  {
    PlaneTexels(PlanarColours(d).0, PlanarColours(d).1, PlanarColours(d).2, out);
    TexelsOfPlane(d);
  }

  method BranchShaded(d: seq<Byte>, c: seq<Colour>, out: array<nat>)
    requires |d| == 8 && out.Length == 16 && ShadedWith(d, c)
    modifies out
    ensures out[..] == Rows(Texels(d))
  {
    TexelsOfShade(d, c);
    ShadeImage(c, Codes(d), TableOf(d), Lsbs(d), Msbs(d), out, Texels(d));
  }

  /** decode_etc2_rgb_block writes exactly the image the format defines, whatever the eight bytes are. */
  method DecodeRgb(d: seq<Byte>, out: array<nat>)
    requires |d| == 8 && out.Length == 16
    modifies out
    ensures out[..] == Rows(Texels(d))
  {
    BranchesAreModes(d);
    if d[3] & 2 != 0 {
      if Overflows(d[0]) { BranchT(d, out); }
      else if Overflows(d[1]) { BranchH(d, out); }
      else if Overflows(d[2]) { BranchPlanar(d, out); }
      else { BranchShaded(d, [DifferentialColours(d).0, DifferentialColours(d).1], out); }
    } else {
      BranchShaded(d, [IndividualColours(d).0, IndividualColours(d).1], out);
    }
  }

  // ---------------------------------------------------------------- the alpha block

  lemma ThreeBytes(low: nat)
    requires low < 0x100_0000
    ensures low == low % 0x100 + 0x100 * (low / 0x100 % 0x100) + 0x1_0000 * (low / 0x1_0000) && low / 0x1_0000 < 0x100
  {
    var high := low / 0x100;
    assert low == 0x100 * high + low % 0x100 && high == 0x100 * (high / 0x100) + high % 0x100;
    assert low / 0x1_0000 == high / 0x100;
  }

  /** The alpha pass changes no colour. */
  lemma AlphaLeavesColour(p: nat, a: nat)
    requires p < 0x1_0000_0000 && a <= 255
    ensures
      var q := WithAlpha(p, a);
      BlueOf(q) == BlueOf(p) && GreenOf(q) == GreenOf(p) && RedOf(q) == RedOf(p) && AlphaOf(q) == a
  {
    var low, high := p % 0x100_0000, p / 0x100_0000;
    ThreeBytes(low);
    var c := Rgb(low / 0x1_0000, low / 0x100 % 0x100, low % 0x100);
    assert p == Pack(c, high) && WithAlpha(p, a) == Pack(c, a);
    Unpack(c, high);
    Unpack(c, a);
  }

  method ReadBe64(d: seq<Byte>) returns (v: nat)
    requires |d| == 8
    ensures v == BlockNumber(d)
  {
    v := 0;
    for i := 0 to 8
      invariant v == BlockNumber(d[..i])
    {
      assert d[..i + 1][..i] == d[..i];
      v := 256 * v + d[i] as nat;
    }
    assert d[..8] == d;
  }

  function AlphaStep(d: seq<Byte>, l: nat): int
    requires |d| == 8
  {
    Clamp(d[0] as int + (d[1] >> 4) as int * ALPHA_MODIFIERS[(d[1] & 15) as int][l % 8])
  }

  lemma ReverseOrder(i: nat)
    requires i < 16
    ensures var p := WRITE_ORDER_REV[i]; p < 16 && 4 * (p % 4) + p / 4 == 15 - i
  {
    WriteOrderTransposes(i);
    WriteOrderTransposes(15 - i);
    TransposedTwice(15 - i);
  }

  lemma AlphaOfStep(d: seq<Byte>, i: nat)
    requires |d| == 8 && i < 16
    ensures var p := WRITE_ORDER_REV[i]; p < 16 && AlphaStep(d, Drop(BlockNumber(d), 8, i)) == Alpha(d, p % 4, p / 4)
  {
    ReverseOrder(i);
    var p := WRITE_ORDER_REV[i];
    assert AlphaIndex(d, p % 4, p / 4) == Drop(BlockNumber(d), 8, i) % 8;
  }

  // A multiplier of zero leaves only the base.
  lemma ZeroMultiplier(d: seq<Byte>, x: nat, y: nat)
    requires |d| == 8 && x < 4 && y < 4 && d[1] & 0xf0 == 0
    ensures Alpha(d, x, y) == d[0] as int
  {
    assert d[1] >> 4 == 0;
  }

  // Row-major pixels before and after the alpha pass.
  function AlphaImage(d: seq<Byte>, px: seq<nat>): (r: seq<nat>)
    requires |d| == 8 && |px| == 16
    ensures |r| == 16
  {
    seq(16, p requires 0 <= p < 16 => WithAlpha(px[p], Alpha(d, p % 4, p / 4)))
  }

  lemma ReverseOnce(i: nat, k: nat)
    requires i < 16 && k < 16 && WRITE_ORDER_REV[i] == WRITE_ORDER_REV[k]
    ensures i == k
  {
    ReverseOrder(i);
    ReverseOrder(k);
  }

  lemma ReverseCovers(p: nat)
    requires p < 16
    ensures var i := 15 - (4 * (p % 4) + p / 4); 0 <= i < 16 && WRITE_ORDER_REV[i] == p
  {
    Transposed(p);
    WriteOrderTransposes(15 - (4 * (p % 4) + p / 4));
  }

  // The loop of decode_etc2_alpha_block.
  method AlphaTexels(d: seq<Byte>, out: array<nat>)
    requires |d| == 8 && out.Length == 16
    modifies out
    ensures out[..] == AlphaImage(d, old(out[..]))
  {
    var l := ReadBe64(d);
    for i := 0 to 16
      invariant l == Drop(BlockNumber(d), 8, i)
      invariant forall k | 0 <= k < i :: out[WRITE_ORDER_REV[k]] == AlphaImage(d, old(out[..]))[WRITE_ORDER_REV[k]]
      invariant forall k | i <= k < 16 :: out[WRITE_ORDER_REV[k]] == old(out[..])[WRITE_ORDER_REV[k]]
    {
      AlphaOfStep(d, i);
      forall k | 0 <= k < 16 && k != i ensures WRITE_ORDER_REV[k] != WRITE_ORDER_REV[i] {
        if WRITE_ORDER_REV[k] == WRITE_ORDER_REV[i] { ReverseOnce(i, k); }
      }
      var p := WRITE_ORDER_REV[i];
      out[p] := WithAlpha(out[p], AlphaStep(d, l));
      l := l / 8;
    }
    forall p | 0 <= p < 16 ensures out[p] == AlphaImage(d, old(out[..]))[p] { ReverseCovers(p); }
  }

  /** decode_etc2_alpha_block gives every pixel the format's alpha; the shortcut for multiplier 0 agrees with it. */
  method DecodeAlpha(d: seq<Byte>, out: array<nat>)
    requires |d| == 8 && out.Length == 16
    modifies out
    ensures out[..] == AlphaImage(d, old(out[..]))
  {
    if d[1] & 0xf0 != 0 {
      AlphaTexels(d, out);
    } else {
      for i := 0 to 16
        invariant forall p | 0 <= p < i :: out[p] == WithAlpha(old(out[..])[p], d[0] as nat)
        invariant forall p | i <= p < 16 :: out[p] == old(out[..])[p]
      {
        out[i] := WithAlpha(out[i], d[0] as nat);
      }
      forall p | 0 <= p < 16 ensures out[p] == AlphaImage(d, old(out[..]))[p] { ZeroMultiplier(d, p % 4, p / 4); }
    }
  }
}
