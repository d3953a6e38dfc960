/**
 The UTF-8 decoder and encoder of source/imports.c, against the grammar of section 4 of RFC 3629.
 */
module Utf8 {

  type Byte = bv8
  type Code = bv32

  // ---------------------------------------------------------------- one character

  datatype Decoded = Empty | Bad | Char(code: Code, used: nat)

  predicate Tail(b: Byte) { b & 0xc0 == 0x80 }

  // The codes that two, three and four bytes carry.
  function Two(a: Byte, b: Byte): Code { (((a & 0x1f) as bv32) << 6) | ((b & 0x3f) as bv32) }
  function Three(a: Byte, b: Byte, c: Byte): Code {
    (((a & 0x0f) as bv32) << 12) | (((b & 0x3f) as bv32) << 6) | ((c & 0x3f) as bv32)
  }
  function Four(a: Byte, b: Byte, c: Byte, d: Byte): Code {
    (((a & 7) as bv32) << 18) | (((b & 0x3f) as bv32) << 12) | (((c & 0x3f) as bv32) << 6) | ((d & 0x3f) as bv32)
  }

  // nx_utf8_decode
  function Decode(p: seq<Byte>): (r: Decoded)
    ensures r.Char? ==> 1 <= r.used <= 4 && r.used <= |p|
  {
    if p == [] then Empty
    else
      var c, n := p[0], |p|;
      if c < 0x80 then Char(c as bv32, 1)
      else if c & 0xe0 == 0xc0 && n >= 2 && Tail(p[1]) then
        var v := Two(c, p[1]);
        if v < 0x80 then Bad else Char(v, 2)
      else if c & 0xf0 == 0xe0 && n >= 3 && Tail(p[1]) && Tail(p[2]) then
        var v := Three(c, p[1], p[2]);
        if v < 0x800 || (v >= 0xd800 && v <= 0xdfff) then Bad else Char(v, 3)
      else if c & 0xf8 == 0xf0 && n >= 4 && Tail(p[1]) && Tail(p[2]) && Tail(p[3]) then
        var v := Four(c, p[1], p[2], p[3]);
        if v < 0x10000 || v > 0x10ffff then Bad else Char(v, 4)
      else Bad
  }

  function TwoBytes(cp: Code): (r: seq<Byte>)
    requires cp < 0x800
    ensures |r| == 2
  {
    [0xc0 | ((cp >> 6) as bv8), 0x80 | ((cp & 0x3f) as bv8)]
  }

  function ThreeBytes(cp: Code): (r: seq<Byte>)
    requires cp < 0x10000
    ensures |r| == 3
  {
    [0xe0 | ((cp >> 12) as bv8), 0x80 | (((cp >> 6) & 0x3f) as bv8), 0x80 | ((cp & 0x3f) as bv8)]
  }

  function FourBytes(cp: Code): (r: seq<Byte>)
    requires cp <= 0x10ffff
    ensures |r| == 4
  {
    [0xf0 | ((cp >> 18) as bv8), 0x80 | (((cp >> 12) & 0x3f) as bv8),
     0x80 | (((cp >> 6) & 0x3f) as bv8), 0x80 | ((cp & 0x3f) as bv8)]
  }

  // nx_utf8_encode; [] stands for the length 0 of a code it refuses.
  function Encode(cp: Code): (r: seq<Byte>)
    ensures |r| <= 4
  {
    if cp < 0x80 then [cp as bv8]
    else if cp < 0x800 then TwoBytes(cp)
    else if cp >= 0xd800 && cp <= 0xdfff then []
    else if cp < 0x10000 then ThreeBytes(cp)
    else if cp <= 0x10ffff then FourBytes(cp)
    else []
  }

  // A Unicode scalar value.
  predicate Scalar(cp: Code) { cp <= 0xd7ff || 0xe000 <= cp <= 0x10ffff }

  predicate In(b: Byte, lo: Byte, hi: Byte) { lo <= b <= hi }

  // UTF8-char of RFC 3629, section 4.
  predicate Grammar(c: seq<Byte>) {
    match |c|
    case 1 => In(c[0], 0x00, 0x7f)
    case 2 => In(c[0], 0xc2, 0xdf) && In(c[1], 0x80, 0xbf)
    case 3 =>
      && In(c[2], 0x80, 0xbf)
      && (|| (c[0] == 0xe0 && In(c[1], 0xa0, 0xbf))
          || (In(c[0], 0xe1, 0xec) && In(c[1], 0x80, 0xbf))
          || (c[0] == 0xed && In(c[1], 0x80, 0x9f))
          || (In(c[0], 0xee, 0xef) && In(c[1], 0x80, 0xbf)))
    case 4 =>
      && In(c[2], 0x80, 0xbf) && In(c[3], 0x80, 0xbf)
      && (|| (c[0] == 0xf0 && In(c[1], 0x90, 0xbf))
          || (In(c[0], 0xf1, 0xf3) && In(c[1], 0x80, 0xbf))
          || (c[0] == 0xf4 && In(c[1], 0x80, 0x8f)))
    case _ => false
  }

  /** The decoder accepts a prefix exactly if the grammar does, and takes all of it. */
  lemma DecodesGrammar(p: seq<Byte>, n: nat)
    requires n <= |p|
    ensures Grammar(p[..n]) <==> Decode(p).Char? && Decode(p).used == n
  {
  }

  lemma SplitTwo(a: Byte, b: Byte)
    requires a & 0xe0 == 0xc0 && Tail(b) && Two(a, b) >= 0x80
    ensures Encode(Two(a, b)) == [a, b] && Scalar(Two(a, b))
  {
  }

  // The codes of three and four bytes taken apart again.
  lemma PartsThree(a: Byte, b: Byte, c: Byte)
    requires a & 0xf0 == 0xe0 && Tail(b) && Tail(c)
    ensures Three(a, b, c) < 0x10000 && ThreeBytes(Three(a, b, c)) == [a, b, c]
  {
  }

  lemma PartsFour(a: Byte, b: Byte, c: Byte, d: Byte)
    requires a & 0xf8 == 0xf0 && Tail(b) && Tail(c) && Tail(d) && Four(a, b, c, d) <= 0x10ffff
    ensures FourBytes(Four(a, b, c, d)) == [a, b, c, d]
  {
  }

  lemma SplitThree(a: Byte, b: Byte, c: Byte)
    requires a & 0xf0 == 0xe0 && Tail(b) && Tail(c)
    requires Three(a, b, c) >= 0x800 && !(0xd800 <= Three(a, b, c) <= 0xdfff)
    ensures Encode(Three(a, b, c)) == [a, b, c] && Scalar(Three(a, b, c))
  {
    PartsThree(a, b, c);
  }

  lemma SplitFour(a: Byte, b: Byte, c: Byte, d: Byte)
    requires a & 0xf8 == 0xf0 && Tail(b) && Tail(c) && Tail(d) && 0x10000 <= Four(a, b, c, d) <= 0x10ffff
    ensures Encode(Four(a, b, c, d)) == [a, b, c, d] && Scalar(Four(a, b, c, d))
  {
    PartsFour(a, b, c, d);
  }

  lemma DecodedOne(p: seq<Byte>)
    requires Decode(p).Char? && Decode(p).used == 1
    ensures Scalar(Decode(p).code) && Encode(Decode(p).code) == p[..1]
  {
  }

  lemma DecodedTwo(p: seq<Byte>)
    requires Decode(p).Char? && Decode(p).used == 2
    ensures Scalar(Decode(p).code) && Encode(Decode(p).code) == p[..2]
  {
    SplitTwo(p[0], p[1]);
  }

  lemma DecodedThree(p: seq<Byte>)
    requires Decode(p).Char? && Decode(p).used == 3
    ensures Scalar(Decode(p).code) && Encode(Decode(p).code) == p[..3]
  {
    SplitThree(p[0], p[1], p[2]);
  }

  lemma DecodedFour(p: seq<Byte>)
    requires Decode(p).Char? && Decode(p).used == 4
    ensures Scalar(Decode(p).code) && Encode(Decode(p).code) == p[..4]
  {
    SplitFour(p[0], p[1], p[2], p[3]);
  }

  /** A decoded character is a scalar value that encodes to the bytes it came from. */
  lemma DecodedReencodes(p: seq<Byte>)
    requires Decode(p).Char?
    ensures Scalar(Decode(p).code) && Encode(Decode(p).code) == p[..Decode(p).used]
  {
    var n := Decode(p).used;
    if n == 1 {
      DecodedOne(p);
    } else if n == 2 {
      DecodedTwo(p);
    } else if n == 3 {
      DecodedThree(p);
    } else {
      DecodedFour(p);
    }
  }

  lemma JoinTwo(cp: Code)
    requires 0x80 <= cp < 0x800
    ensures var e := Encode(cp); |e| == 2 && e[0] & 0xe0 == 0xc0 && Tail(e[1]) && Two(e[0], e[1]) == cp && e[0] >= 0x80
  {
  }

  lemma RejoinThree(cp: Code)
    requires cp < 0x10000
    ensures var e := ThreeBytes(cp);
      e[0] & 0xf0 == 0xe0 && e[0] & 0xe0 != 0xc0 && e[0] >= 0x80 && Tail(e[1]) && Tail(e[2])
      && Three(e[0], e[1], e[2]) == cp
  {
  }

  lemma JoinThree(cp: Code)
    requires 0x800 <= cp < 0x10000 && Scalar(cp)
    ensures var e := Encode(cp);
      && |e| == 3 && e[0] & 0xf0 == 0xe0 && e[0] & 0xe0 != 0xc0 && e[0] >= 0x80
      && Tail(e[1]) && Tail(e[2]) && Three(e[0], e[1], e[2]) == cp
  {
    RejoinThree(cp);
  }

  lemma RejoinFour(cp: Code)
    requires cp <= 0x10ffff
    ensures var e := FourBytes(cp);
      e[0] & 0xf8 == 0xf0 && e[0] & 0xf0 != 0xe0 && e[0] & 0xe0 != 0xc0 && e[0] >= 0x80
      && Tail(e[1]) && Tail(e[2]) && Tail(e[3]) && Four(e[0], e[1], e[2], e[3]) == cp
  {
  }

  lemma JoinFour(cp: Code)
    requires 0x10000 <= cp <= 0x10ffff
    ensures var e := Encode(cp);
      && |e| == 4 && e[0] & 0xf8 == 0xf0 && e[0] & 0xf0 != 0xe0 && e[0] & 0xe0 != 0xc0 && e[0] >= 0x80
      && Tail(e[1]) && Tail(e[2]) && Tail(e[3]) && Four(e[0], e[1], e[2], e[3]) == cp
  {
    RejoinFour(cp);
  }

  lemma DecodesTwo(p: seq<Byte>, cp: Code)
    requires |p| >= 2 && p[0] & 0xe0 == 0xc0 && Tail(p[1]) && Two(p[0], p[1]) == cp && p[0] >= 0x80 && cp >= 0x80
    ensures Decode(p) == Char(cp, 2)
  {
  }

  lemma DecodesThree(p: seq<Byte>, cp: Code)
    requires |p| >= 3 && p[0] & 0xf0 == 0xe0 && p[0] & 0xe0 != 0xc0 && p[0] >= 0x80 && Tail(p[1]) && Tail(p[2])
    requires Three(p[0], p[1], p[2]) == cp && 0x800 <= cp && Scalar(cp)
    ensures Decode(p) == Char(cp, 3)
  {
  }

  lemma DecodesFour(p: seq<Byte>, cp: Code)
    requires |p| >= 4 && p[0] & 0xf8 == 0xf0 && p[0] & 0xf0 != 0xe0 && p[0] & 0xe0 != 0xc0 && p[0] >= 0x80
    requires Tail(p[1]) && Tail(p[2]) && Tail(p[3]) && Four(p[0], p[1], p[2], p[3]) == cp && 0x10000 <= cp <= 0x10ffff
    ensures Decode(p) == Char(cp, 4)
  {
  }

  lemma EncodedOne(cp: Code, rest: seq<Byte>)
    requires cp < 0x80
    ensures Encode(cp) != [] && Decode(Encode(cp) + rest) == Char(cp, |Encode(cp)|)
  {
  }

  lemma EncodedTwo(cp: Code, rest: seq<Byte>)
    requires 0x80 <= cp < 0x800
    ensures Encode(cp) != [] && Decode(Encode(cp) + rest) == Char(cp, |Encode(cp)|)
  {
    JoinTwo(cp);
    DecodesTwo(Encode(cp) + rest, cp);
  }

  lemma EncodedThree(cp: Code, rest: seq<Byte>)
    requires 0x800 <= cp < 0x10000 && Scalar(cp)
    ensures Encode(cp) != [] && Decode(Encode(cp) + rest) == Char(cp, |Encode(cp)|)
  {
    JoinThree(cp);
    DecodesThree(Encode(cp) + rest, cp);
  }

  lemma EncodedFour(cp: Code, rest: seq<Byte>)
    requires 0x10000 <= cp <= 0x10ffff
    ensures Encode(cp) != [] && Decode(Encode(cp) + rest) == Char(cp, |Encode(cp)|)
  {
    JoinFour(cp);
    var e := Encode(cp);
    var p := e + rest;
    assert p[0] == e[0] && p[1] == e[1] && p[2] == e[2] && p[3] == e[3];
    DecodesFour(p, cp);
  }

  /** A scalar value followed by anything decodes to that value. */
  lemma EncodedDecodes(cp: Code, rest: seq<Byte>)
    requires Scalar(cp)
    ensures Encode(cp) != [] && Decode(Encode(cp) + rest) == Char(cp, |Encode(cp)|)
  {
    if cp < 0x80 {
      EncodedOne(cp, rest);
    } else if cp < 0x800 {
      EncodedTwo(cp, rest);
    } else if cp < 0x10000 {
      EncodedThree(cp, rest);
    } else {
      EncodedFour(cp, rest);
    }
  }

  /** The encoder refuses exactly the codes that are not scalar values. */
  lemma ScalarsOnly(cp: Code)
    ensures Scalar(cp) <==> Encode(cp) != []
  {
  }

  // The order of byte strings: at the first byte that differs, or by length.
  predicate Before(a: seq<Byte>, b: seq<Byte>) {
    b != [] && (a == [] || a[0] < b[0] || (a[0] == b[0] && Before(a[1..], b[1..])))
  }

  lemma Strictly(x: Byte, y: Byte)
    requires x <= y && x != y
    ensures x < y
  {
  }

  lemma TwoAt0(c: Code, d: Code)
    requires c <= d && c < 0x800 && d < 0x800
    ensures TwoBytes(c)[0] <= TwoBytes(d)[0]
  {
  }

  lemma TwoAt1(c: Code, d: Code)
    requires c <= d && c < 0x800 && d < 0x800 && TwoBytes(c)[0] == TwoBytes(d)[0]
    ensures TwoBytes(c)[1] <= TwoBytes(d)[1]
  {
  }

  lemma ThreeAt0(c: Code, d: Code)
    requires c <= d && c < 0x10000 && d < 0x10000
    ensures ThreeBytes(c)[0] <= ThreeBytes(d)[0]
  {
  }

  lemma ThreeAt1(c: Code, d: Code)
    requires c <= d && c < 0x10000 && d < 0x10000 && ThreeBytes(c)[0] == ThreeBytes(d)[0]
    ensures ThreeBytes(c)[1] <= ThreeBytes(d)[1]
  {
  }

  lemma ThreeAt2(c: Code, d: Code)
    requires c <= d && c < 0x10000 && d < 0x10000
    requires ThreeBytes(c)[0] == ThreeBytes(d)[0] && ThreeBytes(c)[1] == ThreeBytes(d)[1]
    ensures ThreeBytes(c)[2] <= ThreeBytes(d)[2]
  {
  }

  lemma FourAt0(c: Code, d: Code)
    requires c <= d && c <= 0x10ffff && d <= 0x10ffff
    ensures FourBytes(c)[0] <= FourBytes(d)[0]
  {
  }

  lemma FourAt1(c: Code, d: Code)
    requires c <= d && c <= 0x10ffff && d <= 0x10ffff && FourBytes(c)[0] == FourBytes(d)[0]
    ensures FourBytes(c)[1] <= FourBytes(d)[1]
  {
  }

  lemma FourAt2(c: Code, d: Code)
    requires c <= d && c <= 0x10ffff && d <= 0x10ffff
    requires FourBytes(c)[0] == FourBytes(d)[0] && FourBytes(c)[1] == FourBytes(d)[1]
    ensures FourBytes(c)[2] <= FourBytes(d)[2]
  {
  }

  lemma FourAt3(c: Code, d: Code)
    requires c <= d && c <= 0x10ffff && d <= 0x10ffff && FourBytes(c)[0] == FourBytes(d)[0]
    requires FourBytes(c)[1] == FourBytes(d)[1] && FourBytes(c)[2] == FourBytes(d)[2]
    ensures FourBytes(c)[3] <= FourBytes(d)[3]
  {
  }

  lemma {:induction false} DiffersAt(a: seq<Byte>, b: seq<Byte>, k: nat)
    requires k < |a| && k < |b| && a[k] <= b[k] && a[k] != b[k] && forall i | 0 <= i < k :: a[i] == b[i]
    ensures Before(a, b)
  {
    if k > 0 { DiffersAt(a[1..], b[1..], k - 1); } else { Strictly(a[0], b[0]); }
  }

  lemma BeforeTwo(c: Code, d: Code)
    requires c <= d && c < 0x800 && d < 0x800 && TwoBytes(c) != TwoBytes(d)
    ensures Before(TwoBytes(c), TwoBytes(d))
  {
    TwoAt0(c, d);
    if TwoBytes(c)[0] != TwoBytes(d)[0] {
      DiffersAt(TwoBytes(c), TwoBytes(d), 0);
    } else {
      TwoAt1(c, d);
      DiffersAt(TwoBytes(c), TwoBytes(d), 1);
    }
  }

  lemma SameFirstOfThree(c: Code, d: Code)
    requires c <= d && c < 0x10000 && d < 0x10000 && ThreeBytes(c) != ThreeBytes(d)
    requires ThreeBytes(c)[0] == ThreeBytes(d)[0]
    ensures Before(ThreeBytes(c), ThreeBytes(d))
  {
    ThreeAt1(c, d);
    if ThreeBytes(c)[1] != ThreeBytes(d)[1] {
      DiffersAt(ThreeBytes(c), ThreeBytes(d), 1);
    } else {
      ThreeAt2(c, d);
      DiffersAt(ThreeBytes(c), ThreeBytes(d), 2);
    }
  }

  lemma BeforeThree(c: Code, d: Code)
    requires c <= d && c < 0x10000 && d < 0x10000 && ThreeBytes(c) != ThreeBytes(d)
    ensures Before(ThreeBytes(c), ThreeBytes(d))
  {
    ThreeAt0(c, d);
    if ThreeBytes(c)[0] != ThreeBytes(d)[0] {
      DiffersAt(ThreeBytes(c), ThreeBytes(d), 0);
    } else {
      SameFirstOfThree(c, d);
    }
  }

  lemma SameSecondOfFour(c: Code, d: Code)
    requires c <= d && c <= 0x10ffff && d <= 0x10ffff && FourBytes(c) != FourBytes(d)
    requires FourBytes(c)[0] == FourBytes(d)[0] && FourBytes(c)[1] == FourBytes(d)[1]
    ensures Before(FourBytes(c), FourBytes(d))
  {
    FourAt2(c, d);
    if FourBytes(c)[2] != FourBytes(d)[2] {
      DiffersAt(FourBytes(c), FourBytes(d), 2);
    } else {
      FourAt3(c, d);
      DiffersAt(FourBytes(c), FourBytes(d), 3);
    }
  }

  lemma SameFirstOfFour(c: Code, d: Code)
    requires c <= d && c <= 0x10ffff && d <= 0x10ffff && FourBytes(c) != FourBytes(d)
    requires FourBytes(c)[0] == FourBytes(d)[0]
    ensures Before(FourBytes(c), FourBytes(d))
  {
    FourAt1(c, d);
    if FourBytes(c)[1] != FourBytes(d)[1] {
      DiffersAt(FourBytes(c), FourBytes(d), 1);
    } else {
      SameSecondOfFour(c, d);
    }
  }

  lemma BeforeFour(c: Code, d: Code)
    requires c <= d && c <= 0x10ffff && d <= 0x10ffff && FourBytes(c) != FourBytes(d)
    ensures Before(FourBytes(c), FourBytes(d))
  {
    FourAt0(c, d);
    if FourBytes(c)[0] != FourBytes(d)[0] {
      DiffersAt(FourBytes(c), FourBytes(d), 0);
    } else {
      SameFirstOfFour(c, d);
    }
  }

  lemma FirstByte(c: Code)
    requires Scalar(c)
    ensures var e := Encode(c);
      if c < 0x80 then |e| == 1 && e[0] < 0x80
      else if c < 0x800 then |e| == 2 && 0xc0 <= e[0] < 0xe0
      else if c < 0x10000 then |e| == 3 && 0xe0 <= e[0] < 0xf0
      else |e| == 4 && 0xf0 <= e[0]
  {
  }

  lemma OneCode(c: Code, p: seq<Byte>)
    requires Scalar(c) && p == Encode(c)
    ensures Decode(p).Char? && Decode(p).code == c
  {
    EncodedDecodes(c, []);
    assert Encode(c) + [] == p;
  }

  lemma EncodesOnce(c: Code, d: Code)
    requires Scalar(c) && Scalar(d) && Encode(c) == Encode(d)
    ensures c == d
  {
    var p := Encode(c);
    OneCode(c, p);
    OneCode(d, p);
  }

  lemma Ordered(c: Code, d: Code)
    requires c < d
    ensures c <= d && c != d
  {
  }

  /** The order of codes is the order of their encodings (RFC 3629, section 1): no two codes trade their bytes. */
  lemma OrderIsKept(c: Code, d: Code)
    requires Scalar(c) && Scalar(d) && c < d
    ensures Before(Encode(c), Encode(d))
  {
    FirstByte(c);
    FirstByte(d);
    Ordered(c, d);
    if Encode(c) == Encode(d) { EncodesOnce(c, d); }
    if 0x80 <= c && d < 0x800 {
      BeforeTwo(c, d);
    } else if 0x800 <= c && d < 0x10000 {
      BeforeThree(c, d);
    } else if 0x10000 <= c {
      BeforeFour(c, d);
    }
  }
}
