/**
 mbsnrtowcs and wcsnrtombs of source/imports.c: conversions of counted strings that stop at a NUL,
 at a bad character, when the input is used up, or when the destination is full.
 */
module Utf8Strings {
  import opened Common
  import opened Utf8

  datatype Stop = End | Nul | Invalid | Full

  // Space in the destination; a NULL destination is unlimited.
  datatype Room = Unlimited | Left(n: nat)

  function Shrunk(room: Room, n: nat): Room
    requires room.Left? ==> n <= room.n
  {
    if room.Unlimited? then Unlimited else Left(room.n - n)
  }

  predicate Fits(room: Room, n: nat) { room.Unlimited? || n <= room.n }

  // ---------------------------------------------------------------- bytes to codes

  datatype Scan = Scan(codes: seq<Code>, used: nat, stop: Stop)

  // The characters read from bytes into the room, the bytes they took, and the reason to stop.
  function Reading(bytes: seq<Byte>, room: Room): (r: Scan)
    ensures r.used <= |bytes|
    decreases |bytes|
  {
    if bytes == [] then Scan([], 0, End)
    else
      var d := Decode(bytes);
      if !d.Char? then Scan([], 0, Invalid)
      else if d.code == 0 then Scan([], 0, Nul)
      else if !Fits(room, 1) then Scan([], 0, Full)
      else
        var rest := Reading(bytes[d.used..], Shrunk(room, 1));
        Scan([d.code] + rest.codes, d.used + rest.used, rest.stop)
  }

  lemma ReadOne(bytes: seq<Byte>, room: Room, d: Decoded, rest: Scan)
    requires d == Decode(bytes) && d.Char? && d.code != 0 && Fits(room, 1)
    requires rest == Reading(bytes[d.used..], Shrunk(room, 1))
    ensures Reading(bytes, room) == Scan([d.code] + rest.codes, d.used + rest.used, rest.stop)
  {
  }

  function EncodeAll(codes: seq<Code>): seq<Byte> {
    if codes == [] then [] else Encode(codes[0]) + EncodeAll(codes[1..])
  }

  ghost predicate Text(codes: seq<Code>) { forall k | 0 <= k < |codes| :: Scalar(codes[k]) && codes[k] != 0 }

  lemma TextOneMore(c: Code, rest: seq<Code>)
    requires Scalar(c) && c != 0 && Text(rest)
    ensures Text([c] + rest)
  {
  }

  lemma EncodeOneMore(c: Code, rest: seq<Code>)
    ensures EncodeAll([c] + rest) == Encode(c) + EncodeAll(rest)
  {
    assert ([c] + rest)[1..] == rest;
  }

  lemma Joined(s: seq<Byte>, i: nat, j: nat)
    requires i + j <= |s|
    ensures s[..i] + s[i..][..j] == s[..i + j]
  {
  }

  lemma ReadEncoded(c: Code, rest: seq<Byte>)
    requires Scalar(c) && c != 0
    ensures var r := Reading(rest, Unlimited);
      Reading(Encode(c) + rest, Unlimited) == Scan([c] + r.codes, |Encode(c)| + r.used, r.stop)
  {
    var e := Encode(c);
    EncodedDecodes(c, rest);
    assert (e + rest)[|e|..] == rest;
    ReadOne(e + rest, Unlimited, Char(c, |e|), Reading(rest, Unlimited));
  }

  lemma EncodedOneMore(c: Code, rest: seq<Code>)
    requires Scalar(c) && c != 0
    requires Reading(EncodeAll(rest), Unlimited) == Scan(rest, |EncodeAll(rest)|, End)
    ensures var all := [c] + rest;
      Reading(EncodeAll(all), Unlimited) == Scan(all, |EncodeAll(all)|, End)
  {
    EncodeOneMore(c, rest);
    ReadEncoded(c, EncodeAll(rest));
  }

  /** Encoding any list of non-NUL scalar values and decoding the bytes gives back the list. */
  lemma {:induction false} EncodeThenDecode(codes: seq<Code>)
    requires Text(codes)
    ensures Reading(EncodeAll(codes), Unlimited) == Scan(codes, |EncodeAll(codes)|, End)
  {
    if codes != [] {
      assert [codes[0]] + codes[1..] == codes;
      EncodeThenDecode(codes[1..]);
      EncodedOneMore(codes[0], codes[1..]);
    }
  }

  /** The characters read are text, and re-encoding them gives exactly the bytes that were used. */
  lemma {:induction false} DecodeThenEncode(bytes: seq<Byte>, room: Room)
    ensures var r := Reading(bytes, room); Text(r.codes) && EncodeAll(r.codes) == bytes[..r.used]
    decreases |bytes|
  {
    var d := Decode(bytes);
    if bytes != [] && d.Char? && d.code != 0 && Fits(room, 1) {
      var rest := Reading(bytes[d.used..], Shrunk(room, 1));
      DecodedReencodes(bytes);
      ReadOne(bytes, room, d, rest);
      DecodeThenEncode(bytes[d.used..], Shrunk(room, 1));
      TextOneMore(d.code, rest.codes);
      EncodeOneMore(d.code, rest.codes);
      Joined(bytes, d.used, rest.used);
    }
  }

  // NUL-free UTF8-octets of RFC 3629, section 4.
  ghost predicate Octets(bytes: seq<Byte>)
    decreases |bytes|
  {
    bytes == [] || exists n :: 1 <= n <= |bytes| && Grammar(bytes[..n]) && bytes[0] != 0 && Octets(bytes[n..])
  }

  lemma NulIsByteZero(bytes: seq<Byte>)
    requires bytes != [] && Decode(bytes).Char?
    ensures Decode(bytes).code == 0 <==> bytes[0] == 0
  {
  }

  /** The decoder gets to the end of a string exactly if the string is in the grammar and free of NUL. */
  lemma {:induction false} AcceptsGrammar(bytes: seq<Byte>)
    ensures Reading(bytes, Unlimited).stop == End <==> Octets(bytes)
    decreases |bytes|
  {
    if bytes != [] {
      var d := Decode(bytes);
      if d.Char? {
        DecodesGrammar(bytes, d.used);
        NulIsByteZero(bytes);
        AcceptsGrammar(bytes[d.used..]);
      }
      forall n | 1 <= n <= |bytes| && Grammar(bytes[..n]) ensures d.Char? && d.used == n {
        DecodesGrammar(bytes, n);
      }
    }
  }

  // `some` is what is left of `all` when there is room for `room` characters.
  predicate Limits(all: Scan, some: Scan, room: nat) {
    && some.codes == all.codes[..Min(room, |all.codes|)]
    && (|all.codes| <= room && all.stop != Invalid ==> some == all)
  }

  // ---------------------------------------------------------------- codes to bytes

  datatype Print = Print(bytes: seq<Byte>, used: nat, stop: Stop)

  function Writing(codes: seq<Code>, room: Room): (r: Print)
    ensures r.used <= |codes|
  {
    if codes == [] then Print([], 0, End)
    else if codes[0] == 0 then Print([], 0, Nul)
    else
      var e := Encode(codes[0]);
      if e == [] then Print([], 0, Invalid)
      else if !Fits(room, |e|) then Print([], 0, Full)
      else
        var rest := Writing(codes[1..], Shrunk(room, |e|));
        Print(e + rest.bytes, 1 + rest.used, rest.stop)
  }

  lemma TakeOneMore(codes: seq<Code>, n: nat)
    requires n < |codes|
    ensures codes[..n + 1] == [codes[0]] + codes[1..][..n]
  {
  }

  /** The output is always the encoding of whole characters, and fits the room. */
  lemma {:induction false} NeverSplits(codes: seq<Code>, room: Room)
    ensures var r := Writing(codes, room);
      r.bytes == EncodeAll(codes[..r.used]) && Fits(room, |r.bytes|) && Text(codes[..r.used])
  {
    if codes != [] {
      var c, e := codes[0], Encode(codes[0]);
      ScalarsOnly(c);
      if c != 0 && e != [] && Fits(room, |e|) {
        NeverSplits(codes[1..], Shrunk(room, |e|));
        var rest := Writing(codes[1..], Shrunk(room, |e|));
        TakeOneMore(codes, rest.used);
        TextOneMore(c, codes[1..][..rest.used]);
        EncodeOneMore(c, codes[1..][..rest.used]);
      }
    }
  }

  // The reason to stop before code c, with `room` space left.
  function Reason(c: Code, room: Room): Option<Stop> {
    if c == 0 then Some(Nul)
    else if Encode(c) == [] then Some(Invalid)
    else if !Fits(room, |Encode(c)|) then Some(Full)
    else None
  }

  /** It stops at the first NUL, the first code with no encoding, or the first character with no room. */
  lemma {:induction false} StopsForAReason(codes: seq<Code>, room: Room)
    ensures var r := Writing(codes, room);
      && Fits(room, |r.bytes|)
      && if r.used == |codes| then r.stop == End else Reason(codes[r.used], Shrunk(room, |r.bytes|)) == Some(r.stop)
  {
    if codes != [] {
      if Reason(codes[0], room).None? {
        var e := Encode(codes[0]);
        StopsForAReason(codes[1..], Shrunk(room, |e|));
        var rest := Writing(codes[1..], Shrunk(room, |e|));
        assert Shrunk(room, |e + rest.bytes|) == Shrunk(Shrunk(room, |e|), |rest.bytes|);
        if rest.used < |codes[1..]| { assert codes[1 + rest.used] == codes[1..][rest.used]; }
      }
    }
  }

  lemma WriteOne(codes: seq<Code>, room: Room, e: seq<Byte>, rest: Print)
    requires codes != [] && e == Encode(codes[0]) && Reason(codes[0], room).None?
    requires rest == Writing(codes[1..], Shrunk(room, |e|))
    ensures Writing(codes, room) == Print(e + rest.bytes, 1 + rest.used, rest.stop)
  {
  }

  // `some` is what is left of `all` when there is room for `room` bytes.
  predicate Cuts(all: Print, some: Print, room: nat) {
    if |all.bytes| <= room && all.stop != Invalid then some == all else some.bytes <= all.bytes
  }

  lemma CutOneMore(e: seq<Byte>, all: Print, some: Print, room: nat)
    requires |e| <= room && Cuts(all, some, room - |e|)
    ensures Cuts(
      Print(e + all.bytes, 1 + all.used, all.stop), Print(e + some.bytes, 1 + some.used, some.stop), room)
  {
  }

  /** A count taken with a NULL destination is the number of bytes a long enough destination gets. */
  lemma {:induction false} CountIsLengthWritten(codes: seq<Code>, room: nat)
    ensures Cuts(Writing(codes, Unlimited), Writing(codes, Left(room)), room)
  {
    if codes != [] && Reason(codes[0], Left(room)).None? {
      var e, rest := Encode(codes[0]), codes[1..];
      CountIsLengthWritten(rest, room - |e|);
      WriteOne(codes, Unlimited, e, Writing(rest, Unlimited));
      WriteOne(codes, Left(room), e, Writing(rest, Left(room - |e|)));
      CutOneMore(e, Writing(rest, Unlimited), Writing(rest, Left(room - |e|)), room);
    }
  }

  // ---------------------------------------------------------------- the C functions

  // Where *src points afterwards.
  datatype Next = Unchanged | Cleared | Advanced(n: nat)

  predicate Started<T>(dst: array?<T>, len: nat) { dst != null ==> len <= dst.Length }

  function RoomOf<T>(dst: array?<T>, len: nat): Room { if dst == null then Unlimited else Left(len) }

  // A buffer after `done` has been stored at its start.
  function Stored<T>(before: seq<T>, done: seq<T>): seq<T>
    requires |done| <= |before|
  {
    done + before[|done|..]
  }

  lemma StoredOneMore<T>(before: seq<T>, done: seq<T>, x: T)
    requires |done| < |before|
    ensures Stored(before, done)[|done| := x] == Stored(before, done + [x])
  {
  }

  // After p bytes the characters got have been read.
  ghost predicate ReadTo(bytes: seq<Byte>, room: Room, p: nat, got: seq<Code>) {
    && p <= |bytes| && Fits(room, |got|)
    && var rest := Reading(bytes[p..], Shrunk(room, |got|));
       Reading(bytes, room) == Scan(got + rest.codes, p + rest.used, rest.stop)
  }

  lemma ReadJoined(got: seq<Code>, p: nat, d: Decoded, rest: Scan, next: nat, more: seq<Code>)
    requires d.Char? && next == p + d.used && more == got + [d.code]
    ensures Scan(got + ([d.code] + rest.codes), p + (d.used + rest.used), rest.stop)
      == Scan(more + rest.codes, next + rest.used, rest.stop)
  {
    assert got + ([d.code] + rest.codes) == more + rest.codes;
  }

  lemma SliceOfSlice<T>(s: seq<T>, p: nat, n: nat, next: nat)
    requires p + n <= |s| && next == p + n
    ensures s[p..][n..] == s[next..]
  {
  }

  lemma ReadMore(bytes: seq<Byte>, room: Room, p: nat, got: seq<Code>, d: Decoded, next: nat, more: seq<Code>)
    requires ReadTo(bytes, room, p, got) && d == Decode(bytes[p..]) && d.Char? && d.code != 0 && Fits(room, |got| + 1)
    requires next == p + d.used && more == got + [d.code]
    ensures next <= |bytes| && ReadTo(bytes, room, next, more)
  {
    SliceOfSlice(bytes, p, d.used, next);
    var here := Shrunk(room, |got|);
    assert Shrunk(room, |more|) == Shrunk(here, 1);
    var rest := Reading(bytes[next..], Shrunk(here, 1));
    ReadOne(bytes[p..], here, d, rest);
    ReadJoined(got, p, d, rest, next, more);
  }

  lemma ReadStop(bytes: seq<Byte>, room: Room, p: nat, got: seq<Code>)
    requires ReadTo(bytes, room, p, got)
    ensures var d, whole := Decode(bytes[p..]), Reading(bytes, room);
      && (p == |bytes| ==> whole == Scan(got, p, End))
      && (p < |bytes| && !d.Char? ==> whole == Scan(got, p, Invalid))
      && (d.Char? && d.code == 0 ==> whole == Scan(got, p, Nul))
      && (d.Char? && d.code != 0 && !Fits(room, |got| + 1) ==> whole == Scan(got, p, Full))
  {
  }

  // What mbsnrtowcs leaves behind: the result, *src, and the characters in the destination.
  function MbsResult(s: Scan): int { if s.stop == Invalid then -1 else |s.codes| }
  function MbsNext(s: Scan, counting: bool): Next {
    if s.stop == Invalid || counting then Unchanged else if s.stop == Nul then Cleared else Advanced(s.used)
  }
  function MbsStores(s: Scan, len: nat): seq<Code> { s.codes + if s.stop == Nul && |s.codes| < len then [0] else [] }

  lemma ReadStart(bytes: seq<Byte>, room: Room)
    ensures ReadTo(bytes, room, 0, [])
  {
    assert bytes[0..] == bytes;
  }

  // The loop of mbsnrtowcs: characters stored, bytes used, and the exit it takes.
  method ReadCodes(dst: array?<Code>, bytes: seq<Byte>, len: nat) returns (out: nat, p: nat, stop: Stop)
    requires Started(dst, len)
    modifies dst
    ensures var s := Reading(bytes, RoomOf(dst, len));
      && out == |s.codes| && p == s.used && stop == s.stop
      && (dst != null ==> out <= len && dst[..] == Stored(old(dst[..]), s.codes))
  {
    var room := RoomOf(dst, len);
    out, p := 0, 0;
    ghost var got: seq<Code> := [];
    ReadStart(bytes, room);
    while p < |bytes|
      invariant p <= |bytes| && out == |got| && ReadTo(bytes, room, p, got)
      invariant dst != null ==> dst[..] == Stored(old(dst[..]), got)
      decreases |bytes| - p
    {
      var d := Decode(bytes[p..]);
      ReadStop(bytes, room, p, got);
      if !d.Char? { return out, p, Invalid; }
      if d.code == 0 { return out, p, Nul; }
      if dst != null && out >= len { return out, p, Full; }
      var next := p + d.used;
      ghost var more := got + [d.code];
      ReadMore(bytes, room, p, got, d, next, more);
      if dst != null {
        StoredOneMore(old(dst[..]), got, d.code);
        dst[out] := d.code;
      }
      got, out, p := more, out + 1, next;
    }
    ReadStop(bytes, room, p, got);
    stop := End;
  }

  /** mbsnrtowcs over the nms bytes of src; -1 for a bad character or no source. */
  method Mbsnrtowcs(dst: array?<Code>, src: Option<seq<Byte>>, len: nat) returns (r: int, next: Next)
    requires Started(dst, len)
    modifies dst
    ensures src.None? ==> r == -1 && next == Unchanged && (dst != null ==> dst[..] == old(dst[..]))
    ensures src.Some? ==> var s := Reading(src.value, RoomOf(dst, len));
      && r == MbsResult(s) && next == MbsNext(s, dst == null)
      && (dst != null ==> |MbsStores(s, len)| <= dst.Length && dst[..] == Stored(old(dst[..]), MbsStores(s, len)))
  {
    if src.None? { return -1, Unchanged; }
    var out, p, stop := ReadCodes(dst, src.value, len);
    match stop {
      case Invalid => return -1, Unchanged;
      case Nul =>
        if dst != null && out < len {
          StoredOneMore(old(dst[..]), Reading(src.value, Left(len)).codes, 0);
          dst[out] := 0;
        }
        return out, if dst != null then Cleared else Unchanged;
      case _ => return out, if dst != null then Advanced(p) else Unchanged;
    }
  }

  // ---------------------------------------------------------------- and back

  // After i codes the bytes got have been written.
  ghost predicate WrittenTo(codes: seq<Code>, room: Room, i: nat, got: seq<Byte>) {
    && i <= |codes| && Fits(room, |got|)
    && var rest := Writing(codes[i..], Shrunk(room, |got|));
       Writing(codes, room) == Print(got + rest.bytes, i + rest.used, rest.stop)
  }

  lemma WrittenStart(codes: seq<Code>, room: Room)
    ensures WrittenTo(codes, room, 0, [])
  {
    assert codes[0..] == codes;
  }

  lemma WrittenJoined(got: seq<Byte>, i: nat, e: seq<Byte>, rest: Print, next: nat, more: seq<Byte>)
    requires next == i + 1 && more == got + e
    ensures Print(got + (e + rest.bytes), i + (1 + rest.used), rest.stop)
      == Print(more + rest.bytes, next + rest.used, rest.stop)
  {
    assert got + (e + rest.bytes) == more + rest.bytes;
  }

  lemma WrittenMore(codes: seq<Code>, room: Room, i: nat, got: seq<Byte>, next: nat, more: seq<Byte>)
    requires WrittenTo(codes, room, i, got) && i < |codes| && Reason(codes[i], Shrunk(room, |got|)).None?
    requires next == i + 1 && more == got + Encode(codes[i])
    ensures WrittenTo(codes, room, next, more)
  {
    var e := Encode(codes[i]);
    var here := Shrunk(room, |got|);
    SliceOfSlice(codes, i, 1, next);
    assert codes[i..][0] == codes[i];
    assert Shrunk(room, |more|) == Shrunk(here, |e|);
    var rest := Writing(codes[next..], Shrunk(here, |e|));
    WriteOne(codes[i..], here, e, rest);
    WrittenJoined(got, i, e, rest, next, more);
  }

  lemma WrittenStop(codes: seq<Code>, room: Room, i: nat, got: seq<Byte>)
    requires WrittenTo(codes, room, i, got)
    ensures i == |codes| ==> Writing(codes, room) == Print(got, i, End)
    ensures i < |codes| && Reason(codes[i], Shrunk(room, |got|)).Some? ==>
      Writing(codes, room) == Print(got, i, Reason(codes[i], Shrunk(room, |got|)).value)
  {
    if i < |codes| { assert codes[i..][0] == codes[i]; }
  }

  lemma StoredMore<T>(before: seq<T>, done: seq<T>, more: seq<T>, after: seq<T>)
    requires |done| + |more| <= |before| == |after|
    requires after[..|done|] == done && after[|done|..|done| + |more|] == more
    requires after[|done| + |more|..] == before[|done| + |more|..]
    ensures after == Stored(before, done + more)
  {
    assert after == after[..|done|] + after[|done|..|done| + |more|] + after[|done| + |more|..];
  }

  // memcpy of one encoded character.
  method Put(dst: array<Byte>, at: nat, e: seq<Byte>)
    requires at + |e| <= dst.Length
    modifies dst
    ensures dst[..at] == old(dst[..at]) && dst[at..at + |e|] == e && dst[at + |e|..] == old(dst[at + |e|..])
  {
    forall k | 0 <= k < |e| { dst[at + k] := e[k]; }
  }

  // Stores one more character behind what has been stored.
  method PutMore(dst: array<Byte>, ghost before: seq<Byte>, ghost got: seq<Byte>, out: nat, e: seq<Byte>)
    requires |before| == dst.Length && out == |got| && out + |e| <= dst.Length && dst[..] == Stored(before, got)
    modifies dst
    ensures dst[..] == Stored(before, got + e)
  {
    ghost var was := dst[..];
    Put(dst, out, e);
    assert dst[..out] == was[..out] == got;
    assert dst[out + |e|..] == was[out + |e|..] == before[out + |e|..];
    StoredMore(before, got, e, dst[..]);
  }

  // The loop of wcsnrtombs: bytes stored, codes used, and the exit it takes.
  method WriteCodes(dst: array?<Byte>, codes: seq<Code>, len: nat) returns (out: nat, i: nat, stop: Stop)
    requires Started(dst, len)
    modifies dst
    ensures var s := Writing(codes, RoomOf(dst, len));
      && out == |s.bytes| && i == s.used && stop == s.stop
      && (dst != null ==> out <= len && dst[..] == Stored(old(dst[..]), s.bytes))
  {
    var room := RoomOf(dst, len);
    out, i := 0, 0;
    ghost var got: seq<Byte> := [];
    WrittenStart(codes, room);
    while i < |codes|
      invariant i <= |codes| && out == |got| && WrittenTo(codes, room, i, got)
      invariant dst != null ==> dst[..] == Stored(old(dst[..]), got)
      decreases |codes| - i
    {
      WrittenStop(codes, room, i, got);
      if codes[i] == 0 { return out, i, Nul; }
      var e := Encode(codes[i]);
      if e == [] { return out, i, Invalid; }
      if dst != null && out + |e| > len { return out, i, Full; }
      var next := i + 1;
      ghost var more := got + e;
      WrittenMore(codes, room, i, got, next, more);
      if dst != null {
        PutMore(dst, old(dst[..]), got, out, e);
      }
      got, out, i := more, out + |e|, next;
    }
    WrittenStop(codes, room, i, got);
    stop := End;
  }

  function WcsResult(s: Print): int { if s.stop == Invalid then -1 else |s.bytes| }
  function WcsNext(s: Print, counting: bool): Next {
    if s.stop == Invalid || counting then Unchanged else if s.stop == Nul then Cleared else Advanced(s.used)
  }
  function WcsStores(s: Print, len: nat): seq<Byte> { s.bytes + if s.stop == Nul && |s.bytes| < len then [0] else [] }

  /** wcsnrtombs over the nwc codes of src; -1 for a code with no encoding or no source. */
  method Wcsnrtombs(dst: array?<Byte>, src: Option<seq<Code>>, len: nat) returns (r: int, next: Next)
    requires Started(dst, len)
    modifies dst
    ensures src.None? ==> r == -1 && next == Unchanged && (dst != null ==> dst[..] == old(dst[..]))
    ensures src.Some? ==> var s := Writing(src.value, RoomOf(dst, len));
      && r == WcsResult(s) && next == WcsNext(s, dst == null)
      && (dst != null ==> |WcsStores(s, len)| <= dst.Length && dst[..] == Stored(old(dst[..]), WcsStores(s, len)))
  {
    if src.None? { return -1, Unchanged; }
    var out, i, stop := WriteCodes(dst, src.value, len);
    match stop {
      case Invalid => return -1, Unchanged;
      case Nul =>
        if dst != null && out < len {
          StoredOneMore(old(dst[..]), Writing(src.value, Left(len)).bytes, 0);
          dst[out] := 0;
        }
        return out, if dst != null then Cleared else Unchanged;
      case _ => return out, if dst != null then Advanced(i) else Unchanged;
    }
  }

  // ---------------------------------------------------------------- whole strings

  ghost predicate StartsCharacter(bytes: seq<Byte>) { exists n | 1 <= n <= |bytes| :: Grammar(bytes[..n]) }

  // Why a reading of bytes into the room may stop where it did.
  ghost predicate ReadStopped(bytes: seq<Byte>, room: Room, r: Scan)
    requires r.used <= |bytes|
  {
    var rest := bytes[r.used..];
    && Fits(room, |r.codes|)
    && match r.stop
       case End => rest == []
       case Nul => rest != [] && rest[0] == 0
       case Invalid => rest != [] && !StartsCharacter(rest)
       case Full => room == Left(|r.codes|) && StartsCharacter(rest) && rest[0] != 0
  }

  lemma {:induction false} DecodesStart(bytes: seq<Byte>)
    requires bytes != []
    ensures Decode(bytes).Char? <==> StartsCharacter(bytes)
  {
    var d := Decode(bytes);
    if d.Char? { DecodesGrammar(bytes, d.used); }
    forall n | 1 <= n <= |bytes| && Grammar(bytes[..n]) ensures d.Char? { DecodesGrammar(bytes, n); }
  }

  lemma StopsAtOnce(bytes: seq<Byte>, room: Room, d: Decoded)
    requires bytes != [] && d == Decode(bytes) && !(d.Char? && d.code != 0 && Fits(room, 1))
    ensures ReadStopped(bytes, room, Reading(bytes, room))
  {
    DecodesStart(bytes);
    if d.Char? { NulIsByteZero(bytes); }
  }

  lemma StopsLater(bytes: seq<Byte>, room: Room, code: Code, used: nat, rest: Scan)
    requires used <= |bytes| && Fits(room, 1) && rest.used <= |bytes| - used
    requires ReadStopped(bytes[used..], Shrunk(room, 1), rest)
    ensures ReadStopped(bytes, room, Scan([code] + rest.codes, used + rest.used, rest.stop))
  {
    SliceOfSlice(bytes, used, rest.used, used + rest.used);
  }

  /** Reading stops at the end, the first NUL, the first bytes that start no character, or when the room is used up. */
  lemma {:induction false} ReadingStopsForAReason(bytes: seq<Byte>, room: Room)
    ensures ReadStopped(bytes, room, Reading(bytes, room))
    decreases |bytes|
  {
    if bytes != [] {
      var d := Decode(bytes);
      if d.Char? && d.code != 0 && Fits(room, 1) {
        var rest := Reading(bytes[d.used..], Shrunk(room, 1));
        ReadOne(bytes, room, d, rest);
        ReadingStopsForAReason(bytes[d.used..], Shrunk(room, 1));
        StopsLater(bytes, room, d.code, d.used, rest);
      } else {
        StopsAtOnce(bytes, room, d);
      }
    }
  }

  // What a reading that ran out of room leaves of one that did not.
  predicate Leaves(first: Scan, whole: Scan, room: nat) {
    if first.stop == Full then |first.codes| == room < |whole.codes| else first == whole
  }

  // At a place that both readings have reached and the one with less room does not leave.
  lemma BothStop(bytes: seq<Byte>, room: nat, p: nat, got: seq<Code>, d: Decoded)
    requires ReadTo(bytes, Left(room), p, got) && ReadTo(bytes, Unlimited, p, got) && d == Decode(bytes[p..])
    requires !(p < |bytes| && d.Char? && d.code != 0 && |got| < room)
    ensures var first := Reading(bytes, Left(room));
      ReadTo(bytes, Unlimited, first.used, first.codes) && Leaves(first, Reading(bytes, Unlimited), room)
  {
    ReadStop(bytes, Left(room), p, got);
    ReadStop(bytes, Unlimited, p, got);
  }

  // From a place that both readings have reached, up to where the one with less room stops.
  lemma {:induction false} ReadAlongside(bytes: seq<Byte>, room: nat, p: nat, got: seq<Code>)
    requires ReadTo(bytes, Left(room), p, got) && ReadTo(bytes, Unlimited, p, got)
    ensures var first := Reading(bytes, Left(room));
      ReadTo(bytes, Unlimited, first.used, first.codes) && Leaves(first, Reading(bytes, Unlimited), room)
    decreases |bytes| - p
  {
    var d := Decode(bytes[p..]);
    if p < |bytes| && d.Char? && d.code != 0 && |got| < room {
      var next, more := p + d.used, got + [d.code];
      ReadMore(bytes, Left(room), p, got, d, next, more);
      ReadMore(bytes, Unlimited, p, got, d, next, more);
      ReadAlongside(bytes, room, next, more);
    } else {
      BothStop(bytes, room, p, got, d);
    }
  }

  /**
   A count taken with a NULL destination is the number of characters a long enough destination
   gets; a shorter one gets as many of them as it has room for.
   */
  lemma {:induction false} CountIsLengthRead(bytes: seq<Byte>, room: nat)
    ensures Limits(Reading(bytes, Unlimited), Reading(bytes, Left(room)), room)
  {
    ReadStart(bytes, Left(room));
    ReadStart(bytes, Unlimited);
    ReadAlongside(bytes, room, 0, []);
    ReadingStopsForAReason(bytes, Left(room));
  }

  lemma {:induction false} ReadsTerminated(codes: seq<Code>)
    requires Text(codes)
    ensures Reading(EncodeAll(codes) + [0], Unlimited) == Scan(codes, |EncodeAll(codes)|, Nul)
  {
    if codes == [] {
      assert EncodeAll(codes) + [0] == [0];
    } else {
      assert [codes[0]] + codes[1..] == codes;
      ReadsTerminated(codes[1..]);
      ReadEncoded(codes[0], EncodeAll(codes[1..]) + [0]);
      assert EncodeAll(codes) + [0] == Encode(codes[0]) + (EncodeAll(codes[1..]) + [0]);
    }
  }

  lemma {:induction false} WritesTerminated(codes: seq<Code>)
    requires Text(codes)
    ensures Writing(codes + [0], Unlimited) == Print(EncodeAll(codes), |codes|, Nul)
  {
    if codes == [] {
      assert codes + [0] == [0];
    } else {
      var whole := codes + [0];
      assert whole[0] == codes[0] && whole[1..] == codes[1..] + [0];
      ScalarsOnly(codes[0]);
      WritesTerminated(codes[1..]);
      WriteOne(whole, Unlimited, Encode(codes[0]), Writing(whole[1..], Unlimited));
    }
  }

  // What a call returns, leaves in *src, and stores from the start of its destination.
  datatype Call<T> = Call(result: int, next: Next, stores: seq<T>)

  function Wcs(codes: seq<Code>, len: nat): Call<Byte> {
    var s := Writing(codes, Left(len));
    Call(WcsResult(s), WcsNext(s, false), WcsStores(s, len))
  }

  function Mbs(bytes: seq<Byte>, len: nat): Call<Code> {
    var s := Reading(bytes, Left(len));
    Call(MbsResult(s), MbsNext(s, false), MbsStores(s, len))
  }

  /**
   A terminated wide string of non-NUL scalar values, converted into a large enough buffer and back into
   another, is stored there again with its NUL; each call returns the length without the NUL and clears the
   source pointer, and called without a destination it returns the same length and leaves the pointer alone.
   */
  lemma {:induction false} ThereAndBack(codes: seq<Code>, len: nat, wide: nat)
    requires Text(codes) && len > |EncodeAll(codes)| && wide > |codes|
    ensures
      var bytes, counting := EncodeAll(codes), Writing(codes + [0], Unlimited);
      && Wcs(codes + [0], len) == Call(|bytes|, Cleared, bytes + [0])
      && WcsResult(counting) == |bytes| && WcsNext(counting, true) == Unchanged
    ensures
      var bytes := EncodeAll(codes) + [0];
      var counting := Reading(bytes, Unlimited);
      && Mbs(bytes, wide) == Call(|codes|, Cleared, codes + [0])
      && MbsResult(counting) == |codes| && MbsNext(counting, true) == Unchanged
  {
    WritesTerminated(codes);
    CountIsLengthWritten(codes + [0], len);
    ReadsTerminated(codes);
    CountIsLengthRead(EncodeAll(codes) + [0], wide);
  }

  /**
   Nothing is lost when a destination fills up: what a second call reads from where the source pointer was
   left, put behind what the first one stored, is what one call with room for all of it reads.
   */
  lemma {:induction false} ReadingResumes(bytes: seq<Byte>, room: nat)
    ensures
      var first := Reading(bytes, Left(room));
      var second := Reading(bytes[first.used..], Unlimited);
      Reading(bytes, Unlimited) == Scan(first.codes + second.codes, first.used + second.used, second.stop)
  {
    ReadStart(bytes, Left(room));
    ReadStart(bytes, Unlimited);
    ReadAlongside(bytes, room, 0, []);
  }

  lemma {:induction false} WriteAlongside(codes: seq<Code>, room: nat, i: nat, got: seq<Byte>)
    requires WrittenTo(codes, Left(room), i, got) && WrittenTo(codes, Unlimited, i, got)
    ensures var first := Writing(codes, Left(room)); WrittenTo(codes, Unlimited, first.used, first.bytes)
    decreases |codes| - i
  {
    WrittenStop(codes, Left(room), i, got);
    if i < |codes| && Reason(codes[i], Left(room - |got|)).None? {
      var next, more := i + 1, got + Encode(codes[i]);
      WrittenMore(codes, Left(room), i, got, next, more);
      WrittenMore(codes, Unlimited, i, got, next, more);
      WriteAlongside(codes, room, next, more);
    }
  }

  /** The same in the other direction. */
  lemma {:induction false} WritingResumes(codes: seq<Code>, room: nat)
    ensures
      var first := Writing(codes, Left(room));
      var second := Writing(codes[first.used..], Unlimited);
      Writing(codes, Unlimited) == Print(first.bytes + second.bytes, first.used + second.used, second.stop)
  {
    WrittenStart(codes, Left(room));
    WrittenStart(codes, Unlimited);
    WriteAlongside(codes, room, 0, []);
  }
}
