/**
 The compressed relative relocations (SHT_RELR) of source/so_util.c.  The module's memory is an array
 of bytes, addressed from the load base; a relocated word is eight bytes, lowest first.
 */
module Relr {
  import opened Digits

  const WORD: nat := 0x1_0000_0000_0000_0000

  // ---------------------------------------------------------------- what a stream lists

  // The addresses that the k low bits of a bitmap select, the first bit standing for w.
  function Listed(bitmap: nat, w: nat, k: nat): seq<nat>
    decreases k, w
  {
    if k == 0 then [] else (if bitmap % 2 == 1 then [w] else []) + Listed(bitmap / 2, w + 8, k - 1)
  }

  // Where the entry after a bitmap starts.
  function PastBitmap(w: nat): nat { w + 63 * 8 }

  // The addresses a stream selects, in the order in which it does.
  function Addresses(stream: seq<nat>, w: nat): seq<nat> {
    if stream == [] then []
    else if stream[0] % 2 == 0 then [stream[0]] + Addresses(stream[1..], stream[0] + 8)
    else Listed(stream[0] / 2, w, 63) + Addresses(stream[1..], PastBitmap(w))
  }

  // An address entry never goes back behind what was already covered.
  predicate WellFormed(stream: seq<nat>, w: nat) {
    stream == []
    || (if stream[0] % 2 == 0 then stream[0] >= w && WellFormed(stream[1..], stream[0] + 8)
        else WellFormed(stream[1..], PastBitmap(w)))
  }

  // Addresses from w on, each beyond the word at the one before.
  predicate Increasing(addrs: seq<nat>, w: nat) {
    addrs == [] || (addrs[0] >= w && Increasing(addrs[1..], addrs[0] + 8))
  }

  predicate Aligned(addrs: seq<nat>) { forall i | 0 <= i < |addrs| :: addrs[i] % 8 == 0 }

  lemma {:induction false} IncreasingFrom(addrs: seq<nat>, w: nat, v: nat)
    requires Increasing(addrs, w) && v <= w
    ensures Increasing(addrs, v)
  {
  }

  lemma OneBefore(a: nat, rest: seq<nat>, w: nat)
    requires a >= w && Increasing(rest, a + 8)
    ensures Increasing([a] + rest, w)
  {
    assert ([a] + rest)[1..] == rest;
  }

  lemma EightIsEven(a: nat)
    requires a % 8 == 0
    ensures a % 2 == 0 && (a + 8) % 8 == 0 && (a + 63 * 8) % 8 == 0
  {
    var q := a / 8;
    assert a == 2 * (4 * q) && a + 8 == 8 * (q + 1) && a + 63 * 8 == 8 * (q + 63);
  }

  // A stream that starts with an address entry.
  lemma AddressEntry(a: nat, rest: seq<nat>, w: nat)
    requires a % 8 == 0
    ensures Addresses([a] + rest, w) == [a] + Addresses(rest, a + 8)
    ensures a >= w && WellFormed(rest, a + 8) ==> WellFormed([a] + rest, w)
  {
    EightIsEven(a);
    assert ([a] + rest)[1..] == rest;
  }

  lemma BitmapEntry(bitmap: nat, rest: seq<nat>, w: nat)
    ensures Addresses([1 + 2 * bitmap] + rest, w) == Listed(bitmap, w, 63) + Addresses(rest, PastBitmap(w))
    ensures WellFormed(rest, PastBitmap(w)) ==> WellFormed([1 + 2 * bitmap] + rest, w)
  {
    assert ([1 + 2 * bitmap] + rest)[1..] == rest;
  }

  lemma {:induction false} ListedThen(bitmap: nat, w: nat, k: nat, rest: seq<nat>)
    requires Increasing(rest, w + 8 * k)
    ensures Increasing(Listed(bitmap, w, k) + rest, w)
    decreases k
  {
    if k == 0 {
      assert Listed(bitmap, w, k) + rest == rest;
    } else {
      var tail := Listed(bitmap / 2, w + 8, k - 1);
      ListedThen(bitmap / 2, w + 8, k - 1, rest);
      if bitmap % 2 == 1 {
        assert ([w] + tail + rest)[1..] == tail + rest;
      } else {
        assert [] + tail == tail;
        IncreasingFrom(tail + rest, w + 8, w);
      }
    }
  }

  /** A well-formed stream lists increasing addresses whose words do not overlap. */
  lemma {:induction false} AddressesIncrease(stream: seq<nat>, w: nat)
    requires WellFormed(stream, w)
    ensures Increasing(Addresses(stream, w), w)
  {
    if stream != [] {
      var e, rest := stream[0], stream[1..];
      if e % 2 == 0 {
        AddressesIncrease(rest, e + 8);
        OneBefore(e, Addresses(rest, e + 8), w);
      } else {
        AddressesIncrease(rest, PastBitmap(w));
        ListedThen(e / 2, w, 63, Addresses(rest, PastBitmap(w)));
      }
    }
  }

  // Bit b of v.
  predicate BitOf(v: nat, b: nat) { Digit(v, 2, b) == 1 }

  lemma {:induction false} HigherBit(v: nat, b: nat, next: nat)
    requires next == b + 1
    ensures BitOf(v, next) <==> BitOf(v / 2, b)
  {
    DropFirst(v, 2, b);
  }

  lemma {:induction false} ListedMeans(bitmap: nat, w: nat, k: nat, x: nat)
    ensures x in Listed(bitmap, w, k) <==> exists b: nat :: b < k && BitOf(bitmap, b) && x == w + 8 * b
    decreases k
  {
    if k > 0 {
      ListedMeans(bitmap / 2, w + 8, k - 1, x);
      assert BitOf(bitmap, 0) <==> bitmap % 2 == 1;
      if x in Listed(bitmap / 2, w + 8, k - 1) {
        var b: nat :| b < k - 1 && BitOf(bitmap / 2, b) && x == w + 8 + 8 * b;
        HigherBit(bitmap, b, b + 1);
        assert b + 1 < k && BitOf(bitmap, b + 1) && x == w + 8 * (b + 1);
      }
      if b: nat :| b < k && BitOf(bitmap, b) && x == w + 8 * b {
        if b > 0 {
          HigherBit(bitmap, b - 1, b);
          assert b - 1 < k - 1 && BitOf(bitmap / 2, b - 1) && x == w + 8 + 8 * (b - 1);
        }
      }
    }
  }

  /**
   What one entry means.  An even entry is an address, and the words after it come next; bit b of an odd
   entry, from 1 to 63, selects word b - 1 of the 63 words that come next, and the word after them is next.
   */
  lemma {:induction false} EntryMeans(e: nat, rest: seq<nat>, w: nat) returns (part: seq<nat>)
    ensures e % 2 == 0 ==> part == [e] && Addresses([e] + rest, w) == part + Addresses(rest, e + 8)
    ensures e % 2 == 1 ==> Addresses([e] + rest, w) == part + Addresses(rest, w + 504)
    ensures e % 2 == 1 ==>
      forall x: nat :: x in part <==> exists b: nat :: 1 <= b <= 63 && BitOf(e, b) && x == w + 8 * (b - 1)
  {
    assert ([e] + rest)[1..] == rest;
    if e % 2 == 0 {
      part := [e];
    } else {
      part := Listed(e / 2, w, 63);
      forall x: nat ensures
        x in part <==> exists b: nat :: 1 <= b <= 63 && BitOf(e, b) && x == w + 8 * (b - 1)
      {
        ListedMeans(e / 2, w, 63, x);
        if x in part {
          var b: nat :| b < 63 && BitOf(e / 2, b) && x == w + 8 * b;
          HigherBit(e, b, b + 1);
          assert 1 <= b + 1 <= 63 && BitOf(e, b + 1) && x == w + 8 * (b + 1 - 1);
        }
        if b: nat :| 1 <= b <= 63 && BitOf(e, b) && x == w + 8 * (b - 1) {
          HigherBit(e, b - 1, b);
          assert b - 1 < 63 && BitOf(e / 2, b - 1) && x == w + 8 * (b - 1);
        }
      }
    }
  }

  // ---------------------------------------------------------------- packing

  // The k-bit map of the addresses from w on.
  function Bitmap(addrs: seq<nat>, w: nat, k: nat): nat
    decreases k, w
  {
    if k == 0 then 0
    else if addrs != [] && addrs[0] == w then 1 + 2 * Bitmap(addrs[1..], w + 8, k - 1)
    else 2 * Bitmap(addrs, w + 8, k - 1)
  }

  // How many of the addresses that map covers.
  function Covered(addrs: seq<nat>, w: nat, k: nat): (n: nat)
    ensures n <= |addrs|
    decreases k, w
  {
    if k == 0 then 0
    else if addrs != [] && addrs[0] == w then 1 + Covered(addrs[1..], w + 8, k - 1)
    else Covered(addrs, w + 8, k - 1)
  }

  // The usual packing: an address, then bitmaps for as long as they select anything.
  function Packing(addrs: seq<nat>): seq<nat>
    decreases |addrs|, 1
  {
    if addrs == [] then [] else [addrs[0]] + Bitmaps(addrs[1..], addrs[0] + 8)
  }

  function Bitmaps(addrs: seq<nat>, w: nat): seq<nat>
    decreases |addrs|, 2
  {
    var n := Covered(addrs, w, 63);
    if n == 0 then Packing(addrs) else [1 + 2 * Bitmap(addrs, w, 63)] + Bitmaps(addrs[n..], PastBitmap(w))
  }

  lemma ListedStep(bit: nat, bitmap: nat, w: nat, k: nat)
    requires bit <= 1 && k > 0
    ensures Listed(bit + 2 * bitmap, w, k) == (if bit == 1 then [w] else []) + Listed(bitmap, w + 8, k - 1)
  {
    assert (bit + 2 * bitmap) / 2 == bitmap && (bit + 2 * bitmap) % 2 == bit;
  }

  lemma Multiples(a: nat, w: nat)
    requires a % 8 == 0 && w % 8 == 0 && a > w
    ensures a >= w + 8
  {
  }

  lemma NextSlot(addrs: seq<nat>, w: nat)
    requires Increasing(addrs, w) && Aligned(addrs) && w % 8 == 0 && (addrs == [] || addrs[0] != w)
    ensures Increasing(addrs, w + 8)
  {
    if addrs != [] {
      assert addrs[0] > w;
      Multiples(addrs[0], w);
    }
  }

  // The claim about bitmaps, one window at a time.
  predicate Maps(addrs: seq<nat>, w: nat, k: nat, end: nat) {
    var n := Covered(addrs, w, k);
    Listed(Bitmap(addrs, w, k), w, k) == addrs[..n] && Increasing(addrs[n..], end) && Aligned(addrs[n..])
  }

  lemma MapsTaken(addrs: seq<nat>, w: nat, k: nat, end: nat)
    requires k > 0 && addrs != [] && addrs[0] == w && Maps(addrs[1..], w + 8, k - 1, end)
    ensures Maps(addrs, w, k, end)
  {
    var n := Covered(addrs[1..], w + 8, k - 1);
    ListedStep(1, Bitmap(addrs[1..], w + 8, k - 1), w, k);
    assert [w] + addrs[1..][..n] == addrs[..1 + n] && addrs[1..][n..] == addrs[1 + n..];
  }

  lemma MapsSkipped(addrs: seq<nat>, w: nat, k: nat, end: nat)
    requires k > 0 && (addrs == [] || addrs[0] != w) && Maps(addrs, w + 8, k - 1, end)
    ensures Maps(addrs, w, k, end)
  {
    ListedStep(0, Bitmap(addrs, w + 8, k - 1), w, k);
  }

  lemma {:induction false} ListedBitmap(addrs: seq<nat>, w: nat, k: nat, end: nat)
    requires Increasing(addrs, w) && Aligned(addrs) && w % 8 == 0 && end == w + 8 * k
    ensures Maps(addrs, w, k, end)
    decreases k
  {
    if k == 0 {
      assert addrs[..0] == [] && addrs[0..] == addrs;
    } else {
      EightIsEven(w);
      if addrs != [] && addrs[0] == w {
        assert Increasing(addrs[1..], w + 8);
        ListedBitmap(addrs[1..], w + 8, k - 1, end);
        MapsTaken(addrs, w, k, end);
      } else {
        NextSlot(addrs, w);
        ListedBitmap(addrs, w + 8, k - 1, end);
        MapsSkipped(addrs, w, k, end);
      }
    }
  }

  lemma FirstBitmap(addrs: seq<nat>, w: nat, n: nat, bitmap: nat, next: nat)
    requires n == Covered(addrs, w, 63) && n > 0 && bitmap == Bitmap(addrs, w, 63) && next == PastBitmap(w)
    ensures Bitmaps(addrs, w) == [1 + 2 * bitmap] + Bitmaps(addrs[n..], next)
  {
  }

  // One bitmap in front of a stream that lists the rest.
  lemma BitmapInFront(stream: seq<nat>, addrs: seq<nat>, w: nat, n: nat, bitmap: nat, next: nat, rest: seq<nat>)
    requires n <= |addrs| && stream == [1 + 2 * bitmap] + rest && Listed(bitmap, w, 63) == addrs[..n]
    requires next == PastBitmap(w) && Addresses(rest, next) == addrs[n..] && WellFormed(rest, next)
    ensures Addresses(stream, w) == addrs && WellFormed(stream, w)
  {
    BitmapEntry(bitmap, rest, w);
    assert addrs[..n] + addrs[n..] == addrs;
  }

  // An address in front of a stream that lists the rest.
  lemma PackedFirst(addrs: seq<nat>, w: nat, next: nat, rest: seq<nat>)
    requires addrs != [] && addrs[0] >= w && addrs[0] % 8 == 0 && next == addrs[0] + 8
    requires rest == Bitmaps(addrs[1..], next) && Addresses(rest, next) == addrs[1..] && WellFormed(rest, next)
    ensures Addresses(Packing(addrs), w) == addrs && WellFormed(Packing(addrs), w)
  {
    assert Packing(addrs) == [addrs[0]] + rest;
    AddressEntry(addrs[0], rest, w);
    assert [addrs[0]] + addrs[1..] == addrs;
  }

  /** Packing a strictly increasing list of aligned addresses and decoding the stream gives back the list. */
  lemma {:induction false} PackingRoundTrip(addrs: seq<nat>, w: nat)
    requires Increasing(addrs, w) && Aligned(addrs)
    ensures Addresses(Packing(addrs), w) == addrs && WellFormed(Packing(addrs), w)
    decreases |addrs|, 1
  {
    if addrs != [] {
      var next := addrs[0] + 8;
      EightIsEven(addrs[0]);
      BitmapsRoundTrip(addrs[1..], next);
      PackedFirst(addrs, w, next, Bitmaps(addrs[1..], next));
    }
  }

  lemma {:induction false} BitmapsRoundTrip(addrs: seq<nat>, w: nat)
    requires Increasing(addrs, w) && Aligned(addrs) && w % 8 == 0
    ensures Addresses(Bitmaps(addrs, w), w) == addrs && WellFormed(Bitmaps(addrs, w), w)
    decreases |addrs|, 2
  {
    var n := Covered(addrs, w, 63);
    if n == 0 {
      PackingRoundTrip(addrs, w);
    } else {
      EightIsEven(w);
      var next := PastBitmap(w);
      ListedBitmap(addrs, w, 63, next);
      BitmapsRoundTrip(addrs[n..], next);
      var bitmap := Bitmap(addrs, w, 63);
      FirstBitmap(addrs, w, n, bitmap, next);
      BitmapInFront(Bitmaps(addrs, w), addrs, w, n, bitmap, next, Bitmaps(addrs[n..], next));
    }
  }

  // ---------------------------------------------------------------- patching memory

  type Byte = b: nat | b < 256

  // A 64-bit load and the bytes of a 64-bit store.
  function WordAt(mem: seq<Byte>, a: nat): nat
    requires a + 8 <= |mem|
  {
    Packed(mem[a..a + 8], 256)
  }

  lemma BytesAreBytes(v: nat)
    ensures forall i | 0 <= i < 8 :: Bytes(v, 8)[i] < 256
  {
    forall i | 0 <= i < 8 ensures Bytes(v, 8)[i] < 256 { ByteAt(v, 8, i); }
  }

  function BytesOf(v: nat): (r: seq<Byte>)
    ensures |r| == 8
  {
    BytesAreBytes(v);
    Bytes(v, 8)
  }

  function Stored(mem: seq<Byte>, a: nat, v: nat): (r: seq<Byte>)
    requires a + 8 <= |mem|
    ensures |r| == |mem|
  {
    mem[..a] + BytesOf(v) + mem[a + 8..]
  }

  lemma WordRange()
    ensures Power(256, 8) == WORD
  {
    assert Power(256, 2) == 0x1_0000;
    assert Power(256, 4) == 256 * (256 * Power(256, 2));
    assert Power(256, 6) == 256 * (256 * Power(256, 4));
    assert Power(256, 8) == 256 * (256 * Power(256, 6));
  }

  lemma StoredWord(mem: seq<Byte>, a: nat, v: nat)
    requires a + 8 <= |mem| && v < WORD
    ensures WordAt(Stored(mem, a, v), a) == v
  {
    WordRange();
    assert Stored(mem, a, v)[a..a + 8] == Bytes(v, 8);
    PackedBytes(v, 8);
  }

  predicate Apart(a: nat, b: nat) { a + 8 <= b || b + 8 <= a }

  lemma StoredElsewhere(mem: seq<Byte>, a: nat, v: nat, b: nat)
    requires a + 8 <= |mem| && b + 8 <= |mem| && Apart(a, b)
    ensures WordAt(Stored(mem, a, v), b) == WordAt(mem, b)
  {
    assert Stored(mem, a, v)[b..b + 8] == mem[b..b + 8];
  }

  function Plus(word: nat, base: nat): (r: nat)
    ensures r < WORD
  {
    (word + base) % WORD
  }

  // The base added to the word at a.
  function Relocated(mem: seq<Byte>, a: nat, base: nat): (r: seq<Byte>)
    requires a + 8 <= |mem|
    ensures |r| == |mem|
  {
    Stored(mem, a, Plus(WordAt(mem, a), base))
  }

  // Words that lie inside a memory of n bytes.
  predicate Inside(addrs: seq<nat>, n: nat) {
    addrs == [] || (addrs[0] + 8 <= n && Inside(addrs[1..], n))
  }

  // Memory after the base was added at each address in turn.
  function Patched(mem: seq<Byte>, addrs: seq<nat>, base: nat): (r: seq<Byte>)
    requires Inside(addrs, |mem|)
    ensures |r| == |mem|
    decreases |addrs|
  {
    if addrs == [] then mem else Patched(Relocated(mem, addrs[0], base), addrs[1..], base)
  }

  lemma {:induction false} BeyondAll(addrs: seq<nat>, w: nat, b: nat)
    requires Increasing(addrs, w) && b + 8 <= w
    ensures forall i | 0 <= i < |addrs| :: Apart(b, addrs[i])
  {
    if addrs != [] { BeyondAll(addrs[1..], addrs[0] + 8, b); }
  }

  // A word that overlaps none of the addressed words keeps its value.
  lemma {:induction false} PatchedElsewhere(mem: seq<Byte>, addrs: seq<nat>, base: nat, b: nat)
    requires Inside(addrs, |mem|) && b + 8 <= |mem| && forall i | 0 <= i < |addrs| :: Apart(b, addrs[i])
    ensures WordAt(Patched(mem, addrs, base), b) == WordAt(mem, b)
    decreases |addrs|
  {
    if addrs != [] {
      var rest := addrs[1..];
      assert forall i | 0 <= i < |rest| :: rest[i] == addrs[i + 1];
      StoredElsewhere(mem, addrs[0], Plus(WordAt(mem, addrs[0]), base), b);
      PatchedElsewhere(Relocated(mem, addrs[0], base), rest, base, b);
    }
  }

  // So does a byte that lies in none of them.
  lemma {:induction false} PatchedByte(mem: seq<Byte>, addrs: seq<nat>, base: nat, k: nat)
    requires Inside(addrs, |mem|) && k < |mem|
    requires forall i | 0 <= i < |addrs| :: !(addrs[i] <= k < addrs[i] + 8)
    ensures Patched(mem, addrs, base)[k] == mem[k]
    decreases |addrs|
  {
    if addrs != [] {
      var rest := addrs[1..];
      assert forall i | 0 <= i < |rest| :: rest[i] == addrs[i + 1];
      assert !(addrs[0] <= k < addrs[0] + 8);
      PatchedByte(Relocated(mem, addrs[0], base), rest, base, k);
    }
  }

  /** Where the addresses increase, the base is added exactly once to the word at each of them. */
  lemma {:induction false} PatchedOnce(mem: seq<Byte>, addrs: seq<nat>, base: nat, w: nat, i: nat)
    requires Inside(addrs, |mem|) && Increasing(addrs, w) && i < |addrs|
    ensures addrs[i] >= w && addrs[i] + 8 <= |mem|
    ensures WordAt(Patched(mem, addrs, base), addrs[i]) == Plus(WordAt(mem, addrs[i]), base)
    decreases |addrs|
  {
    var a, rest := addrs[0], addrs[1..];
    var v := Plus(WordAt(mem, a), base);
    var next := Relocated(mem, a, base);
    if i == 0 {
      BeyondAll(rest, a + 8, a);
      PatchedElsewhere(next, rest, base, a);
      StoredWord(mem, a, v);
    } else {
      PatchedOnce(next, rest, base, a + 8, i - 1);
      StoredElsewhere(mem, a, v, addrs[i]);
    }
  }

  lemma PatchedFirst(mem: seq<Byte>, a: nat, rest: seq<nat>, base: nat)
    requires Inside([a] + rest, |mem|)
    ensures a + 8 <= |mem| && Inside(rest, |mem|)
    ensures Patched(mem, [a] + rest, base) == Patched(Relocated(mem, a, base), rest, base)
  {
    var all := [a] + rest;
    assert all[0] == a && all[1..] == rest;
  }

  // The addresses still to come inside an odd entry, before bit number `bit`.
  function Ahead(e: nat, bit: nat, w: nat, later: seq<nat>): seq<nat>
    requires 1 <= bit <= 64
  {
    Listed(Drop(e, 2, bit), w + 8 * (bit - 1), 64 - bit) + later
  }

  lemma AheadStep(e: nat, bit: nat, w: nat, later: seq<nat>)
    requires 1 <= bit < 64
    ensures Ahead(e, bit, w, later)
      == (if Digit(e, 2, bit) == 1 then [w + 8 * (bit - 1)] else []) + Ahead(e, bit + 1, w, later)
  {
    var here := if Digit(e, 2, bit) == 1 then [w + 8 * (bit - 1)] else [];
    var tail := Listed(Drop(e, 2, bit + 1), w + 8 * bit, 63 - bit);
    assert (here + tail) + later == here + (tail + later);
  }

  lemma NextAddress(stream: seq<nat>, i: nat, w: nat, e: nat, next: nat, todo: seq<nat>) returns (later: seq<nat>)
    requires i < |stream| && stream[i] == e && e % 2 == 0 && next == e + 8 && todo == Addresses(stream[i..], w)
    ensures todo == [e] + later && later == Addresses(stream[i + 1..], next)
  {
    assert stream[i..][0] == stream[i] && stream[i..][1..] == stream[i + 1..];
    later := Addresses(stream[i + 1..], next);
  }

  lemma NextBitmap(stream: seq<nat>, i: nat, w: nat, e: nat, next: nat, todo: seq<nat>) returns (later: seq<nat>)
    requires i < |stream| && stream[i] == e && e % 2 != 0 && next == PastBitmap(w) && todo == Addresses(stream[i..], w)
    ensures todo == Ahead(e, 1, w, later) && later == Addresses(stream[i + 1..], next)
  {
    assert stream[i..][0] == stream[i] && stream[i..][1..] == stream[i + 1..];
    assert Drop(stream[i], 2, 1) == stream[i] / 2;
    later := Addresses(stream[i + 1..], next);
  }

  lemma StoredIs(before: seq<Byte>, after: seq<Byte>, a: nat, v: nat)
    requires a + 8 <= |before| == |after|
    requires forall j | a <= j < a + 8 :: after[j] == BytesOf(v)[j - a]
    requires forall j | 0 <= j < |before| && !(a <= j < a + 8) :: after[j] == before[j]
    ensures after == Stored(before, a, v)
  {
  }

  // A 64-bit store.
  method StoreWord(mem: array<Byte>, a: nat, v: nat)
    requires a + 8 <= mem.Length
    modifies mem
    ensures mem[..] == Stored(old(mem[..]), a, v)
  {
    var bytes := BytesOf(v);
    forall j | a <= j < a + 8 { mem[j] := bytes[j - a]; }
    StoredIs(old(mem[..]), mem[..], a, v);
  }

  // One load, addition and store.
  method Relocate(mem: array<Byte>, base: nat, a: nat, ghost todo: seq<nat>, ghost rest: seq<nat>)
    requires Inside(todo, mem.Length) && todo == [a] + rest
    modifies mem
    ensures Inside(rest, mem.Length) && Patched(mem[..], rest, base) == Patched(old(mem[..]), todo, base)
  {
    PatchedFirst(mem[..], a, rest, base);
    StoreWord(mem, a, Plus(WordAt(mem[..], a), base));
  }

  // One turn of the inner loop.
  method RelocateBit(mem: array<Byte>, base: nat, e: nat, bit: nat, w: nat, ghost later: seq<nat>)
    requires 1 <= bit < 64 && Inside(Ahead(e, bit, w, later), mem.Length)
    modifies mem
    ensures Inside(Ahead(e, bit + 1, w, later), mem.Length)
    ensures Patched(mem[..], Ahead(e, bit + 1, w, later), base)
      == Patched(old(mem[..]), Ahead(e, bit, w, later), base)
  {
    ghost var todo, rest := Ahead(e, bit, w, later), Ahead(e, bit + 1, w, later);
    AheadStep(e, bit, w, later);
    if Digit(e, 2, bit) == 1 {
      var a := w + 8 * (bit - 1);
      Relocate(mem, base, a, todo, rest);
    } else {
      assert todo == rest;
    }
  }

  // The bits of one odd entry.
  method RelocateBits(mem: array<Byte>, base: nat, e: nat, w: nat, ghost todo: seq<nat>, ghost later: seq<nat>)
    requires Inside(todo, mem.Length) && todo == Ahead(e, 1, w, later)
    modifies mem
    ensures Inside(later, mem.Length) && Patched(mem[..], later, base) == Patched(old(mem[..]), todo, base)
  {
    for bit := 1 to 64
      invariant Inside(Ahead(e, bit, w, later), mem.Length)
      invariant Patched(mem[..], Ahead(e, bit, w, later), base) == Patched(old(mem[..]), todo, base)
    {
      RelocateBit(mem, base, e, bit, w, later);
    }
    assert [] + later == later;
  }

  /** process_relr adds the base, word by word, at exactly the addresses the stream lists. */
  method ProcessRelr(mem: array<Byte>, base: nat, stream: seq<nat>)
    requires Inside(Addresses(stream, 0), mem.Length)
    modifies mem
    ensures mem[..] == Patched(old(mem[..]), Addresses(stream, 0), base)
  {
    var w: nat := 0;
    ghost var todo, goal := Addresses(stream, 0), Patched(mem[..], Addresses(stream, 0), base);
    assert stream[0..] == stream;
    for i := 0 to |stream|
      invariant todo == Addresses(stream[i..], w) && Inside(todo, mem.Length)
      invariant Patched(mem[..], todo, base) == goal
    {
      var e := stream[i];
      if e % 2 == 0 {
        var next := e + 8;
        ghost var later := NextAddress(stream, i, w, e, next, todo);
        Relocate(mem, base, e, todo, later);
        todo, w := later, next;
      } else {
        var next := w + 63 * 8;
        ghost var later := NextBitmap(stream, i, w, e, next, todo);
        RelocateBits(mem, base, e, w, todo, later);
        todo, w := later, next;
      }
    }
    assert todo == [];
  }

  /** A well-formed stream adds the base to every listed word exactly once and changes no other byte. */
  lemma WellFormedOnce(mem: seq<Byte>, stream: seq<nat>, base: nat)
    requires WellFormed(stream, 0) && Inside(Addresses(stream, 0), |mem|)
    ensures
      var addrs, after := Addresses(stream, 0), Patched(mem, Addresses(stream, 0), base);
      && (forall i | 0 <= i < |addrs| ::
            addrs[i] + 8 <= |mem| && WordAt(after, addrs[i]) == Plus(WordAt(mem, addrs[i]), base))
      && (forall k: nat | k < |mem| && (forall i | 0 <= i < |addrs| :: !(addrs[i] <= k < addrs[i] + 8)) ::
            after[k] == mem[k])
  {
    var addrs := Addresses(stream, 0);
    var after := Patched(mem, addrs, base);
    AddressesIncrease(stream, 0);
    forall i | 0 <= i < |addrs|
      ensures addrs[i] + 8 <= |mem| && WordAt(after, addrs[i]) == Plus(WordAt(mem, addrs[i]), base)
    {
      PatchedOnce(mem, addrs, base, 0, i);
    }
    forall k: nat | k < |mem| && (forall i | 0 <= i < |addrs| :: !(addrs[i] <= k < addrs[i] + 8))
      ensures after[k] == mem[k]
    {
      PatchedByte(mem, addrs, base, k);
    }
  }
}
