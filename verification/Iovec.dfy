/**
 The copy loop behind process_vm_readv and process_vm_writev in source/bionic.c: two lists of
 fragments of one memory are walked at once, with any lengths, zero included.
 */
module Iovec {
  import opened Common

  type Byte = b: int | 0 <= b < 256

  datatype Fragment = Fragment(base: nat, len: nat)

  // The bytes in the first j fragments, and their addresses in order.
  function Start(iov: seq<Fragment>, j: nat): nat
    requires j <= |iov|
  {
    if j == 0 then 0 else Start(iov, j - 1) + iov[j - 1].len
  }

  function Range(f: Fragment): (r: seq<nat>)
    ensures |r| == f.len
  {
    seq(f.len, i requires 0 <= i < f.len => f.base + i)
  }

  function Flat(iov: seq<Fragment>, j: nat): (r: seq<nat>)
    requires j <= |iov|
    ensures |r| == Start(iov, j)
  {
    if j == 0 then [] else Flat(iov, j - 1) + Range(iov[j - 1])
  }

  function Addresses(iov: seq<Fragment>): seq<nat> { Flat(iov, |iov|) }

  lemma {:induction false} StartMonotone(iov: seq<Fragment>, j: nat, m: nat)
    requires j <= m <= |iov|
    ensures Start(iov, j) <= Start(iov, m)
    decreases m
  {
    if j < m { StartMonotone(iov, j, m - 1); }
  }

  lemma {:induction false} FlatAt(iov: seq<Fragment>, m: nat, j: nat, o: nat)
    requires j < m <= |iov| && o < iov[j].len
    ensures Start(iov, j) + o < Start(iov, m) && Flat(iov, m)[Start(iov, j) + o] == iov[j].base + o
    decreases m
  {
    if j < m - 1 { FlatAt(iov, m - 1, j, o); }
  }

  // Some fragment ends after k bytes.
  ghost predicate Cut(iov: seq<Fragment>, k: nat) { exists j | 0 <= j <= |iov| :: Start(iov, j) == k }

  lemma NotAtStart(iov: seq<Fragment>, j: nat, next: nat, k: nat, i: nat)
    requires next == j + 1 && next <= |iov| && Start(iov, j) < k < Start(iov, next) && i <= |iov|
    ensures Start(iov, i) != k
  {
    if i <= j { StartMonotone(iov, i, j); } else { StartMonotone(iov, next, i); }
  }

  lemma NoCutInside(iov: seq<Fragment>, j: nat, k: nat)
    requires j < |iov| && Start(iov, j) < k < Start(iov, j) + iov[j].len
    ensures !Cut(iov, k)
  {
    var next := j + 1;
    assert Start(iov, next) == Start(iov, j) + iov[j].len;
    forall i: nat | i <= |iov| ensures Start(iov, i) != k { NotAtStart(iov, j, next, k, i); }
  }

  // Memory after the first k bytes were copied one by one.
  function Copied(mem: seq<Byte>, from: seq<nat>, to: seq<nat>, k: nat): (r: seq<Byte>)
    requires k <= |from| && k <= |to|
    requires forall i | 0 <= i < k :: from[i] < |mem| && to[i] < |mem|
    ensures |r| == |mem|
  {
    if k == 0 then mem
    else
      var before := Copied(mem, from, to, k - 1);
      before[to[k - 1] := before[from[k - 1]]]
  }

  ghost predicate Inside(iov: seq<Fragment>, n: nat) { forall j | 0 <= j < |iov| :: iov[j].base + iov[j].len <= n }

  lemma {:induction false} AddressesInside(iov: seq<Fragment>, m: nat, n: nat)
    requires m <= |iov| && Inside(iov, n)
    ensures forall i | 0 <= i < Start(iov, m) :: Flat(iov, m)[i] < n
  {
    if m > 0 { AddressesInside(iov, m - 1, n); }
  }

  lemma CopiedLast(mem: seq<Byte>, from: seq<nat>, to: seq<nat>, k: nat, a: nat)
    requires 0 < k <= |from| && k <= |to| && a < |mem|
    requires forall i | 0 <= i < k :: from[i] < |mem| && to[i] < |mem|
    ensures Copied(mem, from, to, k)[a]
      == Copied(mem, from, to, k - 1)[if a == to[k - 1] then from[k - 1] else a]
  {
  }

  /**
   Where the destination bytes are distinct and apart from the source, the destination prefix
   becomes the source prefix and no other byte changes.
   */
  lemma {:induction false} CopiedMeans(mem: seq<Byte>, from: seq<nat>, to: seq<nat>, k: nat, a: nat)
    requires k <= |from| && k <= |to| && a < |mem|
    requires forall i | 0 <= i < k :: from[i] < |mem| && to[i] < |mem|
    requires forall i, j | 0 <= i < k && 0 <= j < k :: from[i] != to[j]
    requires forall i, j | 0 <= i < j < k :: to[i] != to[j]
    ensures (forall i | 0 <= i < k :: to[i] != a) ==> Copied(mem, from, to, k)[a] == mem[a]
    ensures forall i | 0 <= i < k && to[i] == a :: Copied(mem, from, to, k)[a] == mem[from[i]]
  {
    if k > 0 {
      CopiedLast(mem, from, to, k, a);
      if a == to[k - 1] {
        CopiedMeans(mem, from, to, k - 1, from[k - 1]);
      } else {
        CopiedMeans(mem, from, to, k - 1, a);
      }
    }
  }

  // All the bytes from a on are readable.
  predicate Readable(readable: seq<bool>, a: nat, n: nat)
    requires a + n <= |readable|
  {
    forall i | a <= i < a + n :: readable[i]
  }

  // The outcome of the loop: how many bytes it copied, and whether it stopped at memory it cannot read.
  ghost predicate Outcome(readable: seq<bool>, source: seq<Fragment>, target: seq<Fragment>, copied: nat, fault: bool)
    requires Inside(source, |readable|)
  {
    var from, n := Addresses(source), Min(|Addresses(source)|, |Addresses(target)|);
    && copied <= n
    && (forall i | 0 <= i < copied :: from[i] < |readable| && readable[from[i]])
    && (!fault ==> copied == n)
    && (fault ==>
          && (Cut(source, copied) || Cut(target, copied))
          && exists u | copied <= u < n ::
               && from[u] < |readable| && !readable[from[u]]
               && forall k | copied < k <= u :: !Cut(source, k) && !Cut(target, k))
  }

  // A place in a fragment list: fragment i, o bytes into it.
  predicate At(iov: seq<Fragment>, i: nat, o: nat) { i <= |iov| && if i < |iov| then o <= iov[i].len else o == 0 }

  // The bytes before a place.
  function Before(iov: seq<Fragment>, i: nat, o: nat): nat
    requires At(iov, i, o)
  {
    Start(iov, i) + o
  }

  lemma BeforeBound(iov: seq<Fragment>, i: nat, o: nat)
    requires At(iov, i, o)
    ensures Before(iov, i, o) <= Start(iov, |iov|)
  {
    StartMonotone(iov, i, |iov|);
    if i < |iov| { StartMonotone(iov, i + 1, |iov|); }
  }

  // From index `at` on, z consecutive addresses that start at a.
  predicate Consecutive(addrs: seq<nat>, at: nat, z: nat, a: nat)
    requires at + z <= |addrs|
  {
    forall i | at <= i < at + z :: addrs[i] == a + (i - at)
  }

  // The addresses of the next z bytes of a fragment.
  lemma Next(iov: seq<Fragment>, i: nat, o: nat, z: nat)
    requires At(iov, i, o) && i < |iov| && o + z <= iov[i].len
    ensures Before(iov, i, o) + z <= |Addresses(iov)|
    ensures Consecutive(Addresses(iov), Before(iov, i, o), z, iov[i].base + o)
    ensures forall k | Before(iov, i, o) < k < Before(iov, i, o) + z :: !Cut(iov, k)
  {
    BeforeBound(iov, i, o + z);
    var at := Before(iov, i, o);
    forall k | at <= k < at + z ensures Addresses(iov)[k] == iov[i].base + o + (k - at) {
      FlatAt(iov, |iov|, i, o + (k - at));
    }
    forall k | at < k < at + z ensures !Cut(iov, k) { NoCutInside(iov, i, k); }
  }

  // The chunk ends where one of its two fragments does.
  lemma EndOfOne(source: seq<Fragment>, si: nat, so: nat, target: seq<Fragment>, ti: nat, to: nat, z: nat, end: nat)
    requires At(source, si, so) && At(target, ti, to) && si < |source| && ti < |target|
    requires z == Min(source[si].len - so, target[ti].len - to)
    requires end == Before(source, si, so) + z == Before(target, ti, to) + z
    ensures Cut(source, end) || Cut(target, end)
  {
    if so + z == source[si].len { assert Start(source, si + 1) == end; } else { assert Start(target, ti + 1) == end; }
  }

  // What memory holds after k bytes.
  ghost predicate Progress(mem: seq<Byte>, now: seq<Byte>, source: seq<Fragment>, target: seq<Fragment>, k: nat)
    requires Inside(source, |mem|) && Inside(target, |mem|)
  {
    AddressesInside(source, |source|, |mem|);
    AddressesInside(target, |target|, |mem|);
    k <= |Addresses(source)| && k <= |Addresses(target)| && now == Copied(mem, Addresses(source), Addresses(target), k)
  }

  // memcpy of one chunk, byte by byte.
  method CopyChunk(mem: array<Byte>, ghost start: seq<Byte>, ghost source: seq<Fragment>, ghost target: seq<Fragment>,
                   from: nat, to: nat, z: nat, ghost done: nat)
    requires |start| == mem.Length && Inside(source, mem.Length) && Inside(target, mem.Length)
    requires Progress(start, mem[..], source, target, done)
    requires from + z <= mem.Length && to + z <= mem.Length
    requires done + z <= |Addresses(source)| && done + z <= |Addresses(target)|
    requires Consecutive(Addresses(source), done, z, from) && Consecutive(Addresses(target), done, z, to)
    modifies mem
    ensures Progress(start, mem[..], source, target, done + z)
  {
    for i := 0 to z
      invariant Progress(start, mem[..], source, target, done + i)
    {
      assert Addresses(source)[done + i] == from + i && Addresses(target)[done + i] == to + i;
      mem[to + i] := mem[from + i];
    }
  }

  // Two places reached after the same number of bytes, all of them readable.
  ghost predicate Abreast(readable: seq<bool>, source: seq<Fragment>, si: nat, so: nat,
                          target: seq<Fragment>, ti: nat, to: nat, total: nat)
    requires Inside(source, |readable|)
  {
    && At(source, si, so) && At(target, ti, to)
    && total == Before(source, si, so) == Before(target, ti, to)
    && total <= |Addresses(source)|
    && (forall i | 0 <= i < total :: Addresses(source)[i] < |readable| && readable[Addresses(source)[i]])
    && (Cut(source, total) || Cut(target, total))
  }

  lemma FirstPlaces(readable: seq<bool>, source: seq<Fragment>, target: seq<Fragment>)
    requires Inside(source, |readable|)
    ensures Abreast(readable, source, 0, 0, target, 0, 0, 0)
  {
    assert Start(source, 0) == 0;
  }

  // The place z bytes on in the same fragment, which is the start of the next one at its end.
  function Advance(iov: seq<Fragment>, i: nat, o: nat, z: nat): (nat, nat)
    requires At(iov, i, o) && i < |iov| && o + z <= iov[i].len
  {
    if o + z == iov[i].len then (i + 1, 0) else (i, o + z)
  }

  lemma Advanced(readable: seq<bool>, source: seq<Fragment>, si: nat, so: nat,
                 target: seq<Fragment>, ti: nat, to: nat, total: nat, z: nat)
    requires Inside(source, |readable|) && Abreast(readable, source, si, so, target, ti, to, total)
    requires si < |source| && ti < |target| && z == Min(source[si].len - so, target[ti].len - to)
    requires Readable(readable, source[si].base + so, z)
    ensures Abreast(readable, source, Advance(source, si, so, z).0, Advance(source, si, so, z).1,
                    target, Advance(target, ti, to, z).0, Advance(target, ti, to, z).1, total + z)
    ensures si + ti < Advance(source, si, so, z).0 + Advance(target, ti, to, z).0 <= |source| + |target|
  {
    Next(source, si, so, z);
    EndOfOne(source, si, so, target, ti, to, z, total + z);
    forall i | 0 <= i < total + z ensures Addresses(source)[i] < |readable| && readable[Addresses(source)[i]] {
      if i >= total { assert Addresses(source)[i] == source[si].base + so + (i - total); }
    }
  }

  lemma Faulted(readable: seq<bool>, source: seq<Fragment>, si: nat, so: nat,
                 target: seq<Fragment>, ti: nat, to: nat, total: nat, z: nat)
    requires Inside(source, |readable|) && Abreast(readable, source, si, so, target, ti, to, total)
    requires si < |source| && ti < |target| && z == Min(source[si].len - so, target[ti].len - to)
    requires !Readable(readable, source[si].base + so, z)
    ensures Outcome(readable, source, target, total, true)
  {
    Next(source, si, so, z);
    Next(target, ti, to, z);
    var from := source[si].base + so;
    var u :| from <= u < from + z && !readable[u];
    var at := total + (u - from);
    assert Addresses(source)[at] == u;
    assert forall k | total < k <= at :: !Cut(source, k) && !Cut(target, k);
  }

  lemma Finished(readable: seq<bool>, source: seq<Fragment>, si: nat, so: nat,
                 target: seq<Fragment>, ti: nat, to: nat, total: nat)
    requires Inside(source, |readable|) && Abreast(readable, source, si, so, target, ti, to, total)
    requires si == |source| || ti == |target|
    ensures Outcome(readable, source, target, total, false)
  {
    BeforeBound(source, si, so);
    BeforeBound(target, ti, to);
  }

  // One turn of the loop: the chunk is copied, and both places advance.
  method CopyTurn(mem: array<Byte>, ghost start: seq<Byte>, ghost readable: seq<bool>,
                  source: seq<Fragment>, si: nat, so: nat,
                  target: seq<Fragment>, ti: nat, to: nat, ghost total: nat, z: nat)
    returns (si': nat, so': nat, ti': nat, to': nat)
    requires |start| == |readable| == mem.Length && Inside(source, mem.Length) && Inside(target, mem.Length)
    requires Abreast(readable, source, si, so, target, ti, to, total) && si < |source| && ti < |target|
    requires z == Min(source[si].len - so, target[ti].len - to) && Readable(readable, source[si].base + so, z)
    requires Progress(start, mem[..], source, target, total)
    modifies mem
    ensures Progress(start, mem[..], source, target, total + z)
    ensures Abreast(readable, source, si', so', target, ti', to', total + z)
    ensures si + ti < si' + ti' <= |source| + |target|
  {
    Next(source, si, so, z);
    Next(target, ti, to, z);
    CopyChunk(mem, start, source, target, source[si].base + so, target[ti].base + to, z, total);
    Advanced(readable, source, si, so, target, ti, to, total, z);
    var nextSource, nextTarget := Advance(source, si, so, z), Advance(target, ti, to, z);
    si', so' := nextSource.0, nextSource.1;
    ti', to' := nextTarget.0, nextTarget.1;
  }

  /**
   The loop of bionic_syscall for process_vm_readv and process_vm_writev.  It ends for every list of
   lengths; the result is the number of bytes copied, or -1 if not even the first chunk can be read.
   */
  method Transfer(mem: array<Byte>, readable: seq<bool>, source: seq<Fragment>, target: seq<Fragment>)
    returns (result: int, ghost copied: nat, ghost fault: bool)
    requires |readable| == mem.Length && Inside(source, mem.Length) && Inside(target, mem.Length)
    modifies mem
    ensures Progress(old(mem[..]), mem[..], source, target, copied)
    ensures Outcome(readable, source, target, copied, fault)
    ensures result == if fault && copied == 0 then -1 else copied
  {
    var si: nat, so: nat, ti: nat, to: nat := 0, 0, 0, 0;
    var total: nat := 0;
    FirstPlaces(readable, source, target);
    while si < |source| && ti < |target|
      invariant Abreast(readable, source, si, so, target, ti, to, total)
      invariant Progress(old(mem[..]), mem[..], source, target, total)
      decreases |source| + |target| - (si + ti)
    {
      var z := Min(source[si].len - so, target[ti].len - to);
      if !Readable(readable, source[si].base + so, z) {
        Faulted(readable, source, si, so, target, ti, to, total, z);
        return if total == 0 then -1 else total, total, true;
      }
      si, so, ti, to := CopyTurn(mem, old(mem[..]), readable, source, si, so, target, ti, to, total, z);
      total := total + z;
    }
    Finished(readable, source, si, so, target, ti, to, total);
    return total, total, false;
  }

  /**
   With every source byte readable, distinct target bytes and no overlap, the flattened prefixes become
   equal and nothing else changes.
   */
  lemma TransferMeans(mem: seq<Byte>, now: seq<Byte>, readable: seq<bool>, source: seq<Fragment>,
                      target: seq<Fragment>, copied: nat, fault: bool, a: nat)
    requires |readable| == |mem| && Inside(source, |mem|) && Inside(target, |mem|) && a < |mem|
    requires Progress(mem, now, source, target, copied) && Outcome(readable, source, target, copied, fault)
    requires forall i | 0 <= i < |readable| :: readable[i]
    requires var from, to := Addresses(source), Addresses(target);
      && (forall i, j | 0 <= i < |from| && 0 <= j < |to| :: from[i] != to[j])
      && (forall i, j | 0 <= i < j < |to| :: to[i] != to[j])
    ensures var from, to, n := Addresses(source), Addresses(target), Min(|Addresses(source)|, |Addresses(target)|);
      && copied == n && !fault && |now| == |mem|
      && ((forall i | 0 <= i < n :: to[i] != a) ==> now[a] == mem[a])
      && forall i | 0 <= i < n && to[i] == a :: from[i] < |mem| && now[a] == mem[from[i]]
  {
    AddressesInside(source, |source|, |mem|);
    AddressesInside(target, |target|, |mem|);
    CopiedMeans(mem, Addresses(source), Addresses(target), copied, a);
  }
}
