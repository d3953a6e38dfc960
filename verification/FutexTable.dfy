/**
 The futex registry of source/bionic.c: an insert-only hash table with linear probing, and
 the sections that run under a slot's lock.
 */
module FutexTable {
  import opened Common
  import opened Bits

  datatype FutexSlot = FutexSlot(
    used: bool, key: nat, waiters: nat, peakWaiters: nat,
    waitCalls: nat, wakeCalls: nat, wakeTotal: nat, timeouts: nat, compatTimeouts: nat)

  const EMPTY_SLOT := FutexSlot(false, 0, 0, 0, 0, 0, 0, 0, 0)

  function NewSlot(key: nat): FutexSlot { EMPTY_SLOT.(used := true, key := key) }

  // ---------------------------------------------------------------- probing

  function Mix(key: nat): nat {
    var x := key / 4;
    var y := Xor(x, Shr(x, 17));
    Xor(y, Shr(y, 31))
  }

  // Where the probe for `key` starts in a table of Pow2(w) slots.
  function Hash(key: nat, w: nat): (h: nat)
    ensures h < Pow2(w)
  {
    MaskBelow(Mix(key), w);
    And(Mix(key), Pow2(w) - 1)
  }

  // The slot probed `p` steps after `h`, with wrap-around.
  function Step(h: nat, p: nat, n: nat): (i: nat)
    requires h < n && p < n
    ensures i < n
  {
    if h + p < n then h + p else h + p - n
  }

  // How many steps from `h` reach slot i.
  function Distance(h: nat, i: nat, n: nat): (p: nat)
    requires h < n && i < n
    ensures p < n && Step(h, p, n) == i
  {
    if h <= i then i - h else i + n - h
  }

  // The index expression of the source is the wrapped step.
  lemma ProbeIndex(h: nat, p: nat, w: nat)
    requires h < Pow2(w) && p < Pow2(w)
    ensures And(h + p, Pow2(w) - 1) == Step(h, p, Pow2(w))
  {
    MaskOneMore(h + p, w);
  }

  // ---------------------------------------------------------------- the table as a set of keys

  ghost function Keys(t: seq<FutexSlot>): set<nat> {
    set i: nat | i < |t| && t[i].used :: t[i].key
  }

  // Every used slot is reached from its hash through used slots, and no key is held twice.
  ghost predicate Probed(t: seq<FutexSlot>, w: nat) {
    && |t| == Pow2(w)
    && (forall i: nat, p: nat | i < |t| && t[i].used && p < Distance(Hash(t[i].key, w), i, |t|) ::
          t[Step(Hash(t[i].key, w), p, |t|)].used)
    && (forall i: nat, j: nat | i < |t| && j < |t| && t[i].used && t[j].used && t[i].key == t[j].key :: i == j)
  }

  // The first p slots probed for `key` are used by other keys.
  ghost predicate PassedOver(t: seq<FutexSlot>, w: nat, key: nat, p: nat)
    requires |t| == Pow2(w) && p <= |t|
  {
    forall q: nat | q < p :: var s := t[Step(Hash(key, w), q, |t|)]; s.used && s.key != key
  }

  lemma {:induction false} KeyIsAhead(t: seq<FutexSlot>, w: nat, key: nat, p: nat)
    requires Probed(t, w) && p < |t| && PassedOver(t, w, key, p)
    requires !t[Step(Hash(key, w), p, |t|)].used
    ensures key !in Keys(t)
  {
    forall i: nat | i < |t| && t[i].used ensures t[i].key != key {
      var d := Distance(Hash(key, w), i, |t|);
    }
  }

  lemma {:induction false} NoKeyLeft(t: seq<FutexSlot>, w: nat, key: nat)
    requires |t| == Pow2(w) && PassedOver(t, w, key, |t|)
    ensures key !in Keys(t) && forall i: nat | i < |t| :: t[i].used
  {
    forall i: nat | i < |t| ensures t[i].used && t[i].key != key {
      var d := Distance(Hash(key, w), i, |t|);
      assert t[Step(Hash(key, w), d, |t|)] == t[i];
    }
  }

  lemma {:induction false} InsertKeepsProbed(t: seq<FutexSlot>, w: nat, key: nat, p: nat)
    requires Probed(t, w) && p < |t| && PassedOver(t, w, key, p)
    requires !t[Step(Hash(key, w), p, |t|)].used
    ensures
      var t' := t[Step(Hash(key, w), p, |t|) := NewSlot(key)];
      Probed(t', w) && Keys(t') == Keys(t) + {key}
  {
    KeyIsAhead(t, w, key, p);
    var i := Step(Hash(key, w), p, |t|);
    var t' := t[i := NewSlot(key)];
    assert Distance(Hash(key, w), i, |t|) == p;
    forall k ensures k in Keys(t') <==> k in Keys(t) + {key} {
      if k in Keys(t) {
        var j: nat :| j < |t| && t[j].used && t[j].key == k;
        assert t'[j] == t[j];
      }
      if k == key { assert t'[i].key == k; }
      if k in Keys(t') {
        var j: nat :| j < |t'| && t'[j].used && t'[j].key == k;
        assert j != i ==> t[j] == t'[j];
      }
    }
    forall a: nat, b: nat | a < |t'| && b < |t'| && t'[a].used && t'[b].used && t'[a].key == t'[b].key ensures a == b {
      assert a != i ==> t[a].key in Keys(t);
      assert b != i ==> t[b].key in Keys(t);
    }
  }

  // ---------------------------------------------------------------- sections under a slot's lock

  function Entered(s: FutexSlot): FutexSlot {
    s.(waiters := s.waiters + 1, waitCalls := s.waitCalls + 1, peakWaiters := Max(s.peakWaiters, s.waiters + 1))
  }

  // A wait that returns: `timed` is whether it had a timeout, `failed` whether the wait ran out.
  // The counter is unsigned: below zero it wraps.
  function Left(s: FutexSlot, timed: bool, failed: bool): FutexSlot {
    s.(waiters := if s.waiters == 0 then 0xffff_ffff else s.waiters - 1,
       timeouts := s.timeouts + (if failed && timed then 1 else 0),
       compatTimeouts := s.compatTimeouts + (if failed && !timed then 1 else 0))
  }

  function WakeCount(s: FutexSlot, requested: nat): nat { Min(requested, s.waiters) }

  function Waked(s: FutexSlot, requested: nat): FutexSlot {
    s.(wakeCalls := s.wakeCalls + 1, wakeTotal := s.wakeTotal + WakeCount(s, requested))
  }

  // What the wake section asks of the condition variable.
  datatype Signal = NoSignal | WakeAll | WakeOnes(times: nat)

  function SignalFor(s: FutexSlot, requested: nat): Signal {
    var n := WakeCount(s, requested);
    if n == 0 then NoSignal
    else if n == 1 then WakeOnes(1)
    else if n >= s.waiters then WakeAll
    else WakeOnes(n)
  }

  class FutexRegistry {
    const w: nat
    const slots: array<FutexSlot>

    ghost predicate Valid()
      reads this, slots
    {
      Probed(slots[..], w)
    }

    constructor (w: nat)
      ensures this.w == w && fresh(slots) && Valid() && Keys(slots[..]) == {}
    {
      this.w := w;
      slots := new FutexSlot[Pow2(w)](i => EMPTY_SLOT);
    }

    /** futex_slot_get: the slot of `key`, entered if missing and `create`; -1 for none. */
    method SlotGet(key: nat, create: bool) returns (found: int)
      requires Valid()
      modifies slots
      ensures Valid()
      ensures found < slots.Length
      ensures found >= 0 ==> slots[found].used && slots[found].key == key
      ensures found < 0 ==> found == -1 && slots[..] == old(slots[..])
      ensures key in Keys(old(slots[..])) ==> found >= 0 && slots[..] == old(slots[..])
      ensures !create ==> slots[..] == old(slots[..]) && (found >= 0 <==> key in Keys(slots[..]))
      ensures create ==> (found < 0 <==> key !in Keys(slots[..]))
      ensures create && found < 0 ==> forall i: nat | i < slots.Length :: slots[i].used
      ensures create && found >= 0 ==> Keys(slots[..]) == Keys(old(slots[..])) + {key}
      ensures key !in Keys(old(slots[..])) && found >= 0 ==>
        !old(slots[found].used) && slots[..] == old(slots[..])[found := NewSlot(key)]
    {
      var start := Hash(key, w);
      ghost var t := slots[..];
      var probe := 0;
      while probe < slots.Length
        invariant probe <= slots.Length
        invariant slots[..] == t && PassedOver(t, w, key, probe)
      {
        ProbeIndex(start, probe, w);
        var i := And(start + probe, Pow2(w) - 1);
        if slots[i].used {
          if slots[i].key == key {
            assert t[i].key in Keys(t);
            assert Keys(t) == Keys(t) + {key};
            return i;
          }
          probe := probe + 1;
          continue;
        }
        KeyIsAhead(t, w, key, probe);
        if !create { return -1; }
        InsertKeepsProbed(t, w, key, probe);
        slots[i] := NewSlot(key);
        assert slots[..] == t[i := NewSlot(key)];
        return i;
      }
      NoKeyLeft(t, w, key);
      return -1;
    }

    method EnterWait(i: nat)
      requires i < slots.Length
      modifies slots
      ensures slots[..] == old(slots[..])[i := Entered(old(slots[i]))]
    {
      slots[i] := slots[i].(waiters := slots[i].waiters + 1, waitCalls := slots[i].waitCalls + 1);
      if slots[i].waiters > slots[i].peakWaiters {
        slots[i] := slots[i].(peakWaiters := slots[i].waiters);
      }
    }

    method LeaveWait(i: nat, timed: bool, failed: bool)
      requires i < slots.Length
      modifies slots
      ensures slots[..] == old(slots[..])[i := Left(old(slots[i]), timed, failed)]
    {
      if failed {
        if timed { slots[i] := slots[i].(timeouts := slots[i].timeouts + 1); }
        else { slots[i] := slots[i].(compatTimeouts := slots[i].compatTimeouts + 1); }
      }
      slots[i] := slots[i].(waiters := if slots[i].waiters == 0 then 0xffff_ffff else slots[i].waiters - 1);
    }

    method Wake(i: nat, requested: nat) returns (count: nat, signal: Signal)
      requires i < slots.Length
      modifies slots
      ensures slots[..] == old(slots[..])[i := Waked(old(slots[i]), requested)]
      ensures count == WakeCount(old(slots[i]), requested) && signal == SignalFor(old(slots[i]), requested)
    {
      var waiters := slots[i].waiters;
      count := if requested < waiters then requested else waiters;
      slots[i] := slots[i].(wakeCalls := slots[i].wakeCalls + 1, wakeTotal := slots[i].wakeTotal + count);
      signal := NoSignal;
      if count == 1 {
        signal := WakeOnes(1);
      } else if count > 1 {
        if count >= waiters { signal := WakeAll; } else { signal := WakeOnes(count); }
      }
    }
  }
}
