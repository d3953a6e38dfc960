/**
 The list of guest threads (source/bionic.c): a singly linked list that is searched, extended
 and spliced in place under the thread lock.
 */
module ThreadList {

  // ---------------------------------------------------------------- lists of distinct items

  ghost predicate Distinct<T>(s: seq<T>) {
    forall i, j | 0 <= i < j < |s| :: s[i] != s[j]
  }

  // s without its first x.
  ghost function Without<T>(s: seq<T>, x: T): seq<T> {
    if s == [] then [] else if s[0] == x then s[1..] else [s[0]] + Without(s[1..], x)
  }

  lemma {:induction false} WithoutAt<T>(s: seq<T>, i: nat)
    requires Distinct(s) && i < |s|
    ensures Without(s, s[i]) == s[..i] + s[i + 1..]
  {
    if i > 0 {
      assert s[0] != s[i];
      WithoutAt(s[1..], i - 1);
      assert s[1..][..i - 1] == s[1..i] && s[1..][i..] == s[i + 1..];
      assert [s[0]] + s[1..i] == s[..i];
    }
  }

  lemma {:induction false} WithoutAbsent<T>(s: seq<T>, x: T)
    requires x !in s
    ensures Without(s, x) == s
  {
    if s != [] { WithoutAbsent(s[1..], x); }
  }

  lemma SplicedMembers<T>(s: seq<T>, i: nat)
    requires Distinct(s) && i < |s|
    ensures var t := s[..i] + s[i + 1..];
      Distinct(t) && s[i] !in t && forall y :: y in t <==> y in s && y != s[i]
  {
    var t := s[..i] + s[i + 1..];
    assert forall k | 0 <= k < |t| :: t[k] == s[if k < i then k else k + 1];
    forall y ensures y in t <==> y in s && y != s[i] {
      if y in s && y != s[i] {
        var k :| 0 <= k < |s| && s[k] == y;
        assert t[if k < i then k else k - 1] == y;
      }
    }
  }

  lemma {:induction false} WithoutMembers<T>(s: seq<T>, x: T)
    requires Distinct(s)
    ensures Distinct(Without(s, x)) && x !in Without(s, x)
    ensures forall y :: y in Without(s, x) <==> y in s && y != x
  {
    if x in s {
      var i :| 0 <= i < |s| && s[i] == x;
      WithoutAt(s, i);
      SplicedMembers(s, i);
    } else {
      WithoutAbsent(s, x);
    }
  }

  // ---------------------------------------------------------------- the linked list

  class GuestThread {
    const id: nat              // pthread_id: the kernel handle
    var detached: bool
    var joining: bool
    var finished: bool
    var next: GuestThread?

    constructor (id: nat, detached: bool)
      ensures this.id == id && this.detached == detached && !joining && !finished && next == null
    {
      this.id, this.detached := id, detached;
      joining, finished, next := false, false, null;
    }
  }

  predicate Reapable(g: GuestThread, self: nat, exited: set<nat>)
    reads g
  {
    g.detached && !g.joining && g.id != self && g.id in exited
  }

  // The node at position i, null past the end.
  function NodeAt(nodes: seq<GuestThread>, i: nat): GuestThread? {
    if i < |nodes| then nodes[i] else null
  }

  // Where node `from` of a list leads once node i is taken out.
  function Skipping(was: seq<GuestThread>, i: nat, from: nat): GuestThread? {
    NodeAt(was, if from + 1 == i then i + 1 else from + 1)
  }

  // The links that skip node i are the links of the list without it.
  lemma SplicedLinks(was: seq<GuestThread>, i: nat, nodes: seq<GuestThread>)
    requires i < |was| && nodes == was[..i] + was[i + 1..]
    requires forall j | 0 <= j < |was| && j != i :: was[j].next == Skipping(was, i, j)
    ensures forall k | 0 <= k < |nodes| :: nodes[k].next == NodeAt(nodes, k + 1)
  {
    forall k | 0 <= k < |nodes| ensures nodes[k].next == NodeAt(nodes, k + 1) {
      var j := if k < i then k else k + 1;
      assert nodes[k] == was[j] && was[j].next == Skipping(was, i, j);
    }
  }

  class GuestThreads {
    var head: GuestThread?
    ghost var nodes: seq<GuestThread>

    ghost predicate Valid()
      reads this, nodes
    {
      && Distinct(nodes)
      && head == NodeAt(nodes, 0)
      && forall i | 0 <= i < |nodes| :: nodes[i].next == NodeAt(nodes, i + 1)
    }

    constructor ()
      ensures Valid() && nodes == []
    {
      head, nodes := null, [];
    }

    // guest_thread_find_locked
    method Find(id: nat) returns (found: GuestThread?, ghost at: nat)
      requires Valid()
      ensures at <= |nodes| && found == NodeAt(nodes, at)
      ensures found != null ==> found.id == id
      ensures forall i | 0 <= i < at :: nodes[i].id != id
    {
      found := head;
      at := 0;
      while found != null
        invariant at <= |nodes| && found == NodeAt(nodes, at)
        invariant forall j | 0 <= j < at :: nodes[j].id != id
        decreases |nodes| - at
      {
        if found.id == id {
          return;
        }
        found := found.next;
        at := at + 1;
      }
    }

    // guest_thread_add
    method Add(g: GuestThread)
      requires Valid() && g !in nodes
      modifies this, g
      ensures Valid() && nodes == [g] + old(nodes)
      ensures g.detached == old(g.detached) && g.joining == old(g.joining) && g.finished == old(g.finished)
    {
      ghost var was := nodes;
      assert forall i | 0 <= i < |was| :: was[i] != g;
      g.next := head;
      head := g;
      nodes := [g] + nodes;
      assert forall i | 1 <= i < |nodes| :: nodes[i] == was[i - 1];
    }

    // Rewrites the link that leads to nodes[i].
    method Unlink(slot: GuestThread?, at: GuestThread, ghost i: nat)
      requires Valid() && i < |nodes| && at == nodes[i] && slot == if i > 0 then nodes[i - 1] else null
      modifies this, slot, at`next
      ensures Valid() && nodes == Without(old(nodes), at)
      ensures slot != null ==>
        && slot.detached == old(slot.detached) && slot.joining == old(slot.joining)
        && slot.finished == old(slot.finished)
    {
      ghost var was := nodes;
      WithoutAt(nodes, i);
      SplicedMembers(nodes, i);
      nodes := was[..i] + was[i + 1..];
      if slot == null { head := at.next; } else { slot.next := at.next; }
      at.next := null;
      assert forall j | 0 <= j < |was| && j != i :: was[j] != at && (j + 1 != i ==> was[j] != slot);
      SplicedLinks(was, i, nodes);
    }

    // guest_thread_remove_locked; `slot` is the node whose link is rewritten, null for the head.
    method Remove(g: GuestThread) returns (removed: bool)
      requires Valid()
      modifies this, nodes
      ensures Valid() && nodes == Without(old(nodes), g) && removed == (g in old(nodes))
      ensures forall h | h in old(nodes) ::
        h.detached == old(h.detached) && h.joining == old(h.joining) && h.finished == old(h.finished)
    {
      var slot: GuestThread? := null;
      var at := head;
      ghost var i := 0;
      while at != null
        invariant i <= |nodes| && at == NodeAt(nodes, i)
        invariant slot == if i > 0 then nodes[i - 1] else null
        invariant unchanged(this) && (forall h | h in nodes :: unchanged(h))
        invariant g !in nodes[..i]
        decreases |nodes| - i
      {
        if at == g {
          Unlink(slot, at, i);
          return true;
        }
        slot := at;
        at := at.next;
        i := i + 1;
      }
      WithoutAbsent(nodes, g);
      return false;
    }

    /**
     The section of guest_thread_reap_detached: takes out the first thread that is detached, not
     being joined, not the caller, and whose handle says it has exited.
     */
    method TakeVictim(self: nat, exited: set<nat>) returns (victim: GuestThread?, ghost at: nat)
      requires Valid()
      modifies this, nodes
      ensures Valid()
      ensures at <= |old(nodes)| && victim == NodeAt(old(nodes), at)
      ensures forall i | 0 <= i < at :: !old(Reapable(nodes[i], self, exited))
      ensures victim != null ==> old(Reapable(victim, self, exited))
      ensures nodes == if victim == null then old(nodes) else Without<GuestThread>(old(nodes), victim)
    {
      victim := head;
      at := 0;
      while victim != null
        invariant at <= |nodes| && victim == NodeAt(nodes, at)
        invariant unchanged(this) && (forall h | h in nodes :: unchanged(h))
        invariant forall j | 0 <= j < at :: !Reapable(nodes[j], self, exited)
        decreases |nodes| - at
      {
        if victim.detached && !victim.joining && victim.id != self && victim.id in exited {
          assert victim in old(nodes) && old(Reapable(victim, self, exited));
          var removed := Remove(victim);
          return;
        }
        victim := victim.next;
        at := at + 1;
      }
    }
  }
}
