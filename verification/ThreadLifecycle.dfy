/**
 Creating, joining, detaching and reaping guest threads (source/bionic.c).  Each event is one
 section under the thread lock or one step outside it; a record is memory from calloc together with
 an open kernel handle, and whoever takes it off the list closes the handle and frees the memory.
 Record addresses and handles may be reused once they have been given back.
 */
module ThreadLifecycle {
  import opened ThreadList

  datatype Rec = Rec(
    id: nat, detached: bool, joining: bool, finished: bool, ret: int,
    started: bool, exited: bool, handleOpen: bool)

  datatype Reason = Joined | Reaped | CreateFailed

  // What a call under way is about to do with its record.
  datatype Call =
    | Created(rec: nat)              // create: has a record and a handle, not listed
    | Listed(rec: nat)               // create: listed, about to start the thread
    | StartFailed(rec: nat)          // create: the thread could not be started
    | Joining(rec: nat)              // join: waiting for the thread to exit
    | WaitFailed(rec: nat)           // join: the wait failed, about to clear `joining`
    | JoinReady(rec: nat)            // join: the thread has exited, about to unlist it
    | Unlisted(rec: nat, why: Reason)   // about to close the handle
    | Closed(rec: nat, why: Reason)     // about to free the memory

  // A create that has started its thread and has still to read the record once more, outside any
  // lock.  `loose` says that the thread is detached, be it by the attributes of the create or by the
  // thread itself, and `lost` that the record is gone.
  datatype Starter = Starter(rec: nat, loose: bool, lost: bool)

  datatype System = System(
    recs: map<nat, Rec>, list: seq<nat>, calls: map<nat, Call>, starters: map<nat, Starter>)

  datatype Event =
    | Create(c: nat, rec: nat, handle: nat, detached: bool)
    | AbortCreate(c: nat)            // the kernel gave handle 0
    | Add(c: nat)
    | Start(c: nat, ok: bool)
    | Read(c: nat)                   // create: its last look at the record, then it returns
    | UnlistFailed(c: nat)
    | Finish(rec: nat, ret: int)     // the thread stores its result
    | Exit(rec: nat)                 // the kernel marks its handle
    | Join(c: nat, id: nat, self: nat)
    | Waited(c: nat, ok: bool)
    | ClearJoining(c: nat)
    | UnlistJoined(c: nat)
    | Detach(id: nat, self: nat)
    | Reap(c: nat, self: nat)
    | Close(c: nat)
    | Free(c: nat)

  // ---------------------------------------------------------------- searching the list

  function FindFrom(s: System, id: nat, i: nat): (r: int)
    requires i <= |s.list|
    ensures r < 0 ==>
      r == -1 && forall j | i <= j < |s.list| && s.list[j] in s.recs :: s.recs[s.list[j]].id != id
    ensures r >= 0 ==> i <= r < |s.list| && s.list[r] in s.recs && s.recs[s.list[r]].id == id
    decreases |s.list| - i
  {
    if i == |s.list| then -1
    else if s.list[i] in s.recs && s.recs[s.list[i]].id == id then i
    else FindFrom(s, id, i + 1)
  }

  predicate CanReap(s: System, rec: nat, self: nat) {
    && rec in s.recs && s.recs[rec].detached && !s.recs[rec].joining
    && s.recs[rec].id != self && s.recs[rec].exited
  }

  function VictimFrom(s: System, self: nat, i: nat): (r: int)
    requires i <= |s.list|
    ensures r < 0 ==> r == -1 && forall j | i <= j < |s.list| :: !CanReap(s, s.list[j], self)
    ensures r >= 0 ==> i <= r < |s.list| && CanReap(s, s.list[r], self)
    decreases |s.list| - i
  {
    if i == |s.list| then -1
    else if CanReap(s, s.list[i], self) then i
    else VictimFrom(s, self, i + 1)
  }

  // The create of this record has started the thread and not returned yet.
  predicate Starting(s: System, rec: nat) {
    exists d :: d in s.starters && s.starters[d].rec == rec && !s.starters[d].lost
  }

  // The create that produced this thread id has returned, so anybody may use it.
  predicate UsableId(s: System, id: nat) {
    forall i | 0 <= i < |s.list| && s.list[i] in s.recs && s.recs[s.list[i]].id == id ::
      s.recs[s.list[i]].started && !Starting(s, s.list[i])
  }

  // A thread that runs may use its own id, even before its create has returned.
  predicate OwnId(s: System, id: nat, self: nat) {
    && id == self
    && forall i | 0 <= i < |s.list| && s.list[i] in s.recs && s.recs[s.list[i]].id == id ::
         s.recs[s.list[i]].started && !s.recs[s.list[i]].exited
  }

  // ---------------------------------------------------------------- steps

  predicate Has(s: System, c: nat) { c in s.calls && s.calls[c].rec in s.recs }

  predicate NewCall(s: System, c: nat) { c !in s.calls && c !in s.starters }

  predicate Enabled(s: System, e: Event) {
    match e
    case Create(c, rec, handle, _) =>
      // calloc returns memory that is not in use, threadCreate a handle that is not open
      && NewCall(s, c) && rec !in s.recs
      && forall r | r in s.recs && s.recs[r].handleOpen :: s.recs[r].id != handle
    case AbortCreate(c) => Has(s, c) && s.calls[c].Created? && s.recs[s.calls[c].rec].id == 0
    case Add(c) => Has(s, c) && s.calls[c].Created? && s.recs[s.calls[c].rec].id != 0
    case Start(c, _) => Has(s, c) && s.calls[c].Listed?
    case Read(c) => c in s.starters
    case UnlistFailed(c) => Has(s, c) && s.calls[c].StartFailed?
    case Finish(rec, _) => rec in s.recs && s.recs[rec].started && !s.recs[rec].exited
    case Exit(rec) => rec in s.recs && s.recs[rec].started && s.recs[rec].finished && !s.recs[rec].exited
    case Join(c, id, self) => NewCall(s, c) && id != 0 && id != self && UsableId(s, id)
    case Waited(c, ok) => Has(s, c) && s.calls[c].Joining? && (ok ==> s.recs[s.calls[c].rec].exited)
    case ClearJoining(c) => Has(s, c) && s.calls[c].WaitFailed?
    case UnlistJoined(c) => Has(s, c) && s.calls[c].JoinReady?
    case Detach(id, self) => id != 0 && (UsableId(s, id) || OwnId(s, id, self))
    case Reap(c, self) => NewCall(s, c)
    // nothing but the state of the call decides these two: that the record is still there is to be proved
    case Close(c) => c in s.calls && s.calls[c].Unlisted?
    case Free(c) => c in s.calls && s.calls[c].Closed?
  }

  function Become(s: System, c: nat, call: Call): System { s.(calls := s.calls[c := call]) }

  function Write(s: System, rec: nat, r: Rec): System { s.(recs := s.recs[rec := r]) }

  // The starters once the thread at rec is detached.
  function Loosened(starters: map<nat, Starter>, rec: nat): map<nat, Starter> {
    map d | d in starters ::
      if starters[d].rec == rec && !starters[d].lost then starters[d].(loose := true) else starters[d]
  }

  // The starters once the memory at rec is given back.
  function Deserted(starters: map<nat, Starter>, rec: nat): map<nat, Starter> {
    map d | d in starters :: if starters[d].rec == rec then starters[d].(lost := true) else starters[d]
  }

  ghost function Next(s: System, e: Event): System
    requires Enabled(s, e)
  {
    match e
    case Create(c, rec, handle, detached) =>
      Write(Become(s, c, Created(rec)), rec, Rec(handle, detached, false, false, 0, false, false, true))
    case AbortCreate(c) => Become(s, c, Unlisted(s.calls[c].rec, CreateFailed))
    case Add(c) => Become(s, c, Listed(s.calls[c].rec)).(list := [s.calls[c].rec] + s.list)
    case Start(c, ok) =>
      var rec := s.calls[c].rec;
      if ok then
        Write(s, rec, s.recs[rec].(started := true))
          .(calls := s.calls - {c}, starters := s.starters[c := Starter(rec, s.recs[rec].detached, false)])
      else Become(s, c, StartFailed(rec))
    case Read(c) => s.(starters := s.starters - {c})
    case UnlistFailed(c) =>
      var rec := s.calls[c].rec;
      Become(s, c, Unlisted(rec, CreateFailed)).(list := Without(s.list, rec))
    case Finish(rec, ret) => Write(s, rec, s.recs[rec].(ret := ret, finished := true))
    case Exit(rec) => Write(s, rec, s.recs[rec].(exited := true))
    case Join(c, id, self) =>
      var i := FindFrom(s, id, 0);
      if i < 0 || s.recs[s.list[i]].detached || s.recs[s.list[i]].joining then s
      else Write(Become(s, c, Joining(s.list[i])), s.list[i], s.recs[s.list[i]].(joining := true))
    case Waited(c, ok) => Become(s, c, if ok then JoinReady(s.calls[c].rec) else WaitFailed(s.calls[c].rec))
    case ClearJoining(c) =>
      var rec := s.calls[c].rec;
      Write(s, rec, s.recs[rec].(joining := false)).(calls := s.calls - {c})
    case UnlistJoined(c) =>
      var rec := s.calls[c].rec;
      Become(s, c, Unlisted(rec, Joined)).(list := Without(s.list, rec))
    case Detach(id, _) =>
      var i := FindFrom(s, id, 0);
      if i < 0 || s.recs[s.list[i]].detached || s.recs[s.list[i]].joining then s
      else Write(s, s.list[i], s.recs[s.list[i]].(detached := true))
        .(starters := Loosened(s.starters, s.list[i]))
    case Reap(c, self) =>
      var i := VictimFrom(s, self, 0);
      if i < 0 then s
      else Become(s, c, Unlisted(s.list[i], Reaped)).(list := Without(s.list, s.list[i]))
    case Close(c) =>
      var rec := s.calls[c].rec;
      var t := Become(s, c, Closed(rec, s.calls[c].why));
      if rec in s.recs then Write(t, rec, s.recs[rec].(handleOpen := false)) else t
    case Free(c) =>
      var rec := s.calls[c].rec;
      System(s.recs - {rec}, s.list, s.calls - {c}, Deserted(s.starters, rec))
  }

  // ---------------------------------------------------------------- the invariant

  predicate OffList(call: Call) { call.Created? || call.Unlisted? || call.Closed? }

  predicate InJoin(call: Call) { call.Joining? || call.WaitFailed? || call.JoinReady? }

  // What a call knows about the record it works on.
  predicate CallOk(s: System, call: Call) {
    && call.rec in s.recs
    && var r := s.recs[call.rec];
       && (OffList(call) <==> call.rec !in s.list)
       && (call.Created? || call.Listed? || call.StartFailed? ==> !r.started && !r.joining)
       && (InJoin(call) ==> r.joining && r.started && !r.detached)
       && (call.JoinReady? ==> r.exited)
       && (call.Unlisted? || call.Closed? ==>
             match call.why
             case Joined => r.joining && !r.detached && r.exited
             case Reaped => !r.joining && r.detached && r.exited
             case CreateFailed => !r.joining && !r.started)
       && (r.handleOpen <==> !call.Closed?)
  }

  predicate RecOk(r: Rec) {
    && (r.exited ==> r.finished) && (r.finished ==> r.started) && !(r.detached && r.joining)
  }

  // Some call is at work on this record.
  predicate Worked(s: System, rec: nat) {
    exists c :: c in s.calls && s.calls[c].rec == rec
  }

  // Every call and every record is in a state that fits the other.
  ghost predicate RecordsOk(s: System) {
    && Distinct(s.list)
    && (forall rec | rec in s.list :: rec in s.recs && s.recs[rec].handleOpen && s.recs[rec].id != 0)
    && (forall rec | rec in s.recs :: RecOk(s.recs[rec]))
    && (forall c | c in s.calls :: CallOk(s, s.calls[c]))
    && (forall c, d | c in s.calls && d in s.calls && s.calls[c].rec == s.calls[d].rec :: c == d)
  }

  // A record that is off the list, being joined or not started yet is somebody's to finish.
  ghost predicate NothingAbandoned(s: System) {
    forall rec | rec in s.recs && (rec !in s.list || s.recs[rec].joining || !s.recs[rec].started) ::
      Worked(s, rec)
  }

  ghost predicate HandlesDistinct(s: System) {
    forall q, r | q in s.recs && r in s.recs && s.recs[q].handleOpen && s.recs[r].handleOpen
      && s.recs[q].id == s.recs[r].id :: q == r
  }

  ghost predicate Core(s: System) {
    RecordsOk(s) && NothingAbandoned(s) && HandlesDistinct(s)
  }

  // What a create that has still to read its record knows about it.
  predicate StarterOk(s: System, st: Starter) {
    if st.lost then st.loose
    else
      && st.rec in s.recs && s.recs[st.rec].started && s.recs[st.rec].detached == st.loose
      && (!st.loose ==> st.rec in s.list && !s.recs[st.rec].joining)
  }

  ghost predicate StartersOk(s: System) {
    forall d | d in s.starters :: d !in s.calls && StarterOk(s, s.starters[d])
  }

  ghost predicate Inv(s: System) {
    Core(s) && StartersOk(s)
  }

  // ---------------------------------------------------------------- every step keeps it

  // A step that moves one call and one record, both named; everything else stands still.
  ghost predicate Moves(s: System, t: System, c: nat, rec: nat) {
    && (forall d | d != c :: (d in t.calls <==> d in s.calls) && (d in t.calls ==> t.calls[d] == s.calls[d]))
    && (forall r | r != rec :: (r in t.recs <==> r in s.recs) && (r in t.recs ==> t.recs[r] == s.recs[r]))
    && (forall r | r != rec :: r in t.list <==> r in s.list)
    && (c in s.calls ==> s.calls[c].rec == rec) && (c in t.calls ==> t.calls[c].rec == rec)
    && (forall d | d in s.calls && s.calls[d].rec == rec :: d == c)
  }

  // What has to hold of the record and the call that moved.
  ghost predicate MovedOk(t: System, c: nat, rec: nat) {
    && Distinct(t.list)
    && (c in t.calls ==> CallOk(t, t.calls[c]))
    && (rec in t.list ==> rec in t.recs && t.recs[rec].handleOpen && t.recs[rec].id != 0)
    && (rec in t.recs ==>
          && RecOk(t.recs[rec])
          && (rec !in t.list || t.recs[rec].joining || !t.recs[rec].started ==> c in t.calls))
  }

  lemma {:induction false} MoveKeepsRecords(s: System, t: System, c: nat, rec: nat)
    requires RecordsOk(s) && Moves(s, t, c, rec) && MovedOk(t, c, rec)
    ensures RecordsOk(t)
  {
    forall d | d in t.calls ensures CallOk(t, t.calls[d]) {
      if d != c { assert CallOk(s, s.calls[d]); }
    }
  }

  lemma {:induction false} MoveKeepsWorked(s: System, t: System, c: nat, rec: nat, r: nat)
    requires Moves(s, t, c, rec) && MovedOk(t, c, rec)
    requires r in t.recs && (r !in t.list || t.recs[r].joining || !t.recs[r].started)
    requires r in s.recs && (r !in s.list || s.recs[r].joining || !s.recs[r].started) ==> Worked(s, r)
    ensures Worked(t, r)
  {
    if r == rec {
      assert t.calls[c].rec == r;
    } else {
      var d :| d in s.calls && s.calls[d].rec == r;
      assert t.calls[d].rec == r;
    }
  }

  lemma {:induction false} MoveKeeps(s: System, t: System, c: nat, rec: nat)
    requires Core(s) && Moves(s, t, c, rec) && MovedOk(t, c, rec)
    requires rec in t.recs && t.recs[rec].handleOpen ==>
      forall r | r in s.recs && r != rec && s.recs[r].handleOpen :: s.recs[r].id != t.recs[rec].id
    ensures Core(t)
  {
    MoveKeepsRecords(s, t, c, rec);
    forall r | r in t.recs && (r !in t.list || t.recs[r].joining || !t.recs[r].started) ensures Worked(t, r) {
      MoveKeepsWorked(s, t, c, rec, r);
    }
  }

  lemma {:induction false} CreatingKeeps(s: System, e: Event)
    requires Core(s) && Enabled(s, e) && (e.AbortCreate? || e.Start?)
    ensures Core(Next(s, e))
  {
    var rec := s.calls[e.c].rec;
    assert CallOk(s, s.calls[e.c]);
    MoveKeeps(s, Next(s, e), e.c, rec);
  }

  lemma {:induction false} AddKeeps(s: System, e: Event)
    requires Core(s) && Enabled(s, e) && e.Add?
    ensures Core(Next(s, e))
  {
    var rec := s.calls[e.c].rec;
    assert CallOk(s, s.calls[e.c]);
    MoveKeeps(s, Next(s, e), e.c, rec);
  }

  lemma {:induction false} UnlistingKeeps(s: System, e: Event)
    requires Core(s) && Enabled(s, e) && (e.UnlistFailed? || e.UnlistJoined?)
    ensures Core(Next(s, e))
  {
    var rec := s.calls[e.c].rec;
    assert CallOk(s, s.calls[e.c]);
    WithoutMembers(s.list, rec);
    MoveKeeps(s, Next(s, e), e.c, rec);
  }

  lemma {:induction false} WaitingKeeps(s: System, e: Event)
    requires Core(s) && Enabled(s, e) && (e.Waited? || e.ClearJoining?)
    ensures Core(Next(s, e))
  {
    var rec := s.calls[e.c].rec;
    assert CallOk(s, s.calls[e.c]);
    MoveKeeps(s, Next(s, e), e.c, rec);
  }

  lemma {:induction false} FreeingKeeps(s: System, e: Event)
    requires Core(s) && Enabled(s, e) && (e.Close? || e.Free?)
    ensures Core(Next(s, e))
  {
    var rec := s.calls[e.c].rec;
    assert CallOk(s, s.calls[e.c]);
    MoveKeeps(s, Next(s, e), e.c, rec);
  }

  lemma {:induction false} CreateKeeps(s: System, e: Event)
    requires Core(s) && e.Create? && Enabled(s, e)
    ensures Core(Next(s, e))
  {
    forall d | d in s.calls ensures s.calls[d].rec != e.rec { assert CallOk(s, s.calls[d]); }
    MoveKeeps(s, Next(s, e), e.c, e.rec);
  }

  // A record that is listed, started and not being joined is worked on by nobody.
  lemma {:induction false} NobodyWorks(s: System, rec: nat)
    requires Core(s) && rec in s.list && s.recs[rec].started && !s.recs[rec].joining
    ensures forall d | d in s.calls :: s.calls[d].rec != rec
  {
    forall d | d in s.calls ensures s.calls[d].rec != rec { assert CallOk(s, s.calls[d]); }
  }

  lemma {:induction false} JoinKeeps(s: System, e: Event)
    requires Core(s) && e.Join? && Enabled(s, e)
    ensures Core(Next(s, e))
  {
    var i := FindFrom(s, e.id, 0);
    if i >= 0 && !s.recs[s.list[i]].detached && !s.recs[s.list[i]].joining {
      NobodyWorks(s, s.list[i]);
      MoveKeeps(s, Next(s, e), e.c, s.list[i]);
    }
  }

  lemma {:induction false} ReapKeeps(s: System, e: Event)
    requires Core(s) && e.Reap? && Enabled(s, e)
    ensures Core(Next(s, e))
  {
    var i := VictimFrom(s, e.self, 0);
    if i >= 0 {
      var rec := s.list[i];
      NobodyWorks(s, rec);
      WithoutMembers(s.list, rec);
      MoveKeeps(s, Next(s, e), e.c, rec);
    }
  }

  // Writing fields of one record, none of which decides who works on it.
  ghost predicate Rewrites(s: System, rec: nat, r: Rec) {
    && rec in s.recs && RecOk(r)
    && r.id == s.recs[rec].id && r.joining == s.recs[rec].joining && r.started == s.recs[rec].started
    && r.handleOpen == s.recs[rec].handleOpen && (s.recs[rec].exited ==> r.exited)
    && (r.detached != s.recs[rec].detached ==>
          r.detached && rec in s.list && s.recs[rec].started && !s.recs[rec].joining)
  }

  lemma {:induction false} WriteKeepsCall(s: System, rec: nat, r: Rec, d: nat)
    requires Core(s) && Rewrites(s, rec, r) && d in s.calls
    ensures CallOk(Write(s, rec, r), s.calls[d])
  {
    assert CallOk(s, s.calls[d]);
    if r.detached != s.recs[rec].detached { NobodyWorks(s, rec); }
  }

  lemma {:induction false} WriteKeepsRecords(s: System, rec: nat, r: Rec)
    requires Core(s) && Rewrites(s, rec, r)
    ensures RecordsOk(Write(s, rec, r))
  {
    var t := Write(s, rec, r);
    forall d | d in t.calls ensures CallOk(t, t.calls[d]) { WriteKeepsCall(s, rec, r, d); }
  }

  lemma {:induction false} WriteKeeps(s: System, rec: nat, r: Rec)
    requires Core(s) && Rewrites(s, rec, r)
    ensures Core(Write(s, rec, r))
  {
    var t := Write(s, rec, r);
    WriteKeepsRecords(s, rec, r);
    forall q | Worked(s, q) ensures Worked(t, q) {
      var d :| d in s.calls && s.calls[d].rec == q;
      assert t.calls[d].rec == q;
    }
  }

  // The core says nothing about the starters.
  lemma {:induction false} StartersAside(s: System, starters: map<nat, Starter>)
    requires Core(s)
    ensures Core(s.(starters := starters))
  {
    var t := s.(starters := starters);
    forall d | d in t.calls ensures CallOk(t, t.calls[d]) { assert CallOk(s, s.calls[d]); }
    assert forall q | Worked(s, q) :: Worked(t, q);
  }

  lemma {:induction false} DetachKeeps(s: System, e: Event)
    requires Core(s) && e.Detach? && Enabled(s, e)
    ensures Core(Next(s, e))
  {
    var i := FindFrom(s, e.id, 0);
    if i >= 0 && !s.recs[s.list[i]].detached && !s.recs[s.list[i]].joining {
      var t := Write(s, s.list[i], s.recs[s.list[i]].(detached := true));
      WriteKeeps(s, s.list[i], s.recs[s.list[i]].(detached := true));
      StartersAside(t, Loosened(s.starters, s.list[i]));
    }
  }

  lemma {:induction false} ThreadKeeps(s: System, e: Event)
    requires Core(s) && Enabled(s, e) && (e.Finish? || e.Exit?)
    ensures Core(Next(s, e))
  {
    if e.Finish? {
      WriteKeeps(s, e.rec, s.recs[e.rec].(ret := e.ret, finished := true));
    } else {
      WriteKeeps(s, e.rec, s.recs[e.rec].(exited := true));
    }
  }

  lemma {:induction false} CoreKeeps(s: System, e: Event)
    requires Core(s) && Enabled(s, e)
    ensures Core(Next(s, e))
  {
    match e {
      case Create(_, _, _, _) => CreateKeeps(s, e);
      case AbortCreate(_) => CreatingKeeps(s, e);
      case Add(_) => AddKeeps(s, e);
      case Start(_, _) => CreatingKeeps(s, e);
      case Finish(_, _) => ThreadKeeps(s, e);
      case Exit(_) => ThreadKeeps(s, e);
      case Read(c) => StartersAside(s, s.starters - {c});
      case UnlistFailed(_) => UnlistingKeeps(s, e);
      case Join(_, _, _) => JoinKeeps(s, e);
      case Waited(_, _) => WaitingKeeps(s, e);
      case ClearJoining(_) => WaitingKeeps(s, e);
      case UnlistJoined(_) => UnlistingKeeps(s, e);
      case Detach(_, _) => DetachKeeps(s, e);
      case Reap(_, _) => ReapKeeps(s, e);
      case Close(_) => FreeingKeeps(s, e);
      case Free(_) => FreeingKeeps(s, e);
    }
  }

  // ---------------------------------------------------------------- the starters

  // What a step has to leave alone for a starter to stay as it is.
  lemma {:induction false} StarterStays(s: System, t: System, st: Starter)
    requires StarterOk(s, st)
    requires !st.lost ==>
      && st.rec in t.recs && t.recs[st.rec].started && t.recs[st.rec].detached == s.recs[st.rec].detached
      && (!st.loose ==> st.rec in t.list && !t.recs[st.rec].joining)
    ensures StarterOk(t, st)
  {
  }

  // The calls that create, wait and close leave the records of the starters alone.
  lemma {:induction false} CallLeavesStarter(s: System, e: Event, st: Starter)
    requires Enabled(s, e) && StarterOk(s, st)
    requires e.AbortCreate? || e.Add? || e.Start? || e.Waited? || e.ClearJoining? || e.Close?
    requires CallOk(s, s.calls[e.c])
    ensures StarterOk(Next(s, e), st)
  {
    StarterStays(s, Next(s, e), st);
  }

  lemma {:induction false} UnlistLeavesStarter(s: System, e: Event, st: Starter)
    requires Enabled(s, e) && StarterOk(s, st) && Distinct(s.list)
    requires e.UnlistFailed? || e.UnlistJoined?
    requires CallOk(s, s.calls[e.c])
    ensures StarterOk(Next(s, e), st)
  {
    WithoutMembers(s.list, s.calls[e.c].rec);
    StarterStays(s, Next(s, e), st);
  }

  lemma {:induction false} ThreadLeavesStarter(s: System, e: Event, st: Starter)
    requires Enabled(s, e) && StarterOk(s, st)
    requires e.Create? || e.Finish? || e.Exit? || e.Read?
    ensures StarterOk(Next(s, e), st)
  {
    StarterStays(s, Next(s, e), st);
  }

  lemma {:induction false} JoinLeavesStarter(s: System, e: Event, d: nat)
    requires Enabled(s, e) && e.Join? && d in s.starters && StarterOk(s, s.starters[d])
    ensures StarterOk(Next(s, e), s.starters[d])
  {
    var st := s.starters[d];
    if !st.lost { assert Starting(s, st.rec); }
    StarterStays(s, Next(s, e), st);
  }

  lemma {:induction false} ReapLeavesStarter(s: System, e: Event, st: Starter)
    requires Enabled(s, e) && e.Reap? && StarterOk(s, st) && Distinct(s.list)
    ensures StarterOk(Next(s, e), st)
  {
    var i := VictimFrom(s, e.self, 0);
    if i >= 0 { WithoutMembers(s.list, s.list[i]); }
    StarterStays(s, Next(s, e), st);
  }

  lemma {:induction false} DetachMovesStarter(s: System, e: Event, d: nat)
    requires Enabled(s, e) && e.Detach? && d in s.starters && StarterOk(s, s.starters[d])
    ensures d in Next(s, e).starters && StarterOk(Next(s, e), Next(s, e).starters[d])
  {
    var st := s.starters[d];
    var i := FindFrom(s, e.id, 0);
    if i >= 0 && !s.recs[s.list[i]].detached && !s.recs[s.list[i]].joining && st.rec != s.list[i] {
      StarterStays(s, Next(s, e), st);
    }
  }

  lemma {:induction false} FreeMovesStarter(s: System, e: Event, d: nat)
    requires Enabled(s, e) && e.Free? && d in s.starters && StarterOk(s, s.starters[d])
    requires CallOk(s, s.calls[e.c])
    ensures d in Next(s, e).starters && StarterOk(Next(s, e), Next(s, e).starters[d])
  {
    var st := s.starters[d];
    if st.rec != s.calls[e.c].rec { StarterStays(s, Next(s, e), st); }
  }

  // Only its own read, a detach and a free change what is known of a starter.
  lemma {:induction false} OthersLeaveStarter(s: System, e: Event, d: nat)
    requires Core(s) && Enabled(s, e) && d in s.starters && StarterOk(s, s.starters[d])
    requires !e.Detach? && !e.Free?
    ensures StarterOk(Next(s, e), s.starters[d])
  {
    var st := s.starters[d];
    if e.Join? {
      JoinLeavesStarter(s, e, d);
    } else if e.Reap? {
      ReapLeavesStarter(s, e, st);
    } else if e.UnlistFailed? || e.UnlistJoined? {
      UnlistLeavesStarter(s, e, st);
    } else if e.Create? || e.Finish? || e.Exit? || e.Read? {
      ThreadLeavesStarter(s, e, st);
    } else {
      CallLeavesStarter(s, e, st);
    }
  }

  lemma {:induction false} StarterMoves(s: System, e: Event, d: nat)
    requires Enabled(s, e) && d in s.starters && d !in s.calls && e != Read(d)
    ensures d in Next(s, e).starters && d !in Next(s, e).calls
    ensures Next(s, e).starters[d].rec == s.starters[d].rec
    ensures !e.Detach? && !e.Free? ==> Next(s, e).starters[d] == s.starters[d]
  {
  }

  lemma {:induction false} StarterKeeps(s: System, e: Event, d: nat)
    requires Inv(s) && Enabled(s, e) && d in s.starters && e != Read(d)
    ensures d in Next(s, e).starters && d !in Next(s, e).calls
    ensures StarterOk(Next(s, e), Next(s, e).starters[d])
  {
    StarterMoves(s, e, d);
    if e.Detach? {
      DetachMovesStarter(s, e, d);
    } else if e.Free? {
      FreeMovesStarter(s, e, d);
    } else {
      OthersLeaveStarter(s, e, d);
    }
  }

  lemma {:induction false} StartMakesStarter(s: System, e: Event, d: nat)
    requires Enabled(s, e) && d !in s.starters && d in Next(s, e).starters
    ensures e == Start(d, true)
    ensures Next(s, e).starters[d] == Starter(s.calls[d].rec, s.recs[s.calls[d].rec].detached, false)
    ensures CallOk(s, s.calls[d]) ==> d !in Next(s, e).calls && StarterOk(Next(s, e), Next(s, e).starters[d])
  {
  }

  /** Every section and step keeps each record with exactly one party that may free it. */
  lemma {:induction false} StepKeeps(s: System, e: Event)
    requires Inv(s) && Enabled(s, e)
    ensures Inv(Next(s, e))
  {
    CoreKeeps(s, e);
    var t := Next(s, e);
    forall d | d in t.starters ensures d !in t.calls && StarterOk(t, t.starters[d]) {
      if d in s.starters {
        StarterKeeps(s, e, d);
      } else {
        StartMakesStarter(s, e, d);
        assert CallOk(s, s.calls[d]);
      }
    }
  }

  // ---------------------------------------------------------------- every run

  const START := System(map[], [], map[], map[])

  ghost predicate Runs(s: System, es: seq<Event>)
    decreases |es|
  {
    es == [] || (Enabled(s, es[0]) && Runs(Next(s, es[0]), es[1..]))
  }

  ghost function After(s: System, es: seq<Event>): System
    requires Runs(s, es)
    decreases |es|
  {
    if es == [] then s else After(Next(s, es[0]), es[1..])
  }

  lemma {:induction false} RunKeeps(s: System, es: seq<Event>)
    requires Inv(s) && Runs(s, es)
    ensures Inv(After(s, es))
    decreases |es|
  {
    if es != [] {
      StepKeeps(s, es[0]);
      RunKeeps(Next(s, es[0]), es[1..]);
    }
  }

  lemma {:induction false} StartInv()
    ensures Inv(START)
  {
  }

  // The guards ask only what phase a call is in; that its record is still there follows.
  lemma {:induction false} CallsFindTheirRecords(s: System)
    requires Inv(s)
    ensures forall c | c in s.calls :: s.calls[c].rec in s.recs
  {
    forall c | c in s.calls ensures s.calls[c].rec in s.recs { assert CallOk(s, s.calls[c]); }
  }

  // How often the record at address `rec` was created, and how often it was freed.
  ghost function Creates(es: seq<Event>, rec: nat): nat {
    if es == [] then 0 else (if es[0].Create? && es[0].rec == rec then 1 else 0) + Creates(es[1..], rec)
  }

  ghost function Frees(s: System, es: seq<Event>, rec: nat): nat
    requires Runs(s, es)
    decreases |es|
  {
    if es == [] then 0
    else (if es[0].Free? && s.calls[es[0].c].rec == rec then 1 else 0) + Frees(Next(s, es[0]), es[1..], rec)
  }

  lemma {:induction false} StepBalance(s: System, e: Event, rec: nat)
    requires Enabled(s, e) && forall c | c in s.calls :: s.calls[c].rec in s.recs
    ensures
      (if e.Free? && s.calls[e.c].rec == rec then 1 else 0) + (if rec in Next(s, e).recs then 1 else 0)
        == (if e.Create? && e.rec == rec then 1 else 0) + (if rec in s.recs then 1 else 0)
  {
  }

  // From any state of the invariant: every Free of the run is counted, whatever it finds at its address.
  lemma {:induction false} FreesBalance(s: System, es: seq<Event>, rec: nat)
    requires Inv(s) && Runs(s, es)
    ensures
      Frees(s, es, rec) + (if rec in After(s, es).recs then 1 else 0)
        == Creates(es, rec) + (if rec in s.recs then 1 else 0)
    decreases |es|
  {
    if es != [] {
      CallsFindTheirRecords(s);
      StepBalance(s, es[0], rec);
      StepKeeps(s, es[0]);
      FreesBalance(Next(s, es[0]), es[1..], rec);
    }
  }

  /** Over every run from the start each record is freed exactly once for each time it was created, or is still live. */
  lemma {:induction false} FreedOncePerCreate(es: seq<Event>, rec: nat)
    requires Runs(START, es)
    ensures Creates(es, rec) == Frees(START, es, rec) + (if rec in After(START, es).recs then 1 else 0)
  {
    StartInv();
    FreesBalance(START, es, rec);
  }

  /**
   Memory is freed only when it is live and off the list, its thread does not run, its handle is closed and
   no call in any phase knows it, except for the last read of a create whose thread is detached.
   */
  lemma {:induction false} FreeIsSafe(s: System, c: nat)
    requires Inv(s) && Enabled(s, Free(c))
    ensures
      var rec := s.calls[c].rec;
      && rec in s.recs && rec !in s.list && !s.recs[rec].handleOpen
      && (s.recs[rec].exited || !s.recs[rec].started)
      && (forall d | d in s.calls && d != c :: s.calls[d].rec != rec)
      && (forall d | d in s.starters && !s.starters[d].lost && s.starters[d].rec == rec :: s.starters[d].loose)
  {
    assert CallOk(s, s.calls[c]);
    forall d | d in s.starters && !s.starters[d].lost && s.starters[d].rec == s.calls[c].rec
      ensures s.starters[d].loose
    {
      assert StarterOk(s, s.starters[d]);
    }
  }

  /** Who gives a record back is settled by its fate: the joiner, the reaper, or the create that failed. */
  lemma {:induction false} FreerIsDetermined(s: System, c: nat)
    requires Inv(s) && c in s.calls && (s.calls[c].Unlisted? || s.calls[c].Closed?)
    ensures
      var r := s.recs[s.calls[c].rec];
      match s.calls[c].why
      case Joined => r.joining && !r.detached && r.exited
      case Reaped => r.detached && !r.joining && r.exited
      case CreateFailed => !r.started
    ensures forall d | d in s.calls && s.calls[d].rec == s.calls[c].rec :: d == c
  {
    assert CallOk(s, s.calls[c]);
  }

  // Three kinds of steps take records off the list.
  lemma {:induction false} Unlisters(s: System, e: Event, rec: nat)
    requires Enabled(s, e) && rec in s.list && rec !in Next(s, e).list
    ensures e.UnlistFailed? || e.UnlistJoined? || e.Reap?
  {
  }

  /** No record is taken from the list while a joiner waits on it, except by that joiner. */
  lemma {:induction false} JoinerKeepsItsRecord(s: System, e: Event, c: nat)
    requires Inv(s) && Enabled(s, e) && c in s.calls && InJoin(s.calls[c])
    requires s.calls[c].rec !in Next(s, e).list
    ensures e == UnlistJoined(c)
  {
    var rec := s.calls[c].rec;
    assert CallOk(s, s.calls[c]);
    Unlisters(s, e, rec);
    if e.Reap? {
      var i := VictimFrom(s, e.self, 0);
      if i >= 0 { WithoutMembers(s.list, s.list[i]); }
    } else {
      WithoutMembers(s.list, s.calls[e.c].rec);
    }
  }

  /** Two listed threads never share an id, so an id names at most one record. */
  lemma {:induction false} ListedIdsDistinct(s: System, i: nat, j: nat)
    requires Inv(s) && i < j < |s.list|
    ensures s.recs[s.list[i]].id != s.recs[s.list[j]].id
  {
    assert s.list[i] in s.list && s.list[j] in s.list;
  }

  lemma {:induction false} ResultsStay(s: System, e: Event, rec: nat)
    requires Enabled(s, e) && rec in s.recs && s.recs[rec].exited
    requires e.Free? ==> s.calls[e.c].rec != rec
    ensures rec in Next(s, e).recs && Next(s, e).recs[rec].ret == s.recs[rec].ret
  {
    if e.Reap? { assert Next(s, e).recs == s.recs; }
  }

  /** What join hands out is final: once the wait has succeeded nobody writes the result any more. */
  lemma {:induction false} JoinedResultIsFinal(s: System, e: Event, c: nat)
    requires Inv(s) && Enabled(s, e) && c in s.calls && s.calls[c].JoinReady?
    ensures s.recs[s.calls[c].rec].finished
    ensures var t := Next(s, e); s.calls[c].rec in t.recs && t.recs[s.calls[c].rec].ret == s.recs[s.calls[c].rec].ret
  {
    assert CallOk(s, s.calls[c]);
    if e.Free? { assert CallOk(s, s.calls[e.c]); }
    ResultsStay(s, e, s.calls[c].rec);
  }

  /** Once no call is under way, every live record is on the list with its thread started and its handle open. */
  lemma {:induction false} NothingLost(s: System, rec: nat)
    requires Inv(s) && s.calls == map[] && rec in s.recs
    ensures rec in s.list && s.recs[rec].started && !s.recs[rec].joining && s.recs[rec].handleOpen
  {
    assert !Worked(s, rec);
  }

  // ---------------------------------------------------------------- the last read of a create

  // Runs before create d reads its record, in which nobody uses an id before its create has returned.
  ghost predicate Meanwhile(s: System, es: seq<Event>, d: nat)
    ensures Meanwhile(s, es, d) ==> Runs(s, es)
    decreases |es|
  {
    || es == []
    || (&& Enabled(s, es[0]) && es[0] != Read(d) && (es[0].Detach? ==> UsableId(s, es[0].id))
        && Meanwhile(Next(s, es[0]), es[1..], d))
  }

  // After such a run the record that create d has still to read is gone.
  ghost predicate LostBy(s: System, es: seq<Event>, d: nat) {
    && Meanwhile(s, es, d)
    && var t := After(s, es);
       d in t.starters && t.starters[d].lost
  }

  lemma {:induction false} CreateMovesOn(s: System, e: Event, c: nat)
    requires Enabled(s, e) && (e.AbortCreate? || e.Add? || e.Start?) && e.c == c
    ensures
      var rec := s.calls[c].rec;
      var t := Next(s, e);
      if e == Start(c, true) then c in t.starters && t.starters[c] == Starter(rec, s.recs[rec].detached, false)
      else c in t.calls && t.calls[c].rec == rec && rec in t.recs && t.recs[rec].detached == s.recs[rec].detached
  {
  }

  lemma {:induction false} JoinKeepsAttribute(s: System, e: Event, rec: nat)
    requires Enabled(s, e) && e.Join? && rec in s.recs
    ensures rec in Next(s, e).recs && Next(s, e).recs[rec].detached == s.recs[rec].detached
  {
  }

  lemma {:induction false} RecordsKeepAttribute(s: System, e: Event, rec: nat)
    requires Enabled(s, e) && !e.Detach? && !e.Create? && rec in s.recs
    requires e.Free? ==> s.calls[e.c].rec != rec
    ensures rec in Next(s, e).recs && Next(s, e).recs[rec].detached == s.recs[rec].detached
  {
    if e.Join? {
      JoinKeepsAttribute(s, e, rec);
    } else if e.Reap? {
      assert Next(s, e).recs == s.recs;
    } else if e.Free? {
      assert Next(s, e).recs == s.recs - {s.calls[e.c].rec};
    }
  }

  lemma {:induction false} CallStandsStill(s: System, e: Event, c: nat)
    requires Enabled(s, e) && c in s.calls && (s.calls[c].Created? || s.calls[c].Listed?)
    requires !((e.AbortCreate? || e.Add? || e.Start?) && e.c == c)
    ensures c in Next(s, e).calls && Next(s, e).calls[c] == s.calls[c]
  {
  }

  /** The create hands its thread over as detached exactly if its attributes said so: nobody changes that before. */
  lemma {:induction false} AttributeArrives(s: System, e: Event, c: nat)
    requires Inv(s) && Enabled(s, e) && c in s.calls && (s.calls[c].Created? || s.calls[c].Listed?)
    ensures
      var rec := s.calls[c].rec;
      var t := Next(s, e);
      if e == Start(c, true) then c in t.starters && t.starters[c] == Starter(rec, s.recs[rec].detached, false)
      else c in t.calls && t.calls[c].rec == rec && rec in t.recs && t.recs[rec].detached == s.recs[rec].detached
  {
    assert CallOk(s, s.calls[c]);
    if (e.AbortCreate? || e.Add? || e.Start?) && e.c == c {
      CreateMovesOn(s, e, c);
    } else {
      CallStandsStill(s, e, c);
      if e.Detach? || e.Create? {
        assert forall i | 0 <= i < |s.list| && s.list[i] == s.calls[c].rec :: !s.recs[s.list[i]].started;
      } else {
        RecordsKeepAttribute(s, e, s.calls[c].rec);
      }
    }
  }

  lemma {:induction false} FirmStep(s: System, e: Event, d: nat)
    requires Inv(s) && d in s.starters && !s.starters[d].loose
    requires Enabled(s, e) && e != Read(d) && (e.Detach? ==> UsableId(s, e.id))
    ensures d in Next(s, e).starters && !Next(s, e).starters[d].loose
  {
    assert StarterOk(s, s.starters[d]);
    StarterMoves(s, e, d);
    if e.Detach? {
      assert Starting(s, s.starters[d].rec);
    } else if e.Free? {
      assert CallOk(s, s.calls[e.c]);
    }
  }

  // In a run of this kind a create whose thread is not detached keeps its record.
  lemma {:induction false} FirmStays(s: System, es: seq<Event>, d: nat)
    requires Inv(s) && d in s.starters && !s.starters[d].loose && Meanwhile(s, es, d)
    ensures !LostBy(s, es, d)
    decreases |es|
  {
    assert StarterOk(s, s.starters[d]);
    if es != [] {
      FirmStep(s, es[0], d);
      StepKeeps(s, es[0]);
      FirmStays(Next(s, es[0]), es[1..], d);
    }
  }

  lemma {:induction false} UnusedNumber(ids: set<nat>) returns (c: nat)
    ensures forall k | k in ids :: k < c
  {
    if ids == {} {
      c := 0;
    } else {
      var k :| k in ids;
      var m := UnusedNumber(ids - {k});
      assert ids == (ids - {k}) + {k};
      c := if m <= k then k + 1 else m;
    }
  }

  // A run may be put together from a first event and the rest.
  lemma {:induction false} LostLater(s: System, e: Event, es: seq<Event>, d: nat)
    requires Enabled(s, e) && e != Read(d) && !e.Detach? && LostBy(Next(s, e), es, d)
    ensures LostBy(s, [e] + es, d)
  {
    var all := [e] + es;
    assert all[0] == e && all[1..] == es;
    assert Meanwhile(s, all, d);
  }

  lemma {:induction false} FreeLoses(s: System, d: nat, c: nat) returns (es: seq<Event>)
    requires Inv(s) && d in s.starters && !s.starters[d].lost
    requires c in s.calls && s.calls[c].rec == s.starters[d].rec && s.calls[c].Closed?
    ensures LostBy(s, es, d)
  {
    var e := Free(c);
    StarterMoves(s, e, d);
    assert LostBy(Next(s, e), [], d);
    LostLater(s, e, [], d);
    es := [e] + [];
  }

  // Once the record is off the list, its owner closes and frees it.
  lemma {:induction false} OwnerFrees(s: System, d: nat, c: nat) returns (es: seq<Event>)
    requires Inv(s) && d in s.starters && !s.starters[d].lost
    requires c in s.calls && s.calls[c].rec == s.starters[d].rec && (s.calls[c].Unlisted? || s.calls[c].Closed?)
    ensures LostBy(s, es, d)
  {
    if s.calls[c].Unlisted? {
      var e := Close(c);
      StepKeeps(s, e);
      StarterMoves(s, e, d);
      var rest := FreeLoses(Next(s, e), d, c);
      LostLater(s, e, rest, d);
      es := [e] + rest;
    } else {
      es := FreeLoses(s, d, c);
    }
  }

  lemma {:induction false} ReapShortens(s: System, e: Event, rec: nat)
    requires Inv(s) && e.Reap? && Enabled(s, e) && rec in s.list && CanReap(s, rec, e.self)
    ensures |Next(s, e).list| < |s.list| && Next(s, e).recs == s.recs
  {
    var i := VictimFrom(s, e.self, 0);
    assert i >= 0 by {
      var k :| 0 <= k < |s.list| && s.list[k] == rec;
    }
    WithoutAt(s.list, i);
  }

  // A detached thread that has exited is reaped after those before it in the list.
  lemma {:induction false} ReapersGetThere(s: System, d: nat) returns (es: seq<Event>)
    requires Inv(s) && d in s.starters && !s.starters[d].lost && s.starters[d].loose
    requires s.recs[s.starters[d].rec].exited
    ensures LostBy(s, es, d)
    decreases |s.list|
  {
    var rec := s.starters[d].rec;
    assert StarterOk(s, s.starters[d]);
    if rec !in s.list {
      assert Worked(s, rec);
      var c :| c in s.calls && s.calls[c].rec == rec;
      assert CallOk(s, s.calls[c]);
      es := OwnerFrees(s, d, c);
    } else {
      var c := UnusedNumber(s.calls.Keys + s.starters.Keys);
      var e := Reap(c, s.recs[rec].id + 1);
      ReapShortens(s, e, rec);
      StepKeeps(s, e);
      StarterMoves(s, e, d);
      var rest := ReapersGetThere(Next(s, e), d);
      LostLater(s, e, rest, d);
      es := [e] + rest;
    }
  }

  lemma {:induction false} ThreadExits(s: System, d: nat) returns (es: seq<Event>)
    requires Inv(s) && d in s.starters && !s.starters[d].lost && s.starters[d].loose
    requires var rec := s.starters[d].rec; rec in s.recs && s.recs[rec].finished && !s.recs[rec].exited
    ensures LostBy(s, es, d)
  {
    var e := Exit(s.starters[d].rec);
    assert RecOk(s.recs[s.starters[d].rec]);
    StepKeeps(s, e);
    var rest := ReapersGetThere(Next(s, e), d);
    LostLater(s, e, rest, d);
    es := [e] + rest;
  }

  // The thread of a starter can always run to its end.
  lemma {:induction false} ThreadEnds(s: System, d: nat) returns (es: seq<Event>)
    requires Inv(s) && d in s.starters && !s.starters[d].lost && s.starters[d].loose
    ensures LostBy(s, es, d)
  {
    var rec := s.starters[d].rec;
    assert StarterOk(s, s.starters[d]);
    if s.recs[rec].exited {
      es := ReapersGetThere(s, d);
    } else if s.recs[rec].finished {
      es := ThreadExits(s, d);
    } else {
      var e := Finish(rec, 0);
      StepKeeps(s, e);
      var rest := ThreadExits(Next(s, e), d);
      LostLater(s, e, rest, d);
      es := [e] + rest;
    }
  }

  /**
   The last read of a create may find its record gone if and only if the thread is detached.  Otherwise
   the record is live at the read, whatever all other threads do, as long as nobody uses an id before
   the create that produces it has returned.
   */
  lemma {:induction false} LastReadIsSafeUnlessDetached(s: System, d: nat)
    requires Inv(s) && d in s.starters && !s.starters[d].lost
    ensures s.starters[d].rec in s.recs
    ensures (exists es :: LostBy(s, es, d)) <==> s.starters[d].loose
  {
    assert StarterOk(s, s.starters[d]);
    if s.starters[d].loose {
      var es := ThreadEnds(s, d);
    } else {
      forall es | Meanwhile(s, es, d) ensures !LostBy(s, es, d) { FirmStays(s, es, d); }
    }
  }

  // A thread created detached ends and is reaped before its create has read the record for the last time.
  const OVERTAKEN: seq<Event> :=
    [Create(1, 7, 5, true), Add(1), Start(1, true), Finish(7, 0), Exit(7), Reap(2, 9), Close(2), Free(2)]

  // A joinable thread that detaches itself opens the same gap.
  const SELF_DETACHED: seq<Event> :=
    [Create(1, 7, 5, false), Add(1), Start(1, true), Detach(5, 5),
     Finish(7, 0), Exit(7), Reap(2, 9), Close(2), Free(2)]

  // Either ends with nothing left but the create that has still to read.
  const GONE := System(map[], [], map[], map[1 := Starter(7, true, true)])

  ghost predicate Reaches(s: System, es: seq<Event>, t: System) {
    Runs(s, es) && After(s, es) == t
  }

  lemma {:induction false} ReachesLater(s: System, e: Event, t: System, es: seq<Event>, u: System)
    requires Enabled(s, e) && Next(s, e) == t && Reaches(t, es, u)
    ensures Reaches(s, [e] + es, u)
  {
    var all := [e] + es;
    assert all[0] == e && all[1..] == es;
  }

  // The one record of these runs while its thread is up.
  function Up(detached: bool, finished: bool, exited: bool): System {
    System(
      map[7 := Rec(5, detached, false, finished, 0, true, exited, true)],
      [7], map[], map[1 := Starter(7, detached, false)])
  }

  // The record taken out by reaper 2, which is about to close it or to free it.
  function Out(r: Rec, call: Call): System {
    System(map[7 := r], [], map[2 := call], map[1 := Starter(7, true, false)])
  }

  lemma {:induction false} FreedFromOut(r: Rec)
    ensures Reaches(Out(r, Closed(7, Reaped)), [Free(2)], GONE)
  {
    var s := Out(r, Closed(7, Reaped));
    assert Next(s, Free(2)).recs == map[] && Next(s, Free(2)).calls == map[];
    assert Next(s, Free(2)).starters == GONE.starters;
    assert Reaches(GONE, [], GONE);
    ReachesLater(s, Free(2), GONE, [], GONE);
  }

  lemma {:induction false} ClosedAndFreed(r: Rec)
    ensures Reaches(Out(r, Unlisted(7, Reaped)), [Close(2), Free(2)], GONE)
  {
    var shut := Out(r.(handleOpen := false), Closed(7, Reaped));
    FreedFromOut(r.(handleOpen := false));
    ReachesLater(Out(r, Unlisted(7, Reaped)), Close(2), shut, [Free(2)], GONE);
    assert [Close(2)] + [Free(2)] == [Close(2), Free(2)];
  }

  lemma {:induction false} ReapedFromUp()
    ensures Reaches(Up(true, true, true), [Reap(2, 9), Close(2), Free(2)], GONE)
  {
    var r := Rec(5, true, false, true, 0, true, true, true);
    var off := Out(r, Unlisted(7, Reaped));
    ClosedAndFreed(r);
    ReachesLater(Up(true, true, true), Reap(2, 9), off, [Close(2), Free(2)], GONE);
    assert [Reap(2, 9)] + [Close(2), Free(2)] == [Reap(2, 9), Close(2), Free(2)];
  }

  lemma {:induction false} EndedFromUp()
    ensures Reaches(Up(true, false, false), [Finish(7, 0), Exit(7), Reap(2, 9), Close(2), Free(2)], GONE)
  {
    var tail := [Reap(2, 9), Close(2), Free(2)];
    ReapedFromUp();
    ReachesLater(Up(true, true, false), Exit(7), Up(true, true, true), tail, GONE);
    ReachesLater(Up(true, false, false), Finish(7, 0), Up(true, true, false), [Exit(7)] + tail, GONE);
    assert [Finish(7, 0)] + ([Exit(7)] + tail) == [Finish(7, 0), Exit(7), Reap(2, 9), Close(2), Free(2)];
  }

  lemma {:induction false} CreatedUp(detached: bool, es: seq<Event>)
    requires Reaches(Up(detached, false, false), es, GONE)
    ensures Reaches(START, [Create(1, 7, 5, detached), Add(1), Start(1, true)] + es, GONE)
  {
    var made := Rec(5, detached, false, false, 0, false, false, true);
    var new_ := System(map[7 := made], [], map[1 := Created(7)], map[]);
    var listed := System(map[7 := made], [7], map[1 := Listed(7)], map[]);
    ReachesLater(listed, Start(1, true), Up(detached, false, false), es, GONE);
    ReachesLater(new_, Add(1), listed, [Start(1, true)] + es, GONE);
    ReachesLater(START, Create(1, 7, 5, detached), new_, [Add(1)] + ([Start(1, true)] + es), GONE);
    assert [Create(1, 7, 5, detached)] + ([Add(1)] + ([Start(1, true)] + es))
        == [Create(1, 7, 5, detached), Add(1), Start(1, true)] + es;
  }

  lemma {:induction false} OwnDetach()
    ensures Enabled(Up(false, false, false), Detach(5, 5))
    ensures Next(Up(false, false, false), Detach(5, 5)) == Up(true, false, false)
  {
    assert FindFrom(Up(false, false, false), 5, 0) == 0;
  }

  lemma {:induction false} DetachedFromUp()
    ensures Reaches(
      Up(false, false, false), [Detach(5, 5), Finish(7, 0), Exit(7), Reap(2, 9), Close(2), Free(2)], GONE)
  {
    var end := [Finish(7, 0), Exit(7), Reap(2, 9), Close(2), Free(2)];
    EndedFromUp();
    OwnDetach();
    ReachesLater(Up(false, false, false), Detach(5, 5), Up(true, false, false), end, GONE);
    assert [Detach(5, 5)] + end == [Detach(5, 5), Finish(7, 0), Exit(7), Reap(2, 9), Close(2), Free(2)];
  }

  /** Two runs from the start in which the memory is given back while its create has still to read it. */
  lemma {:induction false} LastReadOvertaken()
    ensures Reaches(START, OVERTAKEN, GONE)
    ensures Reaches(START, SELF_DETACHED, GONE)
  {
    var end := [Finish(7, 0), Exit(7), Reap(2, 9), Close(2), Free(2)];
    EndedFromUp();
    CreatedUp(true, end);
    assert [Create(1, 7, 5, true), Add(1), Start(1, true)] + end == OVERTAKEN;
    var own := [Detach(5, 5), Finish(7, 0), Exit(7), Reap(2, 9), Close(2), Free(2)];
    DetachedFromUp();
    CreatedUp(false, own);
    assert [Create(1, 7, 5, false), Add(1), Start(1, true)] + own == SELF_DETACHED;
  }

  // ---------------------------------------------------------------- the list in memory

  predicate Shows(r: Rec, g: GuestThread, exited: set<nat>)
    reads g
  {
    g.id == r.id && g.detached == r.detached && g.joining == r.joining && (g.id in exited <==> r.exited)
  }

  // The nodes in memory show what the records say.
  ghost predicate Mirrors(s: System, nodes: seq<GuestThread>, exited: set<nat>)
    reads nodes
  {
    && |nodes| == |s.list|
    && forall i | 0 <= i < |nodes| :: s.list[i] in s.recs && Shows(s.recs[s.list[i]], nodes[i], exited)
  }

  lemma {:induction false} FirstIsFound(s: System, id: nat, i: nat, k: nat)
    requires i <= k <= |s.list|
    requires forall j | i <= j < k && s.list[j] in s.recs :: s.recs[s.list[j]].id != id
    requires k < |s.list| ==> s.list[k] in s.recs && s.recs[s.list[k]].id == id
    ensures FindFrom(s, id, i) == if k < |s.list| then k else -1
    decreases k - i
  {
    if i < k { FirstIsFound(s, id, i + 1, k); }
  }

  lemma {:induction false} FirstIsVictim(s: System, self: nat, i: nat, k: nat)
    requires i <= k <= |s.list|
    requires forall j | i <= j < k :: !CanReap(s, s.list[j], self)
    requires k < |s.list| ==> CanReap(s, s.list[k], self)
    ensures VictimFrom(s, self, i) == if k < |s.list| then k else -1
    decreases k - i
  {
    if i < k { FirstIsVictim(s, self, i + 1, k); }
  }

  /** The search along the links finds the record that the model's search finds. */
  method FindListed(threads: GuestThreads, id: nat, ghost s: System, ghost exited: set<nat>)
    returns (found: GuestThread?, ghost at: int)
    requires threads.Valid() && Mirrors(s, threads.nodes, exited)
    ensures at == FindFrom(s, id, 0)
    ensures if at < 0 then found == null else found == threads.nodes[at]
  {
    ghost var k;
    found, k := threads.Find(id);
    FirstIsFound(s, id, 0, k);
    at := if found == null then -1 else k;
  }

  // The two tests agree on every place of the list.
  lemma {:induction false} SameVictims(s: System, nodes: seq<GuestThread>, self: nat, exited: set<nat>)
    requires Mirrors(s, nodes, exited)
    ensures |nodes| == |s.list|
    ensures forall k | 0 <= k < |nodes| :: Reapable(nodes[k], self, exited) <==> CanReap(s, s.list[k], self)
  {
  }

  /** The section of the reaper takes out the node of the record that the model's step takes out. */
  method TakeListedVictim(threads: GuestThreads, self: nat, exited: set<nat>, ghost s: System)
    returns (victim: GuestThread?, ghost at: int)
    requires threads.Valid() && Mirrors(s, threads.nodes, exited)
    modifies threads, threads.nodes
    ensures threads.Valid() && at == VictimFrom(s, self, 0)
    ensures
      if at < 0 then victim == null && threads.nodes == old(threads.nodes)
      else at < |old(threads.nodes)| && victim == old(threads.nodes)[at]
           && threads.nodes == Without<GuestThread>(old(threads.nodes), victim)
  {
    SameVictims(s, threads.nodes, self, exited);
    ghost var k;
    victim, k := threads.TakeVictim(self, exited);
    FirstIsVictim(s, self, 0, k);
    at := if victim == null then -1 else k;
  }
}
