/**
 What join, detach and the reaper do to the thread they find, and whole joins from the call to the free.
 */
module ThreadCalls {
  import opened Common
  import opened ThreadList
  import opened ThreadLifecycle

  // ---------------------------------------------------------------- the first section of join, and detach

  // rec is the listed record with this id.
  predicate HasId(s: System, rec: nat, id: nat) { rec in s.list && rec in s.recs && s.recs[rec].id == id }

  // Nobody joins the thread and it has not been detached.
  predicate Joinable(s: System, rec: nat)
    requires rec in s.recs
  {
    !s.recs[rec].detached && !s.recs[rec].joining
  }

  datatype Answer = Done | ESRCH | EINVAL

  // What the section of join or detach answers at once; a join that may go on has no answer yet.
  function AnswerTo(s: System, id: nat): Answer {
    var i := FindFrom(s, id, 0);
    if i < 0 then ESRCH
    else if s.recs[s.list[i]].detached || s.recs[s.list[i]].joining then EINVAL
    else Done
  }

  // Ids of listed records differ, so the search finds the only record there is.
  lemma {:induction false} FoundIs(s: System, rec: nat, id: nat)
    requires Inv(s) && HasId(s, rec, id)
    ensures var i := FindFrom(s, id, 0); i >= 0 && s.list[i] == rec
  {
    var k :| 0 <= k < |s.list| && s.list[k] == rec;
    var i := FindFrom(s, id, 0);
    assert s.list[k] in s.recs;
    assert s.list[i] in s.list;
  }

  /** The answer is ESRCH if no listed record has the id, and EINVAL if it is detached or being joined. */
  lemma {:induction false} AnswerMeans(s: System, id: nat)
    requires Inv(s)
    ensures AnswerTo(s, id) == ESRCH <==> forall rec | rec in s.list :: !HasId(s, rec, id)
    ensures forall rec | HasId(s, rec, id) :: AnswerTo(s, id) == if Joinable(s, rec) then Done else EINVAL
  {
    forall rec | HasId(s, rec, id) ensures AnswerTo(s, id) == if Joinable(s, rec) then Done else EINVAL {
      FoundIs(s, rec, id);
    }
    var i := FindFrom(s, id, 0);
    if i >= 0 { assert HasId(s, s.list[i], id); }
  }

  /** A record that is added goes to the front of the list, before those already there, and its id finds it. */
  lemma {:induction false} AddListsFirst(s: System, c: nat)
    requires Inv(s) && Enabled(s, Add(c))
    ensures
      var t, rec := Next(s, Add(c)), s.calls[c].rec;
      && t.recs == s.recs && t.starters == s.starters && t.list != [] && t.list[0] == rec && t.list[1..] == s.list
      && HasId(t, rec, s.recs[rec].id) && FindFrom(t, s.recs[rec].id, 0) == 0
  {
  }

  /** A join of a joinable thread marks its record, waits for it, and changes nothing else. */
  lemma {:induction false} JoinJoins(s: System, c: nat, id: nat, self: nat, rec: nat)
    requires Inv(s) && Enabled(s, Join(c, id, self)) && HasId(s, rec, id) && Joinable(s, rec)
    ensures
      var t := Next(s, Join(c, id, self));
      && t.recs == s.recs[rec := s.recs[rec].(joining := true)]
      && t.calls == s.calls[c := Joining(rec)] && t.list == s.list && t.starters == s.starters
  {
    FoundIs(s, rec, id);
  }

  /** Any other join changes nothing. */
  lemma {:induction false} JoinRefuses(s: System, c: nat, id: nat, self: nat)
    requires Inv(s) && Enabled(s, Join(c, id, self))
    requires forall rec | HasId(s, rec, id) :: !Joinable(s, rec)
    ensures Next(s, Join(c, id, self)) == s
  {
    AnswerMeans(s, id);
    var i := FindFrom(s, id, 0);
    if i >= 0 { assert HasId(s, s.list[i], id); }
  }

  /** A detach of a joinable thread marks its record, and changes nothing else but what a pending read may expect. */
  lemma {:induction false} DetachDetaches(s: System, id: nat, self: nat, rec: nat)
    requires Inv(s) && Enabled(s, Detach(id, self)) && HasId(s, rec, id) && Joinable(s, rec)
    ensures
      var t := Next(s, Detach(id, self));
      && t.recs == s.recs[rec := s.recs[rec].(detached := true)] && t.calls == s.calls && t.list == s.list
      && t.starters.Keys == s.starters.Keys
  {
    FoundIs(s, rec, id);
  }

  lemma {:induction false} DetachRefuses(s: System, id: nat, self: nat)
    requires Inv(s) && Enabled(s, Detach(id, self))
    requires forall rec | HasId(s, rec, id) :: !Joinable(s, rec)
    ensures Next(s, Detach(id, self)) == s
  {
    AnswerMeans(s, id);
    var i := FindFrom(s, id, 0);
    if i >= 0 { assert HasId(s, s.list[i], id); }
  }

  /** The reaper takes a record off the list exactly if there is one to take, and then one it may take. */
  lemma {:induction false} ReapTakes(s: System, c: nat, self: nat)
    requires Inv(s) && Enabled(s, Reap(c, self))
    ensures
      var t := Next(s, Reap(c, self));
      if forall rec | rec in s.list :: !CanReap(s, rec, self) then t == s
      else
        && c in t.calls && t.calls[c].Unlisted? && t.calls[c].why == Reaped
        && var rec := t.calls[c].rec;
           rec in s.list && CanReap(s, rec, self) && rec !in t.list && t.recs == s.recs
           && forall r | r in s.list && r != rec :: r in t.list
  {
    var i := VictimFrom(s, self, 0);
    if i >= 0 {
      assert s.list[i] in s.list;
      WithoutMembers(s.list, s.list[i]);
    }
  }

  // ---------------------------------------------------------------- what a join hands out

  // What the thread at rec stored last, if it has stored anything since it was created.
  function StoredAfter(e: Event, rec: nat, before: Option<int>): Option<int> {
    match e
    case Create(_, r, _, _) => if r == rec then None else before
    case Finish(r, ret) => if r == rec then Some(ret) else before
    case _ => before
  }

  function StoredBy(es: seq<Event>, rec: nat, before: Option<int>): Option<int> {
    if es == [] then before else StoredBy(es[1..], rec, StoredAfter(es[0], rec, before))
  }

  // What a live record holds is what its thread stored last.
  predicate Holds(s: System, rec: nat, stored: Option<int>) {
    rec in s.recs ==> stored == if s.recs[rec].finished then Some(s.recs[rec].ret) else None
  }

  // Only its own thread writes the result of a record.
  lemma {:induction false} ResultKept(s: System, e: Event, rec: nat)
    requires Enabled(s, e) && rec in s.recs && !e.Finish? && !e.Create?
    ensures rec in Next(s, e).recs ==>
      Next(s, e).recs[rec].ret == s.recs[rec].ret && Next(s, e).recs[rec].finished == s.recs[rec].finished
  {
    if e.Reap? { assert Next(s, e).recs == s.recs; }
  }

  lemma {:induction false} NoneAppears(s: System, e: Event, rec: nat)
    requires Inv(s) && Enabled(s, e) && !e.Create? && rec !in s.recs
    ensures rec !in Next(s, e).recs
  {
    CallsFindTheirRecords(s);
  }

  lemma {:induction false} StepHolds(s: System, e: Event, rec: nat, stored: Option<int>)
    requires Inv(s) && Enabled(s, e) && Holds(s, rec, stored)
    ensures Holds(Next(s, e), rec, StoredAfter(e, rec, stored))
  {
    if !e.Finish? && !e.Create? {
      if rec in s.recs { ResultKept(s, e, rec); } else { NoneAppears(s, e, rec); }
    }
  }

  lemma {:induction false} RunHolds(s: System, es: seq<Event>, rec: nat, stored: Option<int>)
    requires Inv(s) && Runs(s, es) && Holds(s, rec, stored)
    ensures Holds(After(s, es), rec, StoredBy(es, rec, stored))
    decreases |es|
  {
    if es != [] {
      StepHolds(s, es[0], rec, stored);
      StepKeeps(s, es[0]);
      RunHolds(Next(s, es[0]), es[1..], rec, StoredAfter(es[0], rec, stored));
    }
  }

  /** What a join hands out, once its wait has succeeded, is what the thread stored last. */
  lemma {:induction false} JoinHandsOutTheResult(es: seq<Event>, c: nat)
    requires Runs(START, es) && c in After(START, es).calls && After(START, es).calls[c].JoinReady?
    ensures
      var s := After(START, es);
      var rec := s.calls[c].rec;
      rec in s.recs && StoredBy(es, rec, None) == Some(s.recs[rec].ret)
  {
    var s := After(START, es);
    StartInv();
    RunKeeps(START, es);
    assert CallOk(s, s.calls[c]);
    RunHolds(START, es, s.calls[c].rec, None);
  }

  // ---------------------------------------------------------------- whole joins

  // The end of every join whose thread has exited: the wait succeeds and the record goes.
  function JoinEnd(c: nat): seq<Event> { [Waited(c, true), UnlistJoined(c), Close(c), Free(c)] }

  // The state once the call is over and its record is gone.
  ghost function Cleared(s: System, c: nat, rec: nat): System {
    System(s.recs - {rec}, Without(s.list, rec), s.calls - {c}, Deserted(s.starters, rec))
  }

  lemma {:induction false} FreeEnds(s: System, c: nat)
    requires c in s.calls && s.calls[c].Closed?
    ensures var rec := s.calls[c].rec;
      Reaches(s, [Free(c)], System(s.recs - {rec}, s.list, s.calls - {c}, Deserted(s.starters, rec)))
  {
    assert [Free(c)][1..] == [];
  }

  lemma {:induction false} CloseEnds(s: System, c: nat)
    requires c in s.calls && s.calls[c].Unlisted?
    ensures var rec := s.calls[c].rec;
      Reaches(s, [Close(c), Free(c)], System(s.recs - {rec}, s.list, s.calls - {c}, Deserted(s.starters, rec)))
  {
    var rec, t := s.calls[c].rec, Next(s, Close(c));
    FreeEnds(t, c);
    assert t.recs - {rec} == s.recs - {rec} && t.calls - {c} == s.calls - {c};
    ReachesLater(s, Close(c), t, [Free(c)], System(s.recs - {rec}, s.list, s.calls - {c}, Deserted(s.starters, rec)));
    assert [Close(c)] + [Free(c)] == [Close(c), Free(c)];
  }

  lemma {:induction false} UnlistEnds(s: System, c: nat)
    requires Inv(s) && c in s.calls && s.calls[c].JoinReady?
    ensures Reaches(s, [UnlistJoined(c), Close(c), Free(c)], Cleared(s, c, s.calls[c].rec))
  {
    assert CallOk(s, s.calls[c]);
    var rec, t := s.calls[c].rec, Next(s, UnlistJoined(c));
    CloseEnds(t, c);
    assert t.calls - {c} == s.calls - {c};
    ReachesLater(s, UnlistJoined(c), t, [Close(c), Free(c)], Cleared(s, c, rec));
    assert [UnlistJoined(c)] + [Close(c), Free(c)] == [UnlistJoined(c), Close(c), Free(c)];
  }

  lemma {:induction false} WaitSucceeds(s: System, c: nat)
    requires Inv(s) && c in s.calls && s.calls[c].Joining? && s.recs[s.calls[c].rec].exited
    ensures Enabled(s, Waited(c, true))
    ensures
      var t, rec := Next(s, Waited(c, true)), s.calls[c].rec;
      Inv(t) && t.calls[c] == JoinReady(rec) && Cleared(t, c, rec) == Cleared(s, c, rec)
  {
    assert CallOk(s, s.calls[c]);
    StepKeeps(s, Waited(c, true));
    assert Next(s, Waited(c, true)).calls - {c} == s.calls - {c};
  }

  /** A join whose thread has exited can go on to its end, and then the record is off the list and freed. */
  lemma {:induction false} JoinCompletes(s: System, c: nat)
    requires Inv(s) && c in s.calls && s.calls[c].Joining? && s.recs[s.calls[c].rec].exited
    ensures Reaches(s, JoinEnd(c), Cleared(s, c, s.calls[c].rec))
  {
    WaitSucceeds(s, c);
    var t, rest := Next(s, Waited(c, true)), [UnlistJoined(c), Close(c), Free(c)];
    UnlistEnds(t, c);
    ReachesLater(s, Waited(c, true), t, rest, Cleared(s, c, s.calls[c].rec));
    assert [Waited(c, true)] + rest == JoinEnd(c);
  }

  // The state once the mark of the join is cleared and the call is over.
  function LetGo(s: System, c: nat, rec: nat): System
    requires rec in s.recs
  {
    s.(recs := s.recs[rec := s.recs[rec].(joining := false)], calls := s.calls - {c})
  }

  lemma {:induction false} ClearingEnds(s: System, c: nat)
    requires c in s.calls && s.calls[c].WaitFailed? && s.calls[c].rec in s.recs
    ensures Reaches(s, [ClearJoining(c)], LetGo(s, c, s.calls[c].rec))
  {
    assert [ClearJoining(c)][1..] == [];
  }

  /** A join whose wait fails lets go of the record: the mark is cleared, and the thread may be joined again. */
  lemma {:induction false} FailedWaitLetsGo(s: System, c: nat)
    requires Inv(s) && c in s.calls && s.calls[c].Joining?
    ensures
      var rec := s.calls[c].rec;
      rec in s.recs && Reaches(s, [Waited(c, false), ClearJoining(c)], LetGo(s, c, rec))
  {
    assert CallOk(s, s.calls[c]);
    var rec, t := s.calls[c].rec, Next(s, Waited(c, false));
    ClearingEnds(t, c);
    assert LetGo(t, c, rec) == LetGo(s, c, rec) by { assert t.calls - {c} == s.calls - {c}; }
    ReachesLater(s, Waited(c, false), t, [ClearJoining(c)], LetGo(s, c, rec));
    assert [Waited(c, false)] + [ClearJoining(c)] == [Waited(c, false), ClearJoining(c)];
  }

  // The step that a call takes next; `ok` is what the start of a thread, or the wait for one, answers.
  function NextStep(s: System, c: nat, ok: bool): Event
    requires c in s.calls && s.calls[c].rec in s.recs
  {
    match s.calls[c]
    case Created(rec) => if s.recs[rec].id == 0 then AbortCreate(c) else Add(c)
    case Listed(_) => Start(c, ok)
    case StartFailed(_) => UnlistFailed(c)
    case Joining(rec) => Waited(c, ok && s.recs[rec].exited)
    case WaitFailed(_) => ClearJoining(c)
    case JoinReady(_) => UnlistJoined(c)
    case Unlisted(_, _) => Close(c)
    case Closed(_, _) => Free(c)
  }

  /** No call is ever stuck: its next step is possible in every state of the invariant. */
  lemma {:induction false} CallsGoOn(s: System, c: nat, ok: bool)
    requires Inv(s) && c in s.calls
    ensures s.calls[c].rec in s.recs && Enabled(s, NextStep(s, c, ok))
  {
    assert CallOk(s, s.calls[c]);
  }

  // ---------------------------------------------------------------- creates that fail

  lemma {:induction false} AbortEnds(s: System, c: nat)
    requires Inv(s) && Enabled(s, AbortCreate(c))
    ensures var rec := s.calls[c].rec;
      Reaches(s, [AbortCreate(c), Close(c), Free(c)],
              System(s.recs - {rec}, s.list, s.calls - {c}, Deserted(s.starters, rec)))
  {
    var rec, t := s.calls[c].rec, Next(s, AbortCreate(c));
    CloseEnds(t, c);
    assert t.calls - {c} == s.calls - {c};
    ReachesLater(s, AbortCreate(c), t, [Close(c), Free(c)],
                 System(s.recs - {rec}, s.list, s.calls - {c}, Deserted(s.starters, rec)));
    assert [AbortCreate(c)] + [Close(c), Free(c)] == [AbortCreate(c), Close(c), Free(c)];
  }

  // How a create ends whose thread did not start.
  function FailedEnd(c: nat): seq<Event> { [UnlistFailed(c), Close(c), Free(c)] }

  lemma {:induction false} UnlistFailedEnds(s: System, c: nat)
    requires Inv(s) && Enabled(s, UnlistFailed(c))
    ensures Reaches(s, FailedEnd(c), Cleared(s, c, s.calls[c].rec))
  {
    var rec, t := s.calls[c].rec, Next(s, UnlistFailed(c));
    CloseEnds(t, c);
    assert t.calls - {c} == s.calls - {c};
    ReachesLater(s, UnlistFailed(c), t, [Close(c), Free(c)], Cleared(s, c, rec));
    assert [UnlistFailed(c)] + [Close(c), Free(c)] == FailedEnd(c);
  }

  lemma {:induction false} StartFails(s: System, c: nat)
    requires Inv(s) && Enabled(s, Start(c, false))
    ensures
      var t, rec := Next(s, Start(c, false)), s.calls[c].rec;
      Inv(t) && Enabled(t, UnlistFailed(c)) && t.calls[c].rec == rec && Cleared(t, c, rec) == Cleared(s, c, rec)
  {
    StepKeeps(s, Start(c, false));
    assert Next(s, Start(c, false)).calls - {c} == s.calls - {c};
  }

  /** A create whose thread cannot be started takes its record back, and leaves everything else as it was. */
  lemma {:induction false} FailedStartLeavesNothing(s: System, c: nat)
    requires Inv(s) && Enabled(s, Start(c, false))
    ensures Reaches(s, [Start(c, false)] + FailedEnd(c), Cleared(s, c, s.calls[c].rec))
  {
    var t := Next(s, Start(c, false));
    StartFails(s, c);
    UnlistFailedEnds(t, c);
    ReachesLater(s, Start(c, false), t, FailedEnd(c), Cleared(s, c, s.calls[c].rec));
  }

  // ---------------------------------------------------------------- a whole join from the start

  // A thread is created, joined by another, stores 42 and ends.
  const JOINED: seq<Event> :=
    [Create(1, 7, 5, false), Add(1), Start(1, true), Read(1), Join(2, 5, 9), Finish(7, 42), Exit(7)] + JoinEnd(2)

  // The one record while its thread is up and joined.
  function Pending(finished: bool, exited: bool): System {
    System(
      map[7 := Rec(5, false, true, finished, if finished then 42 else 0, true, exited, true)],
      [7], map[2 := Joining(7)], map[])
  }

  const NOTHING := System(map[], [], map[], map[])

  lemma {:induction false} PendingInv()
    ensures Inv(Pending(true, true))
  {
    assert Pending(true, true).calls[2].rec == 7;
  }

  lemma {:induction false} ClearedIsNothing()
    ensures Cleared(Pending(true, true), 2, 7) == NOTHING
  {
    var t := Cleared(Pending(true, true), 2, 7);
    WithoutMembers([7], 7);
    assert t.recs == map[] && t.calls == map[] && t.starters == map[];
    assert t.list == [] by { assert Without([7], 7) == []; }
  }

  lemma {:induction false} JoinEndsFromPending()
    ensures Reaches(Pending(true, true), JoinEnd(2), NOTHING)
  {
    PendingInv();
    ClearedIsNothing();
    JoinCompletes(Pending(true, true), 2);
  }

  lemma {:induction false} EndsFromPending()
    ensures Reaches(Pending(false, false), [Finish(7, 42), Exit(7)] + JoinEnd(2), NOTHING)
  {
    JoinEndsFromPending();
    ReachesLater(Pending(true, false), Exit(7), Pending(true, true), JoinEnd(2), NOTHING);
    ReachesLater(Pending(false, false), Finish(7, 42), Pending(true, false), [Exit(7)] + JoinEnd(2), NOTHING);
    assert [Finish(7, 42)] + ([Exit(7)] + JoinEnd(2)) == [Finish(7, 42), Exit(7)] + JoinEnd(2);
  }

  lemma {:induction false} JoinFromUp(es: seq<Event>)
    requires Reaches(Pending(false, false), es, NOTHING)
    ensures Reaches(Up(false, false, false), [Read(1), Join(2, 5, 9)] + es, NOTHING)
  {
    var s := Up(false, false, false).(starters := map[]);
    assert FindFrom(s, 5, 0) == 0;
    ReachesLater(s, Join(2, 5, 9), Pending(false, false), es, NOTHING);
    assert Up(false, false, false).starters - {1} == map[];
    ReachesLater(Up(false, false, false), Read(1), s, [Join(2, 5, 9)] + es, NOTHING);
    assert [Read(1)] + ([Join(2, 5, 9)] + es) == [Read(1), Join(2, 5, 9)] + es;
  }

  lemma {:induction false} StartedUp(es: seq<Event>)
    requires Reaches(Up(false, false, false), es, NOTHING)
    ensures Reaches(START, [Create(1, 7, 5, false), Add(1), Start(1, true)] + es, NOTHING)
  {
    var made := Rec(5, false, false, false, 0, false, false, true);
    var created := System(map[7 := made], [], map[1 := Created(7)], map[]);
    var listed := System(map[7 := made], [7], map[1 := Listed(7)], map[]);
    ReachesLater(listed, Start(1, true), Up(false, false, false), es, NOTHING);
    ReachesLater(created, Add(1), listed, [Start(1, true)] + es, NOTHING);
    ReachesLater(START, Create(1, 7, 5, false), created, [Add(1)] + ([Start(1, true)] + es), NOTHING);
    assert [Create(1, 7, 5, false)] + ([Add(1)] + ([Start(1, true)] + es))
        == [Create(1, 7, 5, false), Add(1), Start(1, true)] + es;
  }

  /** A whole join from the start: the thread ends with 42, its joiner takes the record, and nothing is left. */
  lemma {:induction false} JoinFromTheStart()
    ensures Reaches(START, JOINED, NOTHING)
  {
    var end := [Finish(7, 42), Exit(7)] + JoinEnd(2);
    EndsFromPending();
    JoinFromUp(end);
    StartedUp([Read(1), Join(2, 5, 9)] + end);
    assert [Create(1, 7, 5, false), Add(1), Start(1, true)] + ([Read(1), Join(2, 5, 9)] + end) == JOINED;
  }
}
