/** When GC_active_count can leave zero again within one parallel mark phase, and that the
    phase never gets stuck. */
module ActiveCount {
  import opened ParallelMark

  // ------------------------------------------------------------ somebody moves the first index on

  /** While slots from GC_first_nonempty on remain, a marker that is certain to look at them or
      to raise the index before it goes inactive. */
  predicate OnDuty(s: State, m: Marker) {
    match m.pc
    case Loop | Steal(_, _, _, _) | Clear(_, _, _, _, _) | Mark | Scan(_) | Push(_) | AskHelpers | CopyBack(_) => true
    case Compare(seen) => seen == s.first || m.first < |s.slots|
    case ReadTop | AskLock => m.first < |s.slots|
    case _ => false
  }

  ghost predicate Watched(s: State) {
    s.first < |s.slots| ==> exists i :: 0 <= i < |s.ms| && OnDuty(s, s.ms[i])
  }

  /** The initiator waits only while, or after, another marker has joined. */
  ghost predicate Accompanied(s: State) {
    |s.ms| > 0 && s.ms[0].pc.Waiting? ==> exists i :: 0 < i < |s.ms| && !s.ms[i].pc.Out?
  }

  lemma DutyIsActive(s: State, i: nat)
    requires i < |s.ms| && OnDuty(s, s.ms[i])
    ensures CountActive(s.ms) > 0
  {
    if CountActive(s.ms) == 0 { NobodyActive(s.ms, i); }
  }

  /** A step of a marker on duty leaves it on duty, unless no slot is left to look at. */
  lemma DutyGoesOn(c: Config, s: State, id: nat, a: Action)
    requires Inv(c, s) && Enabled(c, s, id, a) && OnDuty(s, s.ms[id])
    ensures var s' := Do(c, s, id, a); id < |s'.ms| && (s'.first < |s'.slots| ==> OnDuty(s', s'.ms[id]))
  {
    hide Inv, Enabled, Do, OnDuty;
    if IsControl(a) { DutyControl(c, s, id, a); } else { DutyWork(c, s, id, a); }
  }

  lemma DutyControl(c: Config, s: State, id: nat, a: Action)
    requires Inv(c, s) && Enabled(c, s, id, a) && OnDuty(s, s.ms[id]) && IsControl(a)
    ensures var s' := Do(c, s, id, a); id < |s'.ms| && (s'.first < |s'.slots| ==> OnDuty(s', s'.ms[id]))
  {
    hide NoLoss, Counts, LockOk, Taken, Emptied, Ending, ReturnEntries, StealSlot, MarkTarget, ExamineField, TakeFrom;
    assert MarkerShape(c, s.first, |s.slots|, s.ms[id]);
  }

  predicate IsSteal(a: Action) {
    a.StealRead? || a.StealClear? || a.StealDone? || a.DoCopyBack?
  }

  lemma DutyWork(c: Config, s: State, id: nat, a: Action)
    requires Inv(c, s) && Enabled(c, s, id, a) && OnDuty(s, s.ms[id]) && !IsControl(a)
    ensures var s' := Do(c, s, id, a); id < |s'.ms| && (s'.first < |s'.slots| ==> OnDuty(s', s'.ms[id]))
  {
    hide Inv, Enabled, Do, OnDuty;
    if IsSteal(a) { DutySteal(c, s, id, a); } else { DutyLocal(c, s, id, a); }
  }

  lemma DutySteal(c: Config, s: State, id: nat, a: Action)
    requires Inv(c, s) && Enabled(c, s, id, a) && IsSteal(a)
    ensures var s' := Do(c, s, id, a); id < |s'.ms| && OnDuty(s', s'.ms[id])
  {
    hide NoLoss, Counts, LockOk, Emptied, Ending, MarkTarget, ExamineField, TakeFrom, Deposit;
    assert MarkerShape(c, s.first, |s.slots|, s.ms[id]);
  }

  predicate IsScan(a: Action) {
    a.TakeEntry? || a.Examine? || a.MarkAndPush?
  }

  lemma DutyLocal(c: Config, s: State, id: nat, a: Action)
    requires Inv(c, s) && Enabled(c, s, id, a) && OnDuty(s, s.ms[id]) && !IsControl(a) && !IsSteal(a)
    ensures var s' := Do(c, s, id, a); id < |s'.ms| && OnDuty(s', s'.ms[id])
  {
    hide Inv, Enabled, Do, OnDuty;
    if IsScan(a) { DutyScan(c, s, id, a); } else { DutyShare(c, s, id, a); }
  }

  lemma DutyScan(c: Config, s: State, id: nat, a: Action)
    requires Inv(c, s) && Enabled(c, s, id, a) && IsScan(a)
    ensures var s' := Do(c, s, id, a); id < |s'.ms| && OnDuty(s', s'.ms[id])
  {
    assert MarkerShape(c, s.first, |s.slots|, s.ms[id]);
    hide Inv, OnDuty, TakeFrom, ExamineField, MarkTarget;
    match a
    case TakeEntry(cut, low) => DutyTake(c, s, id, cut, low);
    case Examine => DutyExamine(c, s, id);
    case MarkAndPush => DutyMark(c, s, id);
  }

  lemma DutyTake(c: Config, s: State, id: nat, cut: nat, low: bool)
    requires Shape(c, s) && Enabled(c, s, id, TakeEntry(cut, low))
    ensures var s' := With(s, id, TakeFrom(s.ms[id], cut, low)); OnDuty(s', s'.ms[id])
  {
    hide Shape;
  }

  lemma DutyExamine(c: Config, s: State, id: nat)
    requires Shape(c, s) && Enabled(c, s, id, Examine) && MarkerShape(c, s.first, |s.slots|, s.ms[id])
    ensures var s' := With(s, id, ExamineField(c, s.marked, s.ms[id])); OnDuty(s', s'.ms[id])
  {
    hide Shape;
  }

  lemma DutyMark(c: Config, s: State, id: nat)
    requires Shape(c, s) && Enabled(c, s, id, MarkAndPush) && MarkerShape(c, s.first, |s.slots|, s.ms[id])
    ensures var s' := MarkTarget(c, s, id); id < |s'.ms| && OnDuty(s', s'.ms[id])
  {
    hide Overflows;
  }

  lemma DutyShare(c: Config, s: State, id: nat, a: Action)
    requires Inv(c, s) && Enabled(c, s, id, a) && OnDuty(s, s.ms[id]) && !IsControl(a) && !IsSteal(a) && !IsScan(a)
    ensures var s' := Do(c, s, id, a); id < |s'.ms| && OnDuty(s', s'.ms[id])
  {
    assert MarkerShape(c, s.first, |s.slots|, s.ms[id]);
    hide NoLoss, Counts, LockOk, Taken, Emptied, Ending, MarkTarget, ExamineField, TakeFrom, ReturnEntries, StealSlot;
  }

  /** A step of another marker puts it on duty or touches neither index nor slots. */
  lemma DutyUntouched(c: Config, s: State, id: nat, a: Action)
    requires Inv(c, s) && Enabled(c, s, id, a) && !OnDuty(s, s.ms[id])
    ensures var s' := Do(c, s, id, a);
      id < |s'.ms| && (OnDuty(s', s'.ms[id]) ||
        (s'.first == s.first && s'.slots == s.slots && s'.ms == s.ms[id := s'.ms[id]]))
  {
    hide NoLoss, Counts, LockOk, Taken, Emptied, Ending, ReturnEntries, StealSlot, MarkTarget, ExamineField, TakeFrom;
    assert MarkerShape(c, s.first, |s.slots|, s.ms[id]);
  }

  lemma Opened(c: Config, s: State, id: nat, a: Action)
    requires Inv(c, s) && Enabled(c, s, id, a)
    ensures Shape(c, s) && id < |s.ms|
  {
  }

  lemma WatchedStep(c: Config, s: State, id: nat, a: Action)
    requires Inv(c, s) && Watched(s) && Enabled(c, s, id, a)
    ensures Watched(Do(c, s, id, a))
  {
    Opened(c, s, id, a);
    hide Inv, Shape, Enabled, Do, OnDuty;
    var s' := Do(c, s, id, a);
    if OnDuty(s, s.ms[id]) {
      DutyGoesOn(c, s, id, a);
    } else {
      DutyUntouched(c, s, id, a);
      if !OnDuty(s', s'.ms[id]) && s.first < |s.slots| {
        var i :| 0 <= i < |s.ms| && OnDuty(s, s.ms[i]);
        SameDuty(s, s', s.ms[i]);
        assert s'.ms[i] == s.ms[i];
      }
    }
  }

  lemma SameDuty(s: State, s': State, m: Marker)
    requires s'.first == s.first && s'.slots == s.slots
    ensures OnDuty(s', m) == OnDuty(s, m)
  {
  }

  /** Only the acting marker changes its place; none goes back to the outside. */
  ghost predicate Moves(s: State, s': State, id: nat) {
    && id < |s.ms| == |s'.ms| && s'.ms == s.ms[id := s'.ms[id]] && !s'.ms[id].pc.Out?
    && (s'.ms[id].pc.Waiting? ==> s.ms[id].pc.Idle? && s.active > 0)
  }

  lemma OneMoves(c: Config, s: State, id: nat, a: Action)
    requires Inv(c, s) && Enabled(c, s, id, a)
    ensures Moves(s, Do(c, s, id, a), id)
  {
    hide Inv, Enabled, Do, Moves;
    if IsControl(a) { ControlMoves(c, s, id, a); } else { WorkMoves(c, s, id, a); }
  }

  lemma ControlMoves(c: Config, s: State, id: nat, a: Action)
    requires Inv(c, s) && Enabled(c, s, id, a) && IsControl(a)
    ensures Moves(s, Do(c, s, id, a), id)
  {
    hide NoLoss, Counts, LockOk, Taken, Emptied, Ending, ReturnEntries, StealSlot, MarkTarget, ExamineField, TakeFrom;
    assert MarkerShape(c, s.first, |s.slots|, s.ms[id]);
  }

  lemma WorkMoves(c: Config, s: State, id: nat, a: Action)
    requires Inv(c, s) && Enabled(c, s, id, a) && !IsControl(a)
    ensures Moves(s, Do(c, s, id, a), id)
  {
    hide NoLoss, Counts, LockOk, Taken, Emptied, Ending, Overflows, Deposit;
    assert MarkerShape(c, s.first, |s.slots|, s.ms[id]);
  }

  lemma AccompaniedStep(c: Config, s: State, id: nat, a: Action)
    requires Inv(c, s) && Accompanied(s) && Enabled(c, s, id, a)
    ensures Accompanied(Do(c, s, id, a))
  {
    Opened(c, s, id, a);
    hide Inv, Shape, Enabled, Do;
    var s' := Do(c, s, id, a);
    OneMoves(c, s, id, a);
    if id == 0 {
      if s'.ms[0].pc.Waiting? {
        var i := SomeActive(c, s);
        assert i != 0 && s'.ms[i] == s.ms[i];
      }
    } else if s.ms[0].pc.Waiting? {
      var i :| 0 < i < |s.ms| && !s.ms[i].pc.Out?;
      assert !s'.ms[i].pc.Out?;
    }
  }

  lemma SomeActive(c: Config, s: State) returns (i: nat)
    requires Inv(c, s) && s.active > 0
    ensures i < |s.ms| && s.ms[i].Active()
  {
    i := FirstActive(s.ms);
  }

  lemma {:induction false} FirstActive(ms: seq<Marker>) returns (i: nat)
    requires CountActive(ms) > 0
    ensures i < |ms| && ms[i].Active()
    decreases |ms|
  {
    if ms[|ms| - 1].Active() {
      i := |ms| - 1;
    } else {
      i := FirstActive(ms[..|ms| - 1]);
    }
  }

  // ------------------------------------------------------------ when the count rises

  lemma NoneActive(c: Config, s: State)
    requires Inv(c, s) && s.active == 0
    ensures forall i :: 0 <= i < |s.ms| ==> !s.ms[i].Active()
  {
    forall i: nat | i < |s.ms| ensures !s.ms[i].Active() { NobodyActive(s.ms, i); }
  }

  /** With no marker active no slot is left to look at. */
  lemma NothingLeft(c: Config, s: State)
    requires Inv(c, s) && Watched(s) && s.active == 0
    ensures |s.slots| <= s.first
  {
    if i :| 0 <= i < |s.ms| && OnDuty(s, s.ms[i]) { DutyIsActive(s, i); }
  }

  /** The count leaves zero only when a third marker joins. */
  lemma RiseNeedsThree(c: Config, s: State, id: nat, a: Action)
    requires Inv(c, s) && Watched(s) && Accompanied(s) && s.active == 0
    requires Enabled(c, s, id, a) && Do(c, s, id, a).active > 0
    ensures a.Join? && c.markers >= 3
  {
    NothingLeft(c, s);
    NoneActive(c, s);
    hide NoLoss, Counts, Taken, Emptied, ReturnEntries, StealSlot, MarkTarget, ExamineField, TakeFrom;
    assert a.Join?;
    assert s.ms[0].Joined() && s.ms[0].pc.Waiting?;
  }

  lemma InitWatched(c: Config, s: State)
    requires Init(c, s)
    ensures Watched(s) && Accompanied(s)
  {
    assert OnDuty(s, s.ms[0]);
  }

  lemma {:induction false} RunWatched(c: Config, tr: seq<State>, i: nat)
    requires Run(c, tr) && i < |tr|
    ensures Inv(c, tr[i]) && Watched(tr[i]) && Accompanied(tr[i])
    decreases i
  {
    hide Inv, Init, Enabled, Do, Shape, Watched, Accompanied;
    RunInv(c, tr, i);
    if i == 0 {
      InitWatched(c, tr[0]);
    } else {
      RunWatched(c, tr, i - 1);
      assert Next(c, tr[i - 1], tr[i - 1 + 1]);
      var id: nat, a :| Shape(c, tr[i - 1]) && Enabled(c, tr[i - 1], id, a) && tr[i] == Do(c, tr[i - 1], id, a);
      WatchedStep(c, tr[i - 1], id, a);
      AccompaniedStep(c, tr[i - 1], id, a);
    }
  }

  /** On `tr` the active count returns to zero and rises again. */
  ghost predicate Rises(c: Config, tr: seq<State>, k: nat, l: nat) {
    Run(c, tr) && k < l < |tr| && tr[k].active == 0 && tr[l].active > 0
  }

  ghost predicate CanRise(c: Config) {
    exists tr, k, l :: Rises(c, tr, k, l)
  }

  lemma {:induction false} RisesNeedThree(c: Config, tr: seq<State>, k: nat, l: nat)
    requires Rises(c, tr, k, l)
    ensures c.markers >= 3
    decreases l
  {
    hide Inv, Init, Enabled, Do, Shape, Watched, Accompanied, Run;
    RunWatched(c, tr, l - 1);
    CountIsActive(c, tr[l - 1]);
    if tr[l - 1].active > 0 {
      RisesNeedThree(c, tr, k, l - 1);
    } else {
      var id, a := StepOf(c, tr, l - 1);
      RiseNeedsThree(c, tr[l - 1], id, a);
    }
  }

  lemma CountIsActive(c: Config, s: State)
    requires Inv(c, s)
    ensures s.active >= 0
  {
  }

  lemma StepOf(c: Config, tr: seq<State>, i: nat) returns (id: nat, a: Action)
    requires Run(c, tr) && i + 1 < |tr|
    ensures Shape(c, tr[i]) && Enabled(c, tr[i], id, a) && tr[i + 1] == Do(c, tr[i], id, a)
  {
    hide Init, Enabled, Do, Shape;
    assert Next(c, tr[i], tr[i + 1]);
    id, a :| Shape(c, tr[i]) && Enabled(c, tr[i], id, a) && tr[i + 1] == Do(c, tr[i], id, a);
  }

  /** The theorem: in some run the active count returns to zero and rises again, if and only
      if there are three markers or more. */
  lemma RisesExactly(c: Config)
    requires c.Valid()
    ensures CanRise(c) <==> c.markers >= 3
  {
    hide Run;
    if CanRise(c) {
      var tr, k, l :| Rises(c, tr, k, l);
      RisesNeedThree(c, tr, k, l);
    }
    if c.markers >= 3 {
      var tr := RisingRun(c);
      assert Rises(c, tr, 10, 13);
    }
  }

  /** States of a phase with nothing to mark, where the first three markers are in these places
      and all others are outside. */
  function Small(c: Config, active: int, helpers: int, lock: Option<nat>, a: Pc, b: Pc, d: Pc): State {
    State([], 0, active, helpers, true, lock, {}, false, false,
          seq(c.markers, i requires 0 <= i < c.markers =>
            Marker(if i == 0 then a else if i == 1 then b else if i == 2 then d else Out, 0, [])),
          [], [])
  }

  lemma SmallMoves(c: Config, active: int, helpers: int, lock: Option<nat>, a: Pc, b: Pc, d: Pc, id: nat, p: Pc)
    requires c.markers >= 3 && id < 3
    ensures Small(c, active, helpers, lock, a, b, d).ms[id := Marker(p, 0, [])] ==
      Small(c, active, helpers, lock, if id == 0 then p else a, if id == 1 then p else b, if id == 2 then p else d).ms
  {
  }

  lemma Goes(c: Config, s: State, id: nat, a: Action, s': State)
    requires Shape(c, s) && Enabled(c, s, id, a) && Do(c, s, id, a) == s'
    ensures Next(c, s, s')
  {
  }

  predicate Plain(p: Pc) {
    !p.Steal? && !p.Clear? && !p.Scan? && !p.Push? && !p.CopyBack? && (p.Compare? ==> p.seen == 0)
  }

  lemma SmallShape(c: Config, active: int, helpers: int, lock: Option<nat>, a: Pc, b: Pc, d: Pc)
    requires c.Valid() && c.markers >= 3 && Plain(a) && Plain(b) && Plain(d)
    ensures Shape(c, Small(c, active, helpers, lock, a, b, d))
  {
  }

  /** The first helper finds nothing and leaves while the initiator waits; then another joins. */
  lemma RisingRun(c: Config) returns (tr: seq<State>)
    requires c.Valid() && c.markers >= 3
    ensures Run(c, tr) && |tr| == 14 && tr[10].active == 0 && tr[13].active > 0
  {
    hide Do, Shape, Enabled;
    tr := [
      Small(c, 1, 1, None, Loop, Out, Out),
      Small(c, 2, 2, None, Loop, Loop, Out),
      Small(c, 2, 2, None, Compare(0), Loop, Out),
      Small(c, 2, 2, None, ReadTop, Loop, Out),
      Small(c, 2, 2, None, AskLock, Loop, Out),
      Small(c, 1, 2, Some(0), Idle, Loop, Out),
      Small(c, 1, 2, None, Waiting, Loop, Out),
      Small(c, 1, 2, None, Waiting, Compare(0), Out),
      Small(c, 1, 2, None, Waiting, ReadTop, Out),
      Small(c, 1, 2, None, Waiting, AskLock, Out),
      Small(c, 0, 2, Some(1), Waiting, Idle, Out),
      Small(c, 0, 2, Some(1), Waiting, Decide, Out),
      Small(c, 0, 1, None, Waiting, Left, Out),
      Small(c, 1, 2, None, Waiting, Left, Loop)];
    HelperJoins(c);
    InitiatorWaits(c);
    HelperLooks(c);
    HelperDecides(c);
    HelperLeaves(c);
    SmallInit(c);
  }

  lemma SmallInit(c: Config)
    requires c.Valid() && c.markers >= 3
    ensures Init(c, Small(c, 1, 1, None, Loop, Out, Out))
  {
  }

  lemma HelperJoins(c: Config)
    requires c.Valid() && c.markers >= 3
    ensures Next(c, Small(c, 1, 1, None, Loop, Out, Out), Small(c, 2, 2, None, Loop, Loop, Out))
    ensures Next(c, Small(c, 2, 2, None, Loop, Loop, Out), Small(c, 2, 2, None, Compare(0), Loop, Out))
    ensures Next(c, Small(c, 2, 2, None, Compare(0), Loop, Out), Small(c, 2, 2, None, ReadTop, Loop, Out))
  {
    hide Shape;
    SmallShape(c, 1, 1, None, Loop, Out, Out);
    SmallMoves(c, 1, 1, None, Loop, Out, Out, 1, Loop);
    Goes(c, Small(c, 1, 1, None, Loop, Out, Out), 1, Join, Small(c, 2, 2, None, Loop, Loop, Out));
    SmallShape(c, 2, 2, None, Loop, Loop, Out);
    SmallMoves(c, 2, 2, None, Loop, Loop, Out, 0, Compare(0));
    Goes(c, Small(c, 2, 2, None, Loop, Loop, Out), 0, ReadFirst, Small(c, 2, 2, None, Compare(0), Loop, Out));
    SmallShape(c, 2, 2, None, Compare(0), Loop, Out);
    SmallMoves(c, 2, 2, None, Compare(0), Loop, Out, 0, ReadTop);
    Goes(c, Small(c, 2, 2, None, Compare(0), Loop, Out), 0, CompareFirst, Small(c, 2, 2, None, ReadTop, Loop, Out));
  }

  lemma InitiatorWaits(c: Config)
    requires c.Valid() && c.markers >= 3
    ensures Next(c, Small(c, 2, 2, None, ReadTop, Loop, Out), Small(c, 2, 2, None, AskLock, Loop, Out))
    ensures Next(c, Small(c, 2, 2, None, AskLock, Loop, Out), Small(c, 1, 2, Some(0), Idle, Loop, Out))
    ensures Next(c, Small(c, 1, 2, Some(0), Idle, Loop, Out), Small(c, 1, 2, None, Waiting, Loop, Out))
  {
    hide Shape;
    SmallShape(c, 2, 2, None, ReadTop, Loop, Out);
    SmallMoves(c, 2, 2, None, ReadTop, Loop, Out, 0, AskLock);
    Goes(c, Small(c, 2, 2, None, ReadTop, Loop, Out), 0, ReadStackTop, Small(c, 2, 2, None, AskLock, Loop, Out));
    SmallShape(c, 2, 2, None, AskLock, Loop, Out);
    SmallMoves(c, 2, 2, None, AskLock, Loop, Out, 0, Idle);
    Goes(c, Small(c, 2, 2, None, AskLock, Loop, Out), 0, TakeLock, Small(c, 1, 2, Some(0), Idle, Loop, Out));
    SmallShape(c, 1, 2, Some(0), Idle, Loop, Out);
    SmallMoves(c, 1, 2, Some(0), Idle, Loop, Out, 0, Waiting);
    Goes(c, Small(c, 1, 2, Some(0), Idle, Loop, Out), 0, TestWait, Small(c, 1, 2, None, Waiting, Loop, Out));
  }

  lemma HelperLooks(c: Config)
    requires c.Valid() && c.markers >= 3
    ensures Next(c, Small(c, 1, 2, None, Waiting, Loop, Out), Small(c, 1, 2, None, Waiting, Compare(0), Out))
    ensures Next(c, Small(c, 1, 2, None, Waiting, Compare(0), Out), Small(c, 1, 2, None, Waiting, ReadTop, Out))
    ensures Next(c, Small(c, 1, 2, None, Waiting, ReadTop, Out), Small(c, 1, 2, None, Waiting, AskLock, Out))
  {
    hide Shape;
    SmallShape(c, 1, 2, None, Waiting, Loop, Out);
    SmallMoves(c, 1, 2, None, Waiting, Loop, Out, 1, Compare(0));
    Goes(c, Small(c, 1, 2, None, Waiting, Loop, Out), 1, ReadFirst, Small(c, 1, 2, None, Waiting, Compare(0), Out));
    SmallShape(c, 1, 2, None, Waiting, Compare(0), Out);
    SmallMoves(c, 1, 2, None, Waiting, Compare(0), Out, 1, ReadTop);
    Goes(c, Small(c, 1, 2, None, Waiting, Compare(0), Out), 1, CompareFirst,
      Small(c, 1, 2, None, Waiting, ReadTop, Out));
    SmallShape(c, 1, 2, None, Waiting, ReadTop, Out);
    SmallMoves(c, 1, 2, None, Waiting, ReadTop, Out, 1, AskLock);
    Goes(c, Small(c, 1, 2, None, Waiting, ReadTop, Out), 1, ReadStackTop, Small(c, 1, 2, None, Waiting, AskLock, Out));
  }

  lemma HelperDecides(c: Config)
    requires c.Valid() && c.markers >= 3
    ensures Next(c, Small(c, 1, 2, None, Waiting, AskLock, Out), Small(c, 0, 2, Some(1), Waiting, Idle, Out))
    ensures Next(c, Small(c, 0, 2, Some(1), Waiting, Idle, Out), Small(c, 0, 2, Some(1), Waiting, Decide, Out))
  {
    hide Shape;
    SmallShape(c, 1, 2, None, Waiting, AskLock, Out);
    SmallMoves(c, 1, 2, None, Waiting, AskLock, Out, 1, Idle);
    Goes(c, Small(c, 1, 2, None, Waiting, AskLock, Out), 1, TakeLock, Small(c, 0, 2, Some(1), Waiting, Idle, Out));
    SmallShape(c, 0, 2, Some(1), Waiting, Idle, Out);
    SmallMoves(c, 0, 2, Some(1), Waiting, Idle, Out, 1, Decide);
    Goes(c, Small(c, 0, 2, Some(1), Waiting, Idle, Out), 1, TestWait, Small(c, 0, 2, Some(1), Waiting, Decide, Out));
  }

  lemma HelperLeaves(c: Config)
    requires c.Valid() && c.markers >= 3
    ensures Next(c, Small(c, 0, 2, Some(1), Waiting, Decide, Out), Small(c, 0, 1, None, Waiting, Left, Out))
    ensures Next(c, Small(c, 0, 1, None, Waiting, Left, Out), Small(c, 1, 2, None, Waiting, Left, Loop))
  {
    hide Shape;
    SmallShape(c, 0, 2, Some(1), Waiting, Decide, Out);
    SmallMoves(c, 0, 2, Some(1), Waiting, Decide, Out, 1, Left);
    Goes(c, Small(c, 0, 2, Some(1), Waiting, Decide, Out), 1, LeaveOrStay, Small(c, 0, 1, None, Waiting, Left, Out));
    SmallShape(c, 0, 1, None, Waiting, Left, Out);
    SmallMoves(c, 0, 1, None, Waiting, Left, Out, 2, Loop);
    Goes(c, Small(c, 0, 1, None, Waiting, Left, Out), 2, Join, Small(c, 1, 2, None, Waiting, Left, Loop));
  }

  // ------------------------------------------------------------ progress

  /** The next step of a marker that does not sleep and is not outside. */
  function NextAction(m: Marker): Action {
    match m.pc
    case Loop => ReadFirst
    case Compare(_) => CompareFirst
    case ReadTop => ReadStackTop
    case AskLock => TakeLock
    case Idle => TestWait
    case Waiting => Wake
    case Decide => LeaveOrStay
    case Steal(p, end, i, max) => if p < end && i <= max then StealRead else StealDone
    case Clear(_, _, _, _, _) => StealClear
    case Mark => if m.local == [] then LocalEmpty else TakeEntry(m.local[|m.local| - 1].hi, true)
    case Scan(_) => Examine
    case Push(_) => MarkAndPush
    case AskHelpers => ShareHalf
    case CopyBack(_) => DoCopyBack
    case _ => FinishPhase
  }

  lemma ActiveMoves(c: Config, s: State, id: nat)
    requires Inv(c, s) && id < |s.ms|
    requires s.ms[id].HoldsLock() || (s.lock.None? && s.ms[id].Joined())
    ensures Enabled(c, s, id, NextAction(s.ms[id]))
  {
    assert MarkerShape(c, s.first, |s.slots|, s.ms[id]);
  }

  lemma {:induction false} FirstJoined(ms: seq<Marker>) returns (i: nat)
    requires CountJoined(ms) > 0
    ensures i < |ms| && ms[i].Joined()
    decreases |ms|
  {
    if ms[|ms| - 1].Joined() {
      i := |ms| - 1;
    } else {
      i := FirstJoined(ms[..|ms| - 1]);
    }
  }

  /** A phase that is not over is never stuck: some marker can take a step, and that is not the
      vain wake-up of one that waits for active markers. */
  lemma NeverStuck(c: Config, s: State) returns (id: nat, a: Action)
    requires Inv(c, s) && !s.finished
    ensures Enabled(c, s, id, a) && (a.Wake? ==> s.active == 0)
  {
    hide NoLoss, Taken, Emptied, Enabled, MarkerShape, NextAction;
    if s.lock.Some? {
      id := s.lock.value;
      ActiveMoves(c, s, id);
      HolderActs(s.ms[id]);
    } else if s.active > 0 {
      id := FirstActive(s.ms);
      ActiveMoves(c, s, id);
      HolderActs(s.ms[id]);
    } else if s.helpers > 0 {
      id := FirstJoined(s.ms);
      CountIsActive(c, s);
      ActiveMoves(c, s, id);
    } else {
      id := 0;
      ZeroDrains(c, s);
      return 0, FinishPhase;
    }
    a := NextAction(s.ms[id]);
  }

  lemma HolderActs(m: Marker)
    ensures !m.pc.Waiting? ==> !NextAction(m).Wake?
  {
  }

  lemma ZeroDrains(c: Config, s: State)
    requires Inv(c, s) && !s.finished && s.lock.None? && s.helpers == 0
    ensures Enabled(c, s, 0, FinishPhase)
  {
    if s.ms[0].Joined() { JoinedCounts(s.ms, 0); }
  }
}
