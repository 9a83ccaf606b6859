/** What the finite stacks of parallel marking can lose, and when: the mark state becomes
    invalid exactly when entries are discarded for want of room, and a phase in which none are
    ends with closed marks. */
module ParallelLimits {
  import opened ParallelMark

  /** What the field that marker `m` has in hand designates. */
  function Target(c: Config, m: Marker): nat
    requires m.pc.Push? && m.pc.e.obj < |c.fields| && m.pc.e.lo < |c.fields[m.pc.e.obj]|
  {
    c.fields[m.pc.e.obj][m.pc.e.lo]
  }

  /** In state `s` the action `a` of marker `id` discards entries: it returns more than the
      global stack has room for, or pushes an object with fields on a full local stack. */
  ghost predicate Discards(c: Config, s: State, id: nat, a: Action)
    requires Shape(c, s) && Enabled(c, s, id, a)
  {
    assert MarkerShape(c, s.first, |s.slots|, s.ms[id]);
    var m := s.ms[id];
    || (a.DoCopyBack? && |s.slots| + m.pc.count > c.size)
    || (a.MarkAndPush? && |m.local| >= LOCAL_MARK_STACK_SIZE && c.fields[Target(c, m)] != [])
  }

  lemma InvalidExactly(c: Config, s: State, id: nat, a: Action)
    requires Shape(c, s) && Enabled(c, s, id, a)
    ensures Do(c, s, id, a).invalid <==> s.invalid || Discards(c, s, id, a)
  {
    assert MarkerShape(c, s.first, |s.slots|, s.ms[id]);
    hide Shape, MarkerShape, StealSlot, ExamineField, TakeFrom, PushTarget;
  }

  /** `n` entries returned: they stand on the global stack in their order if there is room, and
      are gone if there is not; what remains of the local stack follows them in it. */
  ghost predicate Returned(c: Config, s: State, s': State, id: nat)
    requires id < |s.ms| && s.ms[id].pc.CopyBack? && s.ms[id].pc.count <= |s.ms[id].local|
  {
    var m, n := s.ms[id], s.ms[id].pc.count;
    && |s'.ms| == |s.ms| && (forall i :: 0 <= i < |s.ms| && i != id ==> s'.ms[i] == s.ms[i])
    && |s'.ms[id].local| == |m.local| - n && s'.ms[id].first == m.first && s'.marked == s.marked
    && (forall j :: 0 <= j < |m.local| - n ==> s'.ms[id].local[j] == m.local[n + j])
    && (s'.ms[id].pc == if n == |m.local| then Loop else Mark)
    && (if |s.slots| + n <= c.size then
          && |s'.slots| == |s.slots| + n && s'.invalid == s.invalid
          && (forall j :: 0 <= j < |s.slots| ==> s'.slots[j] == s.slots[j])
          && (forall j :: 0 <= j < n ==> s'.slots[|s.slots| + j] == Some(m.local[j]))
        else s'.slots == s.slots && s'.invalid)
  }

  /** A return with room loses nothing, whatever has happened before. */
  lemma CopyBackExactly(c: Config, s: State, id: nat)
    requires Shape(c, s) && Enabled(c, s, id, DoCopyBack)
    requires MarkerShape(c, s.first, |s.slots|, s.ms[id])
    ensures Returned(c, s, Do(c, s, id, DoCopyBack), id)
    ensures |s.slots| + s.ms[id].pc.count <= c.size && NoLoss(c, s) ==> NoLoss(c, Do(c, s, id, DoCopyBack))
  {
    if |s.slots| + s.ms[id].pc.count <= c.size && NoLoss(c, s) { ReturnKeeps(c, s, id); }
    hide NoLoss, Shape, MarkerShape;
  }

  // ------------------------------------------------------- over every run

  /** The step from state `k` discards entries. */
  ghost predicate DiscardsAt(c: Config, tr: seq<State>, k: nat) {
    && k + 1 < |tr| && Shape(c, tr[k])
    && exists id: nat, a ::
         Enabled(c, tr[k], id, a) && tr[k + 1] == Do(c, tr[k], id, a) && Discards(c, tr[k], id, a)
  }

  /** The mark state turns invalid in exactly the steps that discard entries. */
  lemma InvalidFrom(c: Config, tr: seq<State>, k: nat)
    requires Run(c, tr) && k + 1 < |tr|
    ensures tr[k + 1].invalid <==> tr[k].invalid || DiscardsAt(c, tr, k)
  {
    hide Enabled, Do, Shape, Discards, Init;
    assert Next(c, tr[k], tr[k + 1]);
    var id: nat, a :| Enabled(c, tr[k], id, a) && tr[k + 1] == Do(c, tr[k], id, a);
    InvalidExactly(c, tr[k], id, a);
    if DiscardsAt(c, tr, k) {
      var id': nat, a' :|
        Enabled(c, tr[k], id', a') && tr[k + 1] == Do(c, tr[k], id', a') && Discards(c, tr[k], id', a');
      InvalidExactly(c, tr[k], id', a');
    }
  }

  lemma {:induction false} InvalidIff(c: Config, tr: seq<State>, i: nat)
    requires Run(c, tr) && i < |tr|
    ensures tr[i].invalid <==> exists k :: 0 <= k < i && DiscardsAt(c, tr, k)
    decreases i
  {
    hide DiscardsAt, Run;
    if i == 0 {
      FirstValid(c, tr);
    } else {
      InvalidIff(c, tr, i - 1);
      InvalidFrom(c, tr, i - 1);
    }
  }

  lemma FirstValid(c: Config, tr: seq<State>)
    requires Run(c, tr)
    ensures !tr[0].invalid
  {
  }

  /** A phase that has ended has closed marks, unless entries were discarded on the way. */
  lemma MarksClosedAtEnd(c: Config, tr: seq<State>)
    requires Run(c, tr) && tr[|tr| - 1].finished
    requires forall k :: 0 <= k < |tr| ==> !DiscardsAt(c, tr, k)
    ensures MarksClosed(c, tr[|tr| - 1])
  {
    hide DiscardsAt, Run, MarksClosed, Quiescent;
    NoWorkLost(c, tr);
    NonEmptyRun(c, tr);
    InvalidIff(c, tr, |tr| - 1);
  }

  // ------------------------------------------------------- the bounds of the local stacks

  /** A local stack never outgrows its array; few entries are stolen at a time; and whoever
      shares its entries gives some away and keeps some. */
  predicate LocalFits(m: Marker) {
    && |m.local| <= LOCAL_MARK_STACK_SIZE
    && match m.pc
       case Steal(_, _, i, max) => |m.local| <= i && |m.local| <= max + 1 <= ENTRIES_TO_GET + 1
       case Clear(_, _, i, max, _) => |m.local| <= i <= max <= ENTRIES_TO_GET
       case AskHelpers => |m.local| > 2
       case CopyBack(count) => 0 < count <= |m.local| && (count < |m.local| - 1 || count == |m.local| > 2)
       case _ => true
  }

  ghost predicate LocalsFit(s: State) {
    forall i :: 0 <= i < |s.ms| ==> LocalFits(s.ms[i])
  }

  lemma StealFits(s: State, id: nat, a: Action, c: Config)
    requires Shape(c, s) && Enabled(c, s, id, a) && MarkerShape(c, s.first, |s.slots|, s.ms[id])
    requires a.StealRead? || a.StealClear? || a.StealDone? || a.ReadStackTop? || a.TakeLock?
    requires LocalFits(s.ms[id])
    ensures LocalFits(Do(c, s, id, a).ms[id])
  {
    hide Shape, ReturnEntries, ExamineField, TakeFrom, PushTarget, MarkTarget;
  }

  lemma ControlFits(s: State, id: nat, a: Action, c: Config)
    requires Shape(c, s) && Enabled(c, s, id, a) && MarkerShape(c, s.first, |s.slots|, s.ms[id])
    requires IsControl(a) && !a.ReadStackTop? && !a.TakeLock? && LocalFits(s.ms[id])
    ensures LocalFits(Do(c, s, id, a).ms[id])
  {
    hide Shape;
  }

  lemma WorkFits(s: State, id: nat, a: Action, c: Config)
    requires Shape(c, s) && Enabled(c, s, id, a) && MarkerShape(c, s.first, |s.slots|, s.ms[id])
    requires !IsControl(a) && !(a.StealRead? || a.StealClear? || a.StealDone?) && LocalFits(s.ms[id])
    ensures LocalFits(Do(c, s, id, a).ms[id])
  {
    assert c.Valid();
    hide Shape, StealSlot;
  }

  lemma OthersStay(c: Config, s: State, id: nat, a: Action)
    requires Shape(c, s) && Enabled(c, s, id, a)
    ensures var s' := Do(c, s, id, a);
      |s'.ms| == |s.ms| && forall i :: 0 <= i < |s.ms| && i != id ==> s'.ms[i] == s.ms[i]
  {
    if IsControl(a) { ControlAlone(c, s, id, a); } else { WorkAlone(c, s, id, a); }
    hide Do, Shape, Enabled;
  }

  lemma ControlAlone(c: Config, s: State, id: nat, a: Action)
    requires Shape(c, s) && Enabled(c, s, id, a) && IsControl(a)
    ensures Do(c, s, id, a).ms == s.ms[id := Do(c, s, id, a).ms[id]]
  {
    hide Shape;
  }

  lemma WorkAlone(c: Config, s: State, id: nat, a: Action)
    requires Shape(c, s) && Enabled(c, s, id, a) && !IsControl(a)
    ensures Do(c, s, id, a).ms == s.ms[id := Do(c, s, id, a).ms[id]]
  {
    hide Shape, ExamineField, TakeFrom, PushTarget;
  }

  lemma FitsNext(c: Config, s: State, s': State)
    requires LocalsFit(s) && Next(c, s, s')
    ensures LocalsFit(s')
  {
    hide Do, LocalFits;
    var id: nat, a :| Enabled(c, s, id, a) && s' == Do(c, s, id, a);
    assert MarkerShape(c, s.first, |s.slots|, s.ms[id]);
    hide Enabled;
    hide Shape, MarkerShape;
    OthersStay(c, s, id, a);
    if a.StealRead? || a.StealClear? || a.StealDone? || a.ReadStackTop? || a.TakeLock? {
      StealFits(s, id, a, c);
    } else if IsControl(a) {
      ControlFits(s, id, a, c);
    } else {
      WorkFits(s, id, a, c);
    }
  }

  lemma {:induction false} RunFits(c: Config, tr: seq<State>, i: nat)
    requires Run(c, tr) && i < |tr|
    ensures LocalsFit(tr[i])
    decreases i
  {
    hide LocalsFit, Enabled, Do, Shape;
    if i == 0 {
      InitFits(c, tr[0]);
    } else {
      RunFits(c, tr, i - 1);
      assert Next(c, tr[i - 1], tr[i - 1 + 1]);
      FitsNext(c, tr[i - 1], tr[i]);
    }
  }

  lemma InitFits(c: Config, s: State)
    requires Init(c, s)
    ensures LocalsFit(s)
  {
    hide Shape, NoLoss;
  }

  // ------------------------------------------------------- nothing else is marked

  /** All that the entry still has to examine designates members of `d`. */
  ghost predicate Leads(c: Config, d: set<nat>, e: Entry) {
    e.obj < |c.fields| && forall k :: e.lo <= k < e.hi && k < |c.fields[e.obj]| ==> c.fields[e.obj][k] in d
  }

  ghost predicate ClosedSet(c: Config, d: set<nat>) {
    forall o, k :: o in d && o < |c.fields| && 0 <= k < |c.fields[o]| ==> c.fields[o][k] in d
  }

  ghost predicate MarkerWithin(c: Config, d: set<nat>, m: Marker) {
    && (forall j :: 0 <= j < |m.local| ==> Leads(c, d, m.local[j]))
    && (m.pc.Clear? || m.pc.Scan? || m.pc.Push? ==> Leads(c, d, m.pc.e))
  }

  ghost predicate SlotsWithin(c: Config, d: set<nat>, slots: seq<Option<Entry>>) {
    forall j :: 0 <= j < |slots| && slots[j].Some? ==> Leads(c, d, slots[j].value)
  }

  /** Marks and entries stay within `d`. */
  ghost predicate Within(c: Config, d: set<nat>, s: State) {
    && s.marked <= d && SlotsWithin(c, d, s.slots)
    && forall i :: 0 <= i < |s.ms| ==> MarkerWithin(c, d, s.ms[i])
  }

  lemma IndexGains(c: Config, s: State, id: nat, a: Action)
    requires Shape(c, s) && Enabled(c, s, id, a)
    requires a.Join? || a.ReadFirst? || a.CompareFirst? || a.ReadStackTop?
    ensures Unburdened(s, Do(c, s, id, a), id)
  {
    hide Shape, MarkerShape, ReturnEntries, StealSlot, MarkTarget, ExamineField, TakeFrom, PushTarget, NumberToGet;
  }

  lemma LockGains(c: Config, s: State, id: nat, a: Action)
    requires Shape(c, s) && Enabled(c, s, id, a)
    requires a.TakeLock? || a.TestWait? || a.Wake? || a.LeaveOrStay?
    ensures Unburdened(s, Do(c, s, id, a), id)
  {
    hide Shape, MarkerShape, ReturnEntries, StealSlot, MarkTarget, ExamineField, TakeFrom, PushTarget, NumberToGet;
  }

  /** Marker `id` has gained no entry, and the marks and the global stack are as before. */
  ghost predicate Unburdened(s: State, s': State, id: nat)
    requires id < |s.ms|
  {
    && s'.marked == s.marked && s'.slots == s.slots && id < |s'.ms|
    && var m := s'.ms[id];
       && (m.local == [] || m.local == s.ms[id].local)
       && !m.pc.Clear? && !m.pc.Scan? && !m.pc.Push?
  }

  lemma ControlWithin(c: Config, d: set<nat>, s: State, id: nat, a: Action)
    requires Shape(c, s) && Enabled(c, s, id, a) && IsControl(a) && MarkerWithin(c, d, s.ms[id])
    ensures var s' := Do(c, s, id, a);
      s'.marked == s.marked && s'.slots == s.slots && MarkerWithin(c, d, s'.ms[id])
  {
    if a.Join? || a.ReadFirst? || a.CompareFirst? || a.ReadStackTop? {
      IndexGains(c, s, id, a);
    } else {
      LockGains(c, s, id, a);
    }
    hide Do, Shape, Enabled, Leads;
  }

  lemma TakeWithin(c: Config, d: set<nat>, m: Marker, cut: nat, low: bool)
    requires m.local != [] && m.local[|m.local| - 1].lo <= cut <= m.local[|m.local| - 1].hi
    requires MarkerWithin(c, d, m)
    ensures MarkerWithin(c, d, TakeFrom(m, cut, low))
  {
    var e := m.local[|m.local| - 1];
    assert Leads(c, d, e);
  }

  lemma PushWithin(c: Config, d: set<nat>, m: Marker, t: nat)
    requires m.pc.Push? && t < |c.fields| && t in d && ClosedSet(c, d) && MarkerWithin(c, d, m)
    ensures MarkerWithin(c, d, PushTarget(c, m, t))
  {
    assert c.fields[t] != [] ==> Leads(c, d, Entry(t, 0, |c.fields[t]|));
    assert Leads(c, d, m.pc.e.(lo := m.pc.e.lo + 1));
    hide Leads;
  }

  lemma MarkWithin(c: Config, d: set<nat>, s: State, id: nat)
    requires Shape(c, s) && Enabled(c, s, id, MarkAndPush) && MarkerWithin(c, d, s.ms[id])
    requires ClosedSet(c, d) && s.marked <= d
    ensures var s' := Do(c, s, id, MarkAndPush);
      s.marked <= s'.marked <= d && MarkerWithin(c, d, s'.ms[id])
  {
    assert MarkerShape(c, s.first, |s.slots|, s.ms[id]);
    assert c.Valid();
    var m := s.ms[id];
    assert Target(c, m) in d;
    PushWithin(c, d, m, Target(c, m));
    hide Shape, MarkerShape, MarkerWithin, PushTarget, Overflows, Leads;
  }

  lemma ScanWithin(c: Config, d: set<nat>, s: State, id: nat, a: Action)
    requires Shape(c, s) && Enabled(c, s, id, a) && (a.TakeEntry? || a.Examine?) && MarkerWithin(c, d, s.ms[id])
    ensures var s' := Do(c, s, id, a);
      s'.marked == s.marked && MarkerWithin(c, d, s'.ms[id])
  {
    assert MarkerShape(c, s.first, |s.slots|, s.ms[id]);
    if a.TakeEntry? { TakeWithin(c, d, s.ms[id], a.cut, a.low); }
    hide Shape, TakeFrom;
  }

  lemma StealWithin(c: Config, d: set<nat>, s: State, id: nat, a: Action)
    requires Shape(c, s) && Enabled(c, s, id, a) && (a.StealRead? || a.StealClear?)
    requires MarkerWithin(c, d, s.ms[id]) && SlotsWithin(c, d, s.slots)
    ensures var s' := Do(c, s, id, a);
      s'.marked == s.marked && MarkerWithin(c, d, s'.ms[id])
  {
    assert MarkerShape(c, s.first, |s.slots|, s.ms[id]);
    hide Shape, Leads, ExamineField, TakeFrom, PushTarget, Deposit, MarkTarget, ReturnEntries, NumberToGet;
  }

  lemma ReturnWithin(c: Config, d: set<nat>, s: State, id: nat)
    requires Shape(c, s) && Enabled(c, s, id, DoCopyBack) && MarkerWithin(c, d, s.ms[id])
    ensures var s' := Do(c, s, id, DoCopyBack);
      s'.marked == s.marked && MarkerWithin(c, d, s'.ms[id])
  {
    assert MarkerShape(c, s.first, |s.slots|, s.ms[id]);
    hide Shape, Leads, Deposit;
  }

  /** The steps that move no entry. */
  predicate MovesNone(a: Action) {
    a.StealDone? || a.LocalEmpty? || a.ReturnAll? || a.ShareTest? || a.ShareHalf? || a.FinishPhase?
  }

  lemma NoneWithin(c: Config, d: set<nat>, s: State, id: nat, a: Action)
    requires Shape(c, s) && Enabled(c, s, id, a) && MovesNone(a) && MarkerWithin(c, d, s.ms[id])
    ensures var s' := Do(c, s, id, a);
      s'.marked == s.marked && MarkerWithin(c, d, s'.ms[id])
  {
    hide Shape, MarkerShape, Leads, ExamineField, TakeFrom, PushTarget, MarkTarget, ReturnEntries, StealSlot;
  }

  lemma WorkSlots(c: Config, d: set<nat>, s: State, id: nat, a: Action)
    requires Shape(c, s) && Enabled(c, s, id, a) && !IsControl(a) && MarkerWithin(c, d, s.ms[id])
    requires SlotsWithin(c, d, s.slots)
    ensures SlotsWithin(c, d, Do(c, s, id, a).slots)
  {
    assert MarkerShape(c, s.first, |s.slots|, s.ms[id]);
    hide Shape, Leads, ExamineField, TakeFrom, PushTarget;
  }

  lemma WithinNext(c: Config, d: set<nat>, s: State, s': State)
    requires Within(c, d, s) && ClosedSet(c, d) && Next(c, s, s')
    ensures Within(c, d, s') && s.marked <= s'.marked
  {
    hide Do, Enabled, MarkerWithin, SlotsWithin, Shape, ClosedSet;
    var id: nat, a :| Enabled(c, s, id, a) && s' == Do(c, s, id, a);
    OthersStay(c, s, id, a);
    EnabledMarker(c, s, id, a);
    if IsControl(a) {
      ControlWithin(c, d, s, id, a);
    } else {
      WorkSlots(c, d, s, id, a);
      if a.MarkAndPush? {
        MarkWithin(c, d, s, id);
      } else if a.TakeEntry? || a.Examine? {
        ScanWithin(c, d, s, id, a);
      } else if a.DoCopyBack? {
        ReturnWithin(c, d, s, id);
      } else if MovesNone(a) {
        NoneWithin(c, d, s, id, a);
      } else {
        StealWithin(c, d, s, id, a);
      }
    }
  }

  lemma EnabledMarker(c: Config, s: State, id: nat, a: Action)
    requires Enabled(c, s, id, a)
    ensures id < |s.ms|
  {
  }

  /** Whatever closed set holds the marks at the start and all that the entries on the stack
      designate holds the marks in every state of the run, and no mark is ever taken back. */
  lemma {:induction false} RunWithin(c: Config, tr: seq<State>, d: set<nat>, i: nat)
    requires Run(c, tr) && i < |tr| && ClosedSet(c, d)
    requires tr[0].marked <= d && SlotsWithin(c, d, tr[0].slots)
    ensures Within(c, d, tr[i]) && tr[0].marked <= tr[i].marked
    decreases i
  {
    hide Enabled, Do, Shape, Within, SlotsWithin, ClosedSet;
    if i == 0 {
      FirstWithin(c, tr, d);
    } else {
      RunWithin(c, tr, d, i - 1);
      assert Next(c, tr[i - 1], tr[i - 1 + 1]);
      WithinNext(c, d, tr[i - 1], tr[i]);
    }
  }

  lemma FirstWithin(c: Config, tr: seq<State>, d: set<nat>)
    requires Run(c, tr) && tr[0].marked <= d && SlotsWithin(c, d, tr[0].slots)
    ensures Within(c, d, tr[0])
  {
    hide Shape, NoLoss;
  }

  /** A phase that starts with entries of marked objects and discards none marks exactly what
      the marks at its start lead to: a closed set, and one inside every other. */
  lemma MarksExactly(c: Config, tr: seq<State>, d: set<nat>)
    requires Run(c, tr) && tr[|tr| - 1].finished
    requires forall k :: 0 <= k < |tr| ==> !DiscardsAt(c, tr, k)
    requires forall j :: 0 <= j < |tr[0].slots| && tr[0].slots[j].Some? ==> tr[0].slots[j].value.obj in tr[0].marked
    ensures MarksClosed(c, tr[|tr| - 1])
    ensures ClosedSet(c, d) && tr[0].marked <= d ==> tr[0].marked <= tr[|tr| - 1].marked <= d
  {
    MarksClosedAtEnd(c, tr);
    hide DiscardsAt, MarksClosed;
    if ClosedSet(c, d) && tr[0].marked <= d {
      StartLeads(c, tr[0], d);
      RunWithin(c, tr, d, |tr| - 1);
    }
    hide Run;
  }

  lemma StartLeads(c: Config, s: State, d: set<nat>)
    requires Init(c, s) && ClosedSet(c, d) && s.marked <= d
    requires forall j :: 0 <= j < |s.slots| && s.slots[j].Some? ==> s.slots[j].value.obj in s.marked
    ensures SlotsWithin(c, d, s.slots)
  {
    hide NoLoss;
  }
}
