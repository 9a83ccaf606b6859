/** Parallel marking: the initiator and any number of helpers share a global mark stack
    that only grows, each working on a local stack of its own.  Every step below is one
    atomic action of one marker; a section run under the mark lock is one step except
    where another marker may act in the middle of it. */
module ParallelMark {

  const ENTRIES_TO_GET := 5
  const LOCAL_MARK_STACK_SIZE := 4096
  const MARK_STACK_DISCARDS := 512

  datatype Option<T> = None | Some(value: T)

  /** Fields `lo` to `hi` of an object, still to be examined. */
  datatype Entry = Entry(obj: nat, lo: nat, hi: nat) {
    predicate Covers(o: nat, k: nat) {
      obj == o && lo <= k < hi
    }

    predicate Fits(c: Config) {
      obj < |c.fields| && lo <= hi <= |c.fields[obj]|
    }
  }

  /** What never changes during a mark phase: the pointer fields of every object, the
      capacity of the global stack, and the number of markers. */
  datatype Config = Config(fields: seq<seq<nat>>, size: nat, markers: nat) {
    ghost predicate Valid() {
      && markers > 0
      && forall o, k :: 0 <= o < |fields| && 0 <= k < |fields[o]| ==> fields[o][k] < |fields|
    }
  }

  datatype Pc =
    | Out                                   // has not joined
    | Loop                                  // at the head of the marking loop
    | Compare(seen: nat)                    // has read GC_first_nonempty
    | ReadTop                               // about to read GC_mark_stack_top
    | AskLock                               // found the stack exhausted, wants the mark lock
    | Idle                                  // inactive, holds the lock, about to test whether to wait
    | Waiting                               // inactive, waits to be notified
    | Decide                                // inactive, holds the lock, about to leave or go on
    | Steal(p: nat, end: nat, i: nat, max: nat)
    | Clear(p: nat, end: nat, i: nat, max: nat, e: Entry)   // has read the descriptor of slot p
    | Mark                                  // working on the local stack
    | Scan(e: Entry)                        // examining e, which is on no stack
    | Push(e: Entry)                        // found the first field of e unmarked
    | AskHelpers                            // found the stack exhausted, asks whether helpers are idle
    | CopyBack(count: nat)                  // about to return that many local entries
    | Draining                              // the initiator, waiting for the helpers to leave
    | Left

  datatype Marker = Marker(pc: Pc, first: nat, local: seq<Entry>) {
    /** Counted by GC_active_count. */
    predicate Active() {
      match pc
      case Out | Idle | Waiting | Decide | Draining | Left => false
      case _ => true
    }

    /** Counted by GC_helper_count. */
    predicate Joined() {
      Active() || pc.Idle? || pc.Waiting? || pc.Decide?
    }

    predicate HoldsLock() {
      pc.Idle? || pc.Decide?
    }

    /** May have entries of its own. */
    predicate Working() {
      pc.Steal? || pc.Clear? || pc.Mark? || pc.Scan? || pc.Push? || pc.AskHelpers? || pc.CopyBack?
    }

    /** All slots of the global stack below this one are known to be empty. */
    function Frontier(): nat {
      match pc
      case Steal(p, _, _, _) => p
      case Clear(p, _, _, _, _) => p
      case _ => first
    }

    ghost predicate Holds(o: nat, k: nat) {
      || (exists j :: 0 <= j < |local| && local[j].Covers(o, k))
      || ((pc.Scan? || pc.Push?) && pc.e.Covers(o, k))
    }
  }

  /** `slots` are the entries of the global stack up to its top; a stolen one is None.
      `deposited` and `takers` record what each slot first held and who took it. */
  datatype State = State(
    slots: seq<Option<Entry>>,
    first: nat,
    active: int,
    helpers: int,
    wanted: bool,
    lock: Option<nat>,
    marked: set<nat>,
    invalid: bool,
    finished: bool,
    ms: seq<Marker>,
    deposited: seq<Entry>,
    takers: seq<set<nat>>)

  /** The bounds that the assertions in the code speak of. */
  ghost predicate Shape(c: Config, s: State) {
    && c.Valid()
    && |s.ms| == c.markers
    && s.first <= |s.slots| <= c.size
    && |s.deposited| == |s.takers| == |s.slots|
    && (forall j :: 0 <= j < |s.slots| && s.slots[j].Some? ==> s.slots[j].value.Fits(c))
    && (forall i :: 0 <= i < |s.ms| ==> MarkerShape(c, s.first, |s.slots|, s.ms[i]))
  }

  ghost predicate MarkerShape(c: Config, first: nat, n: nat, m: Marker) {
    && m.first <= n
    && (forall j :: 0 <= j < |m.local| ==> m.local[j].Fits(c))
    && (m.local != [] ==> m.Working())
    && match m.pc
       case Compare(seen) => seen <= first
       case Steal(p, end, _, _) => m.first <= p <= end <= n
       case Clear(p, end, _, _, e) => m.first <= p < end <= n && e.Fits(c)
       case Scan(e) => e.Fits(c)
       case Push(e) => e.Fits(c) && e.lo < e.hi
       case CopyBack(count) => count <= |m.local|
       case _ => true
  }

  ghost predicate Init(c: Config, s: State) {
    && Shape(c, s)
    && (forall j :: 0 <= j < |s.slots| ==> s.slots[j] == Some(s.deposited[j]) && s.takers[j] == {})
    && s.first == 0 && s.active == 1 && s.helpers == 1 && s.wanted && s.lock == None
    && !s.invalid && !s.finished
    && s.ms[0] == Marker(Loop, 0, [])
    && (forall i :: 0 < i < |s.ms| ==> s.ms[i] == Marker(Out, 0, []))
    && NoLoss(c, s)
  }

  datatype Action =
    | Join | ReadFirst | CompareFirst | ReadStackTop | TakeLock | TestWait | Wake | LeaveOrStay
    | StealRead | StealClear | StealDone
    | TakeEntry(cut: nat, low: bool) | Examine | MarkAndPush | LocalEmpty
    | ReturnAll | ShareTest | ShareHalf | DoCopyBack
    | FinishPhase

  function NumberToGet(onStack: nat): nat {
    if onStack < 2 * ENTRIES_TO_GET then 1 else ENTRIES_TO_GET
  }

  function With(s: State, id: nat, m: Marker): State
    requires id < |s.ms|
  {
    s.(ms := s.ms[id := m])
  }

  /** Whether marker `id` may take action `a`.  Stack top and first index are loaded one after
      the other before sharing, at different moments, so that test may come out either way. */
  predicate Enabled(c: Config, s: State, id: nat, a: Action) {
    id < |s.ms| &&
    var m := s.ms[id];
    match a
    case Join => m.pc.Out? && id > 0 && s.lock.None? && s.wanted && s.helpers < c.markers
    case ReadFirst => m.pc.Loop?
    case CompareFirst => m.pc.Compare?
    case ReadStackTop => m.pc.ReadTop?
    case TakeLock => m.pc.AskLock? && s.lock.None?
    case TestWait => m.pc.Idle?
    case Wake => m.pc.Waiting? && s.lock.None?
    case LeaveOrStay => m.pc.Decide?
    case StealRead => m.pc.Steal? && m.pc.p < m.pc.end && m.pc.i <= m.pc.max
    case StealClear => m.pc.Clear?
    case StealDone => m.pc.Steal? && !(m.pc.p < m.pc.end && m.pc.i <= m.pc.max)
    case TakeEntry(cut, _) =>
      m.pc.Mark? && m.local != [] && m.local[|m.local| - 1].lo <= cut <= m.local[|m.local| - 1].hi
    case Examine => m.pc.Scan?
    case MarkAndPush => m.pc.Push?
    case LocalEmpty => m.pc.Mark? && m.local == []
    case ReturnAll => m.pc.Mark? && |m.local| > LOCAL_MARK_STACK_SIZE / 2
    case ShareTest => m.pc.Mark? && |m.local| > 2
    case ShareHalf => m.pc.AskHelpers? && s.lock.None?
    case DoCopyBack => m.pc.CopyBack? && s.lock.None?
    case FinishPhase => m.pc.Draining? && s.lock.None? && s.helpers == 0
  }

  function Deposit(es: seq<Entry>): seq<Option<Entry>> {
    seq(|es|, j requires 0 <= j < |es| => Some(es[j]))
  }

  /** Take the topmost local entry to be scanned, or one part of it when it is split. */
  function TakeFrom(m: Marker, cut: nat, low: bool): Marker
    requires m.local != [] && m.local[|m.local| - 1].lo <= cut <= m.local[|m.local| - 1].hi
  {
    var e := m.local[|m.local| - 1];
    var below := m.local[..|m.local| - 1];
    var a, b := Entry(e.obj, e.lo, cut), Entry(e.obj, cut, e.hi);
    if low then m.(pc := Scan(a), local := if cut < e.hi then below + [b] else below)
    else m.(pc := Scan(b), local := if e.lo < cut then below + [a] else below)
  }

  /** Look at the mark of what the next field of the entry in hand designates. */
  function ExamineField(c: Config, marked: set<nat>, m: Marker): Marker
    requires m.pc.Scan? && m.pc.e.Fits(c)
  {
    var e := m.pc.e;
    if e.lo == e.hi then m.(pc := Mark)
    else if c.fields[e.obj][e.lo] in marked then m.(pc := Scan(e.(lo := e.lo + 1)))
    else m.(pc := Push(e))
  }

  /** Pushing `t` on the local stack overflows it. */
  predicate Overflows(c: Config, m: Marker, t: nat) {
    |m.local| >= LOCAL_MARK_STACK_SIZE && t < |c.fields| && c.fields[t] != []
  }

  /** Push the newly marked `t` and go on with the next field. */
  function PushTarget(c: Config, m: Marker, t: nat): Marker
    requires m.pc.Push? && t < |c.fields|
  {
    var kept := if Overflows(c, m, t) then m.local[..LOCAL_MARK_STACK_SIZE - MARK_STACK_DISCARDS] else m.local;
    m.(pc := Scan(m.pc.e.(lo := m.pc.e.lo + 1)),
       local := if c.fields[t] == [] then kept else kept + [Entry(t, 0, |c.fields[t]|)])
  }

  /** Clear the slot whose descriptor was read and put its entry on the local stack. */
  function StealSlot(s: State, id: nat): State
    requires id < |s.ms| && s.ms[id].pc.Clear? && s.ms[id].pc.p < |s.slots| == |s.takers|
    requires s.ms[id].pc.e.lo <= s.ms[id].pc.e.hi
  {
    var m := s.ms[id];
    var p := m.pc.p;
    var i := m.pc.i + 1 + (m.pc.e.hi - m.pc.e.lo) / 32;
    With(s, id, m.(pc := Steal(p + 1, m.pc.end, i, m.pc.max), local := m.local + [m.pc.e]))
      .(slots := s.slots[p := None], takers := s.takers[p := s.takers[p] + {id}])
  }

  /** Mark what the field in hand designates and push it on the local stack. */
  ghost function MarkTarget(c: Config, s: State, id: nat): State
    requires c.Valid() && id < |s.ms| && s.ms[id].pc.Push? && s.ms[id].pc.e.Fits(c)
    requires s.ms[id].pc.e.lo < s.ms[id].pc.e.hi
  {
    var m := s.ms[id];
    var t := c.fields[m.pc.e.obj][m.pc.e.lo];
    With(s, id, PushTarget(c, m, t))
      .(marked := s.marked + {t}, invalid := s.invalid || Overflows(c, m, t))
  }

  /** Append the lowest local entries to the global stack, or drop them for want of room. */
  function ReturnEntries(c: Config, s: State, id: nat): State
    requires id < |s.ms| && s.ms[id].pc.CopyBack? && s.ms[id].pc.count <= |s.ms[id].local|
  {
    var m := s.ms[id];
    var back := m.local[..m.pc.count];
    var rest := m.local[m.pc.count..];
    var s' := With(s, id, m.(pc := if rest == [] then Loop else Mark, local := rest));
    if |s.slots| + m.pc.count > c.size then
      s'.(invalid := true)
    else
      s'.(slots := s.slots + Deposit(back),
          deposited := s.deposited + back,
          takers := s.takers + seq(|back|, _ => {}))
  }

  /** The effect of action `a` of marker `id`. */
  ghost function Do(c: Config, s: State, id: nat, a: Action): State
    requires Shape(c, s) && Enabled(c, s, id, a)
  {
    assert MarkerShape(c, s.first, |s.slots|, s.ms[id]);
    var m := s.ms[id];
    match a
    case Join =>
      With(s, id, Marker(Loop, s.first, [])).(helpers := s.helpers + 1, active := s.active + 1)
    case ReadFirst =>
      With(s, id, m.(pc := Compare(s.first)))
    case CompareFirst =>
      if m.first < m.pc.seen then
        With(s, id, m.(pc := ReadTop, first := m.pc.seen))
      else if m.pc.seen < m.first && s.first == m.pc.seen then
        With(s, id, m.(pc := ReadTop)).(first := m.first)
      else
        With(s, id, m.(pc := ReadTop))
    case ReadStackTop =>
      if |s.slots| <= m.first then
        With(s, id, m.(pc := AskLock))
      else
        With(s, id, m.(pc := Steal(m.first, |s.slots|, 0, NumberToGet(|s.slots| - m.first))))
    case TakeLock =>
      if |s.slots| <= m.first then
        With(s, id, m.(pc := Idle)).(active := s.active - 1, lock := Some(id))
      else
        With(s, id, m.(pc := Steal(m.first, |s.slots|, 0, NumberToGet(|s.slots| - m.first))))
    case TestWait =>
      if s.active > 0 && |s.slots| <= s.first then
        With(s, id, m.(pc := Waiting)).(lock := None)
      else
        With(s, id, m.(pc := Decide))
    case Wake =>
      With(s, id, m.(pc := Idle)).(lock := Some(id))
    case LeaveOrStay =>
      if s.active == 0 && |s.slots| <= s.first then
        With(s, id, m.(pc := if id == 0 then Draining else Left))
          .(helpers := s.helpers - 1, lock := None, wanted := s.wanted && id != 0)
      else
        With(s, id, m.(pc := Loop)).(active := s.active + 1, lock := None)
    case StealRead =>
      (match s.slots[m.pc.p]
       case None => With(s, id, m.(pc := Steal(m.pc.p + 1, m.pc.end, m.pc.i, m.pc.max)))
       case Some(e) => With(s, id, m.(pc := Clear(m.pc.p, m.pc.end, m.pc.i, m.pc.max, e))))
    case StealClear =>
      StealSlot(s, id)
    case StealDone =>
      With(s, id, m.(pc := Mark, first := m.pc.p))
    case TakeEntry(cut, low) =>
      With(s, id, TakeFrom(m, cut, low))
    case Examine =>
      With(s, id, ExamineField(c, s.marked, m))
    case MarkAndPush =>
      MarkTarget(c, s, id)
    case LocalEmpty =>
      With(s, id, m.(pc := Loop))
    case ReturnAll =>
      With(s, id, m.(pc := CopyBack(|m.local|)))
    case ShareTest =>
      With(s, id, m.(pc := AskHelpers))
    case ShareHalf =>
      if s.active < s.helpers then
        With(s, id, m.(pc := CopyBack(if m.local == [] then 0 else (|m.local| - 1) / 2)))
      else
        With(s, id, m.(pc := Mark))
    case DoCopyBack =>
      ReturnEntries(c, s, id)
    case FinishPhase =>
      With(s, id, m.(pc := Left)).(finished := true)
  }

  ghost predicate Next(c: Config, s: State, s': State) {
    Shape(c, s) && exists id: nat, a :: Enabled(c, s, id, a) && s' == Do(c, s, id, a)
  }

  // ------------------------------------------------------------------ invariants

  /** Field `k` of object `o` is in an entry that is on the global stack or with a marker. */
  ghost predicate Pending(s: State, o: nat, k: nat) {
    || (exists j :: 0 <= j < |s.slots| && s.slots[j].Some? && s.slots[j].value.Covers(o, k))
    || (exists i :: 0 <= i < |s.ms| && s.ms[i].Holds(o, k))
  }

  /** Every field of every marked object designates a marked object or is still pending. */
  ghost predicate NoLoss(c: Config, s: State) {
    forall o, k :: o in s.marked && o < |c.fields| && 0 <= k < |c.fields[o]| ==>
      c.fields[o][k] in s.marked || Pending(s, o, k)
  }

  /** Slots below GC_first_nonempty and below each marker's own first index are empty. */
  ghost predicate Emptied(s: State) {
    && (forall j :: 0 <= j < s.first && j < |s.slots| ==> s.slots[j].None?)
    && (forall i, j :: 0 <= i < |s.ms| && 0 <= j < s.ms[i].Frontier() && j < |s.slots| ==> s.slots[j].None?)
  }

  function CountActive(ms: seq<Marker>): nat {
    if ms == [] then 0 else CountActive(ms[..|ms| - 1]) + if ms[|ms| - 1].Active() then 1 else 0
  }

  function CountJoined(ms: seq<Marker>): nat {
    if ms == [] then 0 else CountJoined(ms[..|ms| - 1]) + if ms[|ms| - 1].Joined() then 1 else 0
  }

  ghost predicate Counts(s: State) {
    s.active == CountActive(s.ms) && s.helpers == CountJoined(s.ms)
  }

  ghost predicate LockOk(s: State) {
    && (s.lock.Some? ==> s.lock.value < |s.ms|)
    && forall i: nat :: i < |s.ms| ==> (s.ms[i].HoldsLock() <==> s.lock == Some(i))
  }

  /** A slot holds what was deposited there until somebody takes it. */
  ghost predicate Taken(s: State)
    requires |s.slots| == |s.deposited| == |s.takers|
  {
    && (forall j :: 0 <= j < |s.slots| ==>
          if s.slots[j].None? then s.takers[j] != {} else s.slots[j].value == s.deposited[j])
    && (forall i :: 0 <= i < |s.ms| && s.ms[i].pc.Clear? && s.ms[i].pc.p < |s.slots| ==>
          s.ms[i].pc.e == s.deposited[s.ms[i].pc.p])
  }

  ghost predicate Ending(c: Config, s: State)
    requires c.Valid() && |s.ms| == c.markers
  {
    && (s.helpers == 0 ==> s.first == |s.slots|)
    && (s.wanted <==> s.ms[0].Joined())
    && (!s.wanted <==> s.ms[0].pc.Draining? || s.ms[0].pc.Left?)
    && (s.finished ==> s.helpers == 0 && s.ms[0].pc.Left?)
    && (forall i :: 0 < i < |s.ms| ==> !s.ms[i].pc.Draining?)
    && (s.ms[0].pc.Left? ==> s.finished)
  }

  ghost predicate Inv(c: Config, s: State) {
    Shape(c, s) && Emptied(s) && Counts(s) && LockOk(s) && Taken(s) && Ending(c, s) && (s.invalid || NoLoss(c, s))
  }

  lemma {:induction false} CountUpdate(ms: seq<Marker>, id: nat, m: Marker)
    requires id < |ms|
    ensures CountActive(ms[id := m]) ==
            CountActive(ms) - (if ms[id].Active() then 1 else 0) + (if m.Active() then 1 else 0)
    ensures CountJoined(ms[id := m]) ==
            CountJoined(ms) - (if ms[id].Joined() then 1 else 0) + (if m.Joined() then 1 else 0)
    decreases |ms|
  {
    var ms' := ms[id := m];
    if id < |ms| - 1 {
      CountUpdate(ms[..|ms| - 1], id, m);
      assert ms'[..|ms| - 1] == ms[..|ms| - 1][id := m];
    } else {
      assert ms'[..|ms| - 1] == ms[..|ms| - 1];
    }
  }

  lemma {:induction false} JoinedCounts(ms: seq<Marker>, id: nat)
    requires id < |ms| && ms[id].Joined()
    ensures CountJoined(ms) > 0
    decreases |ms|
  {
    if id < |ms| - 1 {
      JoinedCounts(ms[..|ms| - 1], id);
    }
  }

  /** A change of marker `id` to `m` and of the counters that keeps every entry it holds. */
  ghost predicate Quiet(c: Config, s: State, s': State, id: nat, m: Marker) {
    && id < |s.ms|
    && s'.ms == s.ms[id := m]
    && s'.slots == s.slots && s'.marked == s.marked && s'.invalid == s.invalid
    && s'.deposited == s.deposited && s'.takers == s.takers
    && s.first <= s'.first <= |s.slots|
    && (forall j :: 0 <= j < s'.first ==> s.slots[j].None?)
    && (forall j :: 0 <= j < m.Frontier() && j < |s.slots| ==> s.slots[j].None?)
    && MarkerShape(c, s'.first, |s.slots|, m)
    && (forall o: nat, k: nat :: s.ms[id].Holds(o, k) ==>
          m.Holds(o, k) || (o < |c.fields| && k < |c.fields[o]| && c.fields[o][k] in s.marked))
  }

  lemma QuietShape(c: Config, s: State, s': State, id: nat, m: Marker)
    requires Shape(c, s) && Emptied(s) && Quiet(c, s, s', id, m)
    ensures Shape(c, s') && Emptied(s')
  {
    forall i | 0 <= i < |s'.ms| ensures MarkerShape(c, s'.first, |s'.slots|, s'.ms[i]) {
      assert MarkerShape(c, s.first, |s.slots|, s.ms[i]);
    }
  }

  lemma QuietLoss(c: Config, s: State, s': State, id: nat, m: Marker)
    requires NoLoss(c, s) && Quiet(c, s, s', id, m)
    ensures NoLoss(c, s')
  {
    forall o, k | o in s.marked && o < |c.fields| && 0 <= k < |c.fields[o]| && c.fields[o][k] !in s.marked
      ensures Pending(s', o, k)
    {
      assert Pending(s, o, k);
      if i :| 0 <= i < |s.ms| && s.ms[i].Holds(o, k) {
        assert s'.ms[i].Holds(o, k);
      }
    }
  }

  /** Counters, lock and ending condition of `s'` fit the change of marker `id` to `m`. */
  ghost predicate Books(c: Config, s: State, s': State, id: nat, m: Marker)
    requires c.Valid() && |s.ms| == |s'.ms| == c.markers && id < |s.ms|
  {
    && s'.active == s.active - (if s.ms[id].Active() then 1 else 0) + (if m.Active() then 1 else 0)
    && s'.helpers == s.helpers - (if s.ms[id].Joined() then 1 else 0) + (if m.Joined() then 1 else 0)
    && (if m.HoldsLock() then s'.lock == Some(id) && (s.lock == None || s.ms[id].HoldsLock())
        else if s.ms[id].HoldsLock() then s'.lock == None
        else s'.lock == s.lock)
    && (m.pc.Clear? && m.pc.p < |s.deposited| ==> m.pc.e == s.deposited[m.pc.p])
    && Ending(c, s')
  }

  lemma QuietLock(s: State, s': State, id: nat, m: Marker)
    requires LockOk(s) && id < |s.ms| && s'.ms == s.ms[id := m]
    requires if m.HoldsLock() then s'.lock == Some(id) && (s.lock == None || s.ms[id].HoldsLock())
             else if s.ms[id].HoldsLock() then s'.lock == None
             else s'.lock == s.lock
    ensures LockOk(s')
  {
    assert forall i: nat :: i < |s.ms| ==> (s.ms[i].HoldsLock() <==> s.lock == Some(i));
  }

  lemma QuietTaken(s: State, s': State, id: nat, m: Marker)
    requires |s.slots| == |s.deposited| == |s.takers| && Taken(s) && id < |s.ms| && s'.ms == s.ms[id := m]
    requires s'.slots == s.slots && s'.deposited == s.deposited && s'.takers == s.takers
    requires m.pc.Clear? && m.pc.p < |s.deposited| ==> m.pc.e == s.deposited[m.pc.p]
    ensures Taken(s')
  {
  }

  lemma QuietStep(c: Config, s: State, s': State, id: nat, m: Marker)
    requires Inv(c, s) && Quiet(c, s, s', id, m) && Books(c, s, s', id, m)
    ensures Inv(c, s')
  {
    hide NoLoss, CountActive, CountJoined, MarkerShape, LockOk, Taken, Ending, Emptied, Marker.Holds;
    QuietShape(c, s, s', id, m);
    QuietLock(s, s', id, m);
    QuietTaken(s, s', id, m);
    if !s.invalid { QuietLoss(c, s, s', id, m); }
    CountUpdate(s.ms, id, m);
  }

  lemma HoldsLocal(m: Marker, m': Marker)
    requires m'.local == m.local && !m.pc.Scan? && !m.pc.Push?
    ensures forall o, k :: m.Holds(o, k) ==> m'.Holds(o, k)
  {
  }

  /** Both work on a local stack and know the same slots to be empty. */
  ghost predicate SameStanding(m: Marker, m': Marker) {
    && m.Active() && m'.Active() && m'.first == m.first
    && m.Frontier() == m'.Frontier() == m.first
    && !m'.pc.Clear? && !m'.pc.Draining? && !m'.pc.Left?
  }

  lemma TakeKeeps(c: Config, first: nat, n: nat, m: Marker, cut: nat, low: bool)
    requires MarkerShape(c, first, n, m) && m.pc.Mark?
    requires m.local != [] && m.local[|m.local| - 1].lo <= cut <= m.local[|m.local| - 1].hi
    ensures MarkerShape(c, first, n, TakeFrom(m, cut, low))
    ensures SameStanding(m, TakeFrom(m, cut, low))
    ensures forall o, k :: m.Holds(o, k) ==> TakeFrom(m, cut, low).Holds(o, k)
  {
    var m' := TakeFrom(m, cut, low);
    var e, n := m.local[|m.local| - 1], |m.local| - 1;
    forall o, k | m.Holds(o, k) ensures m'.Holds(o, k) {
      var j :| 0 <= j < |m.local| && m.local[j].Covers(o, k);
      if j < n {
        assert m'.local[j].Covers(o, k);
      } else if !m'.pc.e.Covers(o, k) {
        assert m'.local[n].Covers(o, k);
      }
    }
  }

  lemma ExamineKeeps(c: Config, first: nat, n: nat, marked: set<nat>, m: Marker)
    requires MarkerShape(c, first, n, m) && m.pc.Scan?
    ensures MarkerShape(c, first, n, ExamineField(c, marked, m))
    ensures SameStanding(m, ExamineField(c, marked, m))
    ensures forall o: nat, k: nat :: m.Holds(o, k) ==>
      ExamineField(c, marked, m).Holds(o, k) || (o < |c.fields| && k < |c.fields[o]| && c.fields[o][k] in marked)
  {
  }

  lemma StepJoin(c: Config, s: State, id: nat)
    requires Inv(c, s) && Enabled(c, s, id, Join)
    ensures Inv(c, Do(c, s, id, Join))
  {
    hide Marker.Holds, NoLoss, CountActive, CountJoined, Taken, LockOk;
    var s' := Do(c, s, id, Join);
    assert MarkerShape(c, s.first, |s.slots|, s.ms[id]);
    HoldsLocal(s.ms[id], s'.ms[id]);
    QuietStep(c, s, s', id, s'.ms[id]);
  }

  lemma StepCompareFirst(c: Config, s: State, id: nat)
    requires Inv(c, s) && Enabled(c, s, id, CompareFirst)
    ensures Inv(c, Do(c, s, id, CompareFirst))
  {
    hide Marker.Holds, NoLoss, CountActive, CountJoined, Taken, LockOk;
    var s' := Do(c, s, id, CompareFirst);
    assert MarkerShape(c, s.first, |s.slots|, s.ms[id]);
    HoldsLocal(s.ms[id], s'.ms[id]);
    QuietStep(c, s, s', id, s'.ms[id]);
  }

  lemma StepTakeLock(c: Config, s: State, id: nat)
    requires Inv(c, s) && Enabled(c, s, id, TakeLock)
    ensures Inv(c, Do(c, s, id, TakeLock))
  {
    hide Marker.Holds, NoLoss, CountActive, CountJoined, Taken, LockOk;
    var s' := Do(c, s, id, TakeLock);
    assert MarkerShape(c, s.first, |s.slots|, s.ms[id]);
    HoldsLocal(s.ms[id], s'.ms[id]);
    QuietStep(c, s, s', id, s'.ms[id]);
  }

  /** The steps that change nothing but what the acting marker knows and does next. */
  predicate IsQuiet(a: Action) {
    match a
    case ReadFirst | StealDone => true
    case LocalEmpty | ReturnAll | ShareTest | ShareHalf => true
    case _ => false
  }

  lemma StepReadStackTop(c: Config, s: State, id: nat)
    requires Inv(c, s) && Enabled(c, s, id, ReadStackTop)
    ensures Inv(c, Do(c, s, id, ReadStackTop))
  {
    hide Marker.Holds, NoLoss, CountActive, CountJoined, Taken, LockOk;
    var s' := Do(c, s, id, ReadStackTop);
    assert MarkerShape(c, s.first, |s.slots|, s.ms[id]);
    HoldsLocal(s.ms[id], s'.ms[id]);
    QuietStep(c, s, s', id, s'.ms[id]);
  }

  lemma StepQuietly(c: Config, s: State, id: nat, a: Action)
    requires Inv(c, s) && Enabled(c, s, id, a) && IsQuiet(a)
    ensures Inv(c, Do(c, s, id, a))
  {
    hide Quiet, Books, Do, Enabled, Inv;
    QuietlyQuiet(c, s, id, a);
    QuietlyBooks(c, s, id, a);
    var s' := Do(c, s, id, a);
    QuietStep(c, s, s', id, s'.ms[id]);
  }

  lemma QuietlyQuiet(c: Config, s: State, id: nat, a: Action)
    requires Inv(c, s) && Enabled(c, s, id, a) && IsQuiet(a)
    ensures Shape(c, s)
    ensures var s' := Do(c, s, id, a); id < |s'.ms| && Quiet(c, s, s', id, s'.ms[id])
  {
    hide Marker.Holds, NoLoss, CountActive, CountJoined, Taken, LockOk, Ending, TakeFrom, ExamineField, MarkTarget,
      StealSlot, ReturnEntries;
    var s' := Do(c, s, id, a);
    assert MarkerShape(c, s.first, |s.slots|, s.ms[id]);
    HoldsLocal(s.ms[id], s'.ms[id]);
  }

  lemma QuietlyBooks(c: Config, s: State, id: nat, a: Action)
    requires Inv(c, s) && Enabled(c, s, id, a) && IsQuiet(a)
    ensures Shape(c, s)
    ensures var s' := Do(c, s, id, a); |s.ms| == |s'.ms| && Books(c, s, s', id, s'.ms[id])
  {
    hide Marker.Holds, NoLoss, CountActive, CountJoined, Taken, LockOk, Emptied, TakeFrom, ExamineField, MarkTarget,
      StealSlot, ReturnEntries;
    assert MarkerShape(c, s.first, |s.slots|, s.ms[id]);
    CountUpdate(s.ms, id, Do(c, s, id, a).ms[id]);
  }

  lemma StepTestWait(c: Config, s: State, id: nat)
    requires Inv(c, s) && Enabled(c, s, id, TestWait)
    ensures Inv(c, Do(c, s, id, TestWait))
  {
    hide Marker.Holds, NoLoss, CountActive, CountJoined, Taken;
    var s' := Do(c, s, id, TestWait);
    assert MarkerShape(c, s.first, |s.slots|, s.ms[id]);
    HoldsLocal(s.ms[id], s'.ms[id]);
    QuietStep(c, s, s', id, s'.ms[id]);
  }

  lemma StepWake(c: Config, s: State, id: nat)
    requires Inv(c, s) && Enabled(c, s, id, Wake)
    ensures Inv(c, Do(c, s, id, Wake))
  {
    hide Marker.Holds, NoLoss, CountActive, CountJoined, Taken, LockOk;
    var s' := Do(c, s, id, Wake);
    assert MarkerShape(c, s.first, |s.slots|, s.ms[id]);
    HoldsLocal(s.ms[id], s'.ms[id]);
    QuietStep(c, s, s', id, s'.ms[id]);
  }

  lemma StepLeaveOrStay(c: Config, s: State, id: nat)
    requires Inv(c, s) && Enabled(c, s, id, LeaveOrStay)
    ensures Inv(c, Do(c, s, id, LeaveOrStay))
  {
    hide Quiet, Books, Do, Enabled, Inv;
    LeaveQuiet(c, s, id);
    LeaveBooks(c, s, id);
    var s' := Do(c, s, id, LeaveOrStay);
    QuietStep(c, s, s', id, s'.ms[id]);
  }

  lemma LeaveQuiet(c: Config, s: State, id: nat)
    requires Inv(c, s) && Enabled(c, s, id, LeaveOrStay)
    ensures Shape(c, s)
    ensures var s' := Do(c, s, id, LeaveOrStay); id < |s'.ms| && Quiet(c, s, s', id, s'.ms[id])
  {
    hide Marker.Holds, NoLoss, CountActive, CountJoined, Taken, LockOk, Ending;
    var s' := Do(c, s, id, LeaveOrStay);
    assert MarkerShape(c, s.first, |s.slots|, s.ms[id]);
    HoldsLocal(s.ms[id], s'.ms[id]);
  }

  lemma LeaveBooks(c: Config, s: State, id: nat)
    requires Inv(c, s) && Enabled(c, s, id, LeaveOrStay)
    ensures Shape(c, s)
    ensures var s' := Do(c, s, id, LeaveOrStay); |s.ms| == |s'.ms| && Books(c, s, s', id, s'.ms[id])
  {
    hide Marker.Holds, NoLoss, CountActive, CountJoined, Taken, LockOk, Emptied;
    assert MarkerShape(c, s.first, |s.slots|, s.ms[id]);
    CountUpdate(s.ms, id, Do(c, s, id, LeaveOrStay).ms[id]);
  }

  lemma StepStealRead(c: Config, s: State, id: nat)
    requires Inv(c, s) && Enabled(c, s, id, StealRead)
    ensures Inv(c, Do(c, s, id, StealRead))
  {
    hide Marker.Holds, NoLoss, CountActive, CountJoined, LockOk;
    var s' := Do(c, s, id, StealRead);
    assert MarkerShape(c, s.first, |s.slots|, s.ms[id]);
    HoldsLocal(s.ms[id], s'.ms[id]);
    QuietStep(c, s, s', id, s'.ms[id]);
  }

  lemma StepTakeEntry(c: Config, s: State, id: nat, cut: nat, low: bool)
    requires Inv(c, s) && Enabled(c, s, id, TakeEntry(cut, low))
    ensures Inv(c, Do(c, s, id, TakeEntry(cut, low)))
  {
    hide Marker.Holds, NoLoss, CountActive, CountJoined, Taken, LockOk, MarkerShape, TakeFrom, ExamineField;
    var s' := Do(c, s, id, TakeEntry(cut, low));
    assert MarkerShape(c, s.first, |s.slots|, s.ms[id]);
    TakeKeeps(c, s.first, |s.slots|, s.ms[id], cut, low);
    QuietStep(c, s, s', id, s'.ms[id]);
  }

  lemma StepExamine(c: Config, s: State, id: nat)
    requires Inv(c, s) && Enabled(c, s, id, Examine)
    ensures Inv(c, Do(c, s, id, Examine))
  {
    hide Marker.Holds, NoLoss, CountActive, CountJoined, Taken, LockOk, MarkerShape, TakeFrom, ExamineField;
    var s' := Do(c, s, id, Examine);
    assert MarkerShape(c, s.first, |s.slots|, s.ms[id]);
    ExamineKeeps(c, s.first, |s.slots|, s.marked, s.ms[id]);
    QuietStep(c, s, s', id, s'.ms[id]);
  }

  lemma StepFinishPhase(c: Config, s: State, id: nat)
    requires Inv(c, s) && Enabled(c, s, id, FinishPhase)
    ensures Inv(c, Do(c, s, id, FinishPhase))
  {
    hide Marker.Holds, NoLoss, CountActive, CountJoined, Taken, LockOk;
    var s' := Do(c, s, id, FinishPhase);
    assert MarkerShape(c, s.first, |s.slots|, s.ms[id]);
    HoldsLocal(s.ms[id], s'.ms[id]);
    QuietStep(c, s, s', id, s'.ms[id]);
  }

  // -------------------------------------------------- the steps that move entries

  lemma StealLoss(c: Config, s: State, id: nat)
    requires Shape(c, s) && Taken(s) && NoLoss(c, s) && id < |s.ms| && s.ms[id].pc.Clear?
    requires MarkerShape(c, s.first, |s.slots|, s.ms[id])
    ensures NoLoss(c, StealSlot(s, id))
  {
    var s', m := StealSlot(s, id), s.ms[id];
    forall o, k | o in s.marked && o < |c.fields| && 0 <= k < |c.fields[o]| && c.fields[o][k] !in s.marked
      ensures Pending(s', o, k)
    {
      assert Pending(s, o, k);
      if i :| 0 <= i < |s.ms| && s.ms[i].Holds(o, k) {
        if i == id { StolenHolds(m, s'.ms[id], o, k); }
        assert s'.ms[i].Holds(o, k);
      } else {
        var j :| 0 <= j < |s.slots| && s.slots[j].Some? && s.slots[j].value.Covers(o, k);
        if j == m.pc.p {
          StolenHolds(m, s'.ms[id], o, k);
          assert s'.ms[id].Holds(o, k);
        } else {
          assert s'.slots[j] == s.slots[j];
        }
      }
    }
  }

  lemma StolenHolds(m: Marker, m': Marker, o: nat, k: nat)
    requires m.pc.Clear? && m'.local == m.local + [m.pc.e]
    requires m.Holds(o, k) || m.pc.e.Covers(o, k)
    ensures m'.Holds(o, k)
  {
    if m.pc.e.Covers(o, k) {
      assert m'.local[|m.local|].Covers(o, k);
    } else {
      var j :| 0 <= j < |m.local| && m.local[j].Covers(o, k);
      assert m'.local[j].Covers(o, k);
    }
  }

  lemma StealShape(c: Config, s: State, id: nat)
    requires Shape(c, s) && Emptied(s) && Taken(s) && id < |s.ms| && s.ms[id].pc.Clear?
    requires MarkerShape(c, s.first, |s.slots|, s.ms[id])
    ensures Shape(c, StealSlot(s, id)) && Emptied(StealSlot(s, id)) && Taken(StealSlot(s, id))
  {
  }

  lemma StepStealClear(c: Config, s: State, id: nat)
    requires Inv(c, s) && Enabled(c, s, id, StealClear)
    ensures Inv(c, Do(c, s, id, StealClear))
  {
    hide NoLoss, CountActive, CountJoined, Emptied, LockOk, Taken;
    var s' := Do(c, s, id, StealClear);
    assert MarkerShape(c, s.first, |s.slots|, s.ms[id]);
    if !s.invalid { StealLoss(c, s, id); }
    StealShape(c, s, id);
    CountUpdate(s.ms, id, s'.ms[id]);
    QuietLock(s, s', id, s'.ms[id]);
  }

  lemma MarkLoss(c: Config, s: State, id: nat)
    requires Shape(c, s) && NoLoss(c, s) && id < |s.ms| && s.ms[id].pc.Push?
    requires MarkerShape(c, s.first, |s.slots|, s.ms[id]) && !MarkTarget(c, s, id).invalid
    ensures NoLoss(c, MarkTarget(c, s, id))
  {
    var s', m := MarkTarget(c, s, id), s.ms[id];
    forall o, k | o in s'.marked && o < |c.fields| && 0 <= k < |c.fields[o]| && c.fields[o][k] !in s'.marked
      ensures Pending(s', o, k)
    {
      if o in s.marked {
        assert Pending(s, o, k);
        if i :| 0 <= i < |s.ms| && s.ms[i].Holds(o, k) {
          if i == id { PushedHolds(m, s'.ms[id], o, k); }
          assert s'.ms[i].Holds(o, k);
        }
      } else {
        assert s'.ms[id].local[|m.local|].Covers(o, k);
        assert s'.ms[id].Holds(o, k);
      }
    }
  }

  lemma PushedHolds(m: Marker, m': Marker, o: nat, k: nat)
    requires m.pc.Push? && m.local <= m'.local && m'.pc == Scan(m.pc.e.(lo := m.pc.e.lo + 1))
    requires m.Holds(o, k) && !(o == m.pc.e.obj && k == m.pc.e.lo)
    ensures m'.Holds(o, k)
  {
    if !m'.pc.e.Covers(o, k) {
      var j :| 0 <= j < |m.local| && m.local[j].Covers(o, k);
      assert m'.local[j].Covers(o, k);
    }
  }

  lemma MarkShape(c: Config, s: State, id: nat)
    requires Shape(c, s) && Emptied(s) && Taken(s) && id < |s.ms| && s.ms[id].pc.Push?
    requires MarkerShape(c, s.first, |s.slots|, s.ms[id])
    ensures var s' := MarkTarget(c, s, id);
      Shape(c, s') && Emptied(s') && Taken(s') && SameStanding(s.ms[id], s'.ms[id])
  {
  }

  lemma StepMarkAndPush(c: Config, s: State, id: nat)
    requires Inv(c, s) && Enabled(c, s, id, MarkAndPush)
    ensures Inv(c, Do(c, s, id, MarkAndPush))
  {
    hide NoLoss, CountActive, CountJoined, Emptied, LockOk, Taken, PushTarget, Overflows;
    var s' := Do(c, s, id, MarkAndPush);
    assert MarkerShape(c, s.first, |s.slots|, s.ms[id]);
    if !s'.invalid { MarkLoss(c, s, id); }
    MarkShape(c, s, id);
    CountUpdate(s.ms, id, s'.ms[id]);
    QuietLock(s, s', id, s'.ms[id]);
  }

  lemma ReturnKeeps(c: Config, s: State, id: nat)
    requires Shape(c, s) && NoLoss(c, s) && id < |s.ms| && s.ms[id].pc.CopyBack?
    requires MarkerShape(c, s.first, |s.slots|, s.ms[id]) && |s.slots| + s.ms[id].pc.count <= c.size
    ensures NoLoss(c, ReturnEntries(c, s, id))
  {
    var s', m := ReturnEntries(c, s, id), s.ms[id];
    var n := m.pc.count;
    forall o, k | o in s.marked && o < |c.fields| && 0 <= k < |c.fields[o]| && c.fields[o][k] !in s.marked
      ensures Pending(s', o, k)
    {
      assert Pending(s, o, k);
      if j :| 0 <= j < |s.slots| && s.slots[j].Some? && s.slots[j].value.Covers(o, k) {
        assert s'.slots[j] == s.slots[j];
      } else {
        var i :| 0 <= i < |s.ms| && s.ms[i].Holds(o, k);
        if i != id {
          assert s'.ms[i].Holds(o, k);
        } else {
          var j :| 0 <= j < |m.local| && m.local[j].Covers(o, k);
          if j < n {
            assert s'.slots[|s.slots| + j] == Some(m.local[j]);
          } else {
            assert s'.ms[id].local[j - n].Covers(o, k);
            assert s'.ms[id].Holds(o, k);
          }
        }
      }
    }
  }

  lemma ReturnShape(c: Config, s: State, id: nat)
    requires Shape(c, s) && id < |s.ms| && s.ms[id].pc.CopyBack?
    requires MarkerShape(c, s.first, |s.slots|, s.ms[id])
    ensures Shape(c, ReturnEntries(c, s, id))
  {
    var s' := ReturnEntries(c, s, id);
    forall i | 0 <= i < |s'.ms| ensures MarkerShape(c, s'.first, |s'.slots|, s'.ms[i]) {
      if i != id {
        assert MarkerShape(c, s.first, |s.slots|, s.ms[i]);
        MarkerShapeMore(c, s.first, |s.slots|, |s'.slots|, s.ms[i]);
      }
    }
    hide MarkerShape;
  }

  lemma MarkerShapeMore(c: Config, first: nat, n: nat, n': nat, m: Marker)
    requires MarkerShape(c, first, n, m) && n <= n'
    ensures MarkerShape(c, first, n', m)
  {
  }

  lemma ReturnEmptied(c: Config, s: State, id: nat)
    requires Shape(c, s) && Emptied(s) && id < |s.ms| && s.ms[id].pc.CopyBack?
    requires MarkerShape(c, s.first, |s.slots|, s.ms[id])
    ensures Emptied(ReturnEntries(c, s, id))
  {
    forall i | 0 <= i < |s.ms| ensures s.ms[i].Frontier() <= |s.slots| {
      assert MarkerShape(c, s.first, |s.slots|, s.ms[i]);
    }
    hide Shape;
  }

  lemma ReturnTaken(c: Config, s: State, id: nat)
    requires Shape(c, s) && Taken(s) && id < |s.ms| && s.ms[id].pc.CopyBack?
    requires MarkerShape(c, s.first, |s.slots|, s.ms[id])
    ensures var s' := ReturnEntries(c, s, id);
      |s'.slots| == |s'.deposited| == |s'.takers| && Taken(s')
  {
    forall i | 0 <= i < |s.ms| && s.ms[i].pc.Clear? ensures s.ms[i].pc.p < |s.slots| {
      assert MarkerShape(c, s.first, |s.slots|, s.ms[i]);
    }
    hide Shape, MarkerShape;
  }

  lemma StepDoCopyBack(c: Config, s: State, id: nat)
    requires Inv(c, s) && Enabled(c, s, id, DoCopyBack)
    ensures Inv(c, Do(c, s, id, DoCopyBack))
  {
    hide NoLoss, CountActive, CountJoined, Emptied, LockOk, Taken;
    var s' := Do(c, s, id, DoCopyBack);
    assert MarkerShape(c, s.first, |s.slots|, s.ms[id]);
    if !s'.invalid { ReturnKeeps(c, s, id); }
    ReturnShape(c, s, id);
    ReturnEmptied(c, s, id);
    ReturnTaken(c, s, id);
    JoinedCounts(s.ms, id);
    CountUpdate(s.ms, id, s'.ms[id]);
    QuietLock(s, s', id, s'.ms[id]);
  }

  // ------------------------------------------------------------ over every run

  lemma InitInv(c: Config, s: State)
    requires Init(c, s)
    ensures Inv(c, s)
  {
    CountInit(s.ms);
  }

  lemma {:induction false} CountInit(ms: seq<Marker>)
    requires |ms| > 0 && ms[0] == Marker(Loop, 0, [])
    requires forall i :: 0 < i < |ms| ==> ms[i] == Marker(Out, 0, [])
    ensures CountActive(ms) == 1 && CountJoined(ms) == 1
  {
    if |ms| > 1 {
      CountInit(ms[..|ms| - 1]);
    } else {
      assert ms[..|ms| - 1] == [];
    }
  }

  /** Every action of every marker keeps the invariant. */
  lemma InvStep(c: Config, s: State, id: nat, a: Action)
    requires Inv(c, s) && Enabled(c, s, id, a)
    ensures Inv(c, Do(c, s, id, a))
  {
    hide Inv, Enabled, Do;
    match a
    case Join => StepJoin(c, s, id);
    case ReadFirst => StepQuietly(c, s, id, a);
    case CompareFirst => StepCompareFirst(c, s, id);
    case ReadStackTop => StepReadStackTop(c, s, id);
    case TakeLock => StepTakeLock(c, s, id);
    case TestWait => StepTestWait(c, s, id);
    case Wake => StepWake(c, s, id);
    case LeaveOrStay => StepLeaveOrStay(c, s, id);
    case StealRead => StepStealRead(c, s, id);
    case StealClear => StepStealClear(c, s, id);
    case StealDone => StepQuietly(c, s, id, a);
    case TakeEntry(cut, low) => StepTakeEntry(c, s, id, cut, low);
    case Examine => StepExamine(c, s, id);
    case MarkAndPush => StepMarkAndPush(c, s, id);
    case LocalEmpty => StepQuietly(c, s, id, a);
    case ReturnAll => StepQuietly(c, s, id, a);
    case ShareTest => StepQuietly(c, s, id, a);
    case ShareHalf => StepQuietly(c, s, id, a);
    case DoCopyBack => StepDoCopyBack(c, s, id);
    case FinishPhase => StepFinishPhase(c, s, id);
  }

  /** A run: it starts with the roots pushed, and each state follows by one action. */
  ghost predicate Run(c: Config, tr: seq<State>) {
    && |tr| > 0
    && Init(c, tr[0])
    && forall i {:trigger tr[i]} :: 0 <= i && i + 1 < |tr| ==> Next(c, tr[i], tr[i + 1])
  }

  lemma {:induction false} RunInv(c: Config, tr: seq<State>, i: nat)
    requires Run(c, tr) && i < |tr|
    ensures Inv(c, tr[i])
    decreases i
  {
    hide Inv, Init, Enabled, Do, Shape;
    if i == 0 {
      InitInv(c, tr[0]);
    } else {
      RunInv(c, tr, i - 1);
      assert Next(c, tr[i - 1], tr[i - 1 + 1]);
      InvNext(c, tr[i - 1], tr[i]);
    }
  }

  lemma InvNext(c: Config, s: State, s': State)
    requires Inv(c, s) && Next(c, s, s')
    ensures Inv(c, s')
  {
    hide Inv, Enabled, Do, Shape;
    var id: nat, a :| Shape(c, s) && Enabled(c, s, id, a) && s' == Do(c, s, id, a);
    InvStep(c, s, id, a);
  }

  /** Nothing is left to do: the global stack is empty and no marker holds an entry. */
  ghost predicate Quiescent(s: State) {
    && (forall j :: 0 <= j < |s.slots| ==> s.slots[j].None?)
    && (forall i :: 0 <= i < |s.ms| ==> !s.ms[i].Active() && s.ms[i].local == [])
  }

  lemma {:induction false} NobodyActive(ms: seq<Marker>, i: nat)
    requires CountActive(ms) == 0 && i < |ms|
    ensures !ms[i].Active()
    decreases |ms|
  {
    if i < |ms| - 1 {
      NobodyActive(ms[..|ms| - 1], i);
    }
  }

  /** A marker leaves, in any run, only when no work is left anywhere. */
  lemma LeavesOnlyWhenQuiescent(c: Config, s: State, id: nat)
    requires Inv(c, s) && Enabled(c, s, id, LeaveOrStay)
    ensures !Do(c, s, id, LeaveOrStay).ms[id].Joined() ==> Quiescent(s)
  {
    if !Do(c, s, id, LeaveOrStay).ms[id].Joined() {
      forall i: nat | i < |s.ms| ensures !s.ms[i].Active() && s.ms[i].local == [] {
        NobodyActive(s.ms, i);
        assert MarkerShape(c, s.first, |s.slots|, s.ms[i]);
      }
    }
  }

  lemma {:induction false} ActiveAreJoined(ms: seq<Marker>)
    ensures CountActive(ms) <= CountJoined(ms)
  {
    if ms != [] {
      ActiveAreJoined(ms[..|ms| - 1]);
    }
  }

  /** All pointer fields of marked objects designate marked objects. */
  ghost predicate MarksClosed(c: Config, s: State) {
    forall o, k :: o in s.marked && o < |c.fields| && 0 <= k < |c.fields[o]| ==> c.fields[o][k] in s.marked
  }

  /** What holds when the initiator's call returns: all markers have left, nothing is
      pending, every deposited entry was taken by somebody, and the marks are closed
      unless the mark state was invalidated. */
  ghost predicate Complete(c: Config, s: State) {
    && Quiescent(s) && s.active == 0 && s.helpers == 0
    && |s.takers| == |s.slots| && (forall j :: 0 <= j < |s.slots| ==> s.takers[j] != {})
    && (s.invalid || MarksClosed(c, s))
  }

  lemma EndState(c: Config, s: State)
    requires Inv(c, s) && s.finished
    ensures Complete(c, s)
  {
    ActiveAreJoined(s.ms);
    forall i: nat | i < |s.ms|
      ensures !s.ms[i].Joined() && s.ms[i].local == [] && !s.ms[i].pc.Scan? && !s.ms[i].pc.Push?
    {
      if s.ms[i].Joined() { JoinedCounts(s.ms, i); }
      assert MarkerShape(c, s.first, |s.slots|, s.ms[i]);
    }
  }

  /** The theorem: no interleaving loses work. */
  lemma NoWorkLost(c: Config, tr: seq<State>)
    requires Run(c, tr) && tr[|tr| - 1].finished
    ensures Complete(c, tr[|tr| - 1])
  {
    hide Inv, Complete, Run;
    assert |tr| > 0 by { NonEmptyRun(c, tr); }
    RunInv(c, tr, |tr| - 1);
    EndState(c, tr[|tr| - 1]);
  }

  lemma NonEmptyRun(c: Config, tr: seq<State>)
    requires Run(c, tr)
    ensures |tr| > 0
  {
  }

  /** No entry is on any stack or in hand. */
  ghost predicate NoEntries(s: State) {
    && (forall j :: 0 <= j < |s.slots| ==> s.slots[j].None?)
    && (forall i :: 0 <= i < |s.ms| ==>
          s.ms[i].local == [] && !s.ms[i].pc.Clear? && !s.ms[i].pc.Scan? && !s.ms[i].pc.Push?)
  }

  /** Once no entry is left, none ever appears again and the marks do not change, even if
      a helper joins late and GC_active_count leaves zero again. */
  lemma NoEntriesStable(c: Config, s: State, s': State)
    requires NoEntries(s) && Next(c, s, s')
    ensures NoEntries(s') && s'.marked == s.marked && s'.slots == s.slots
  {
    hide NoEntries, Shape, Do;
    var id: nat, a :| Shape(c, s) && Enabled(c, s, id, a) && s' == Do(c, s, id, a);
    NoEntriesDo(c, s, id, a);
  }

  lemma NoEntriesDo(c: Config, s: State, id: nat, a: Action)
    requires Shape(c, s) && NoEntries(s) && Enabled(c, s, id, a)
    ensures var s' := Do(c, s, id, a); NoEntries(s') && s'.marked == s.marked && s'.slots == s.slots
  {
    assert MarkerShape(c, s.first, |s.slots|, s.ms[id]);
    hide Shape;
    if a.DoCopyBack? {
      var s' := ReturnEntries(c, s, id);
      assert s'.ms == s.ms[id := s'.ms[id]] && s'.ms[id].local == [];
      assert s'.slots == s.slots;
    } else {
      NoEntriesOther(c, s, id, a);
    }
  }

  lemma NoEntriesOther(c: Config, s: State, id: nat, a: Action)
    requires Shape(c, s) && NoEntries(s) && Enabled(c, s, id, a) && !a.DoCopyBack?
    ensures var s' := Do(c, s, id, a); NoEntries(s') && s'.marked == s.marked && s'.slots == s.slots
  {
    hide Do, Shape, NoEntries, Enabled;
    if IsControl(a) {
      NoEntryGainedByControl(c, s, id, a);
    } else {
      NoEntryGainedByWork(c, s, id, a);
    }
    OneChanged(s, Do(c, s, id, a), id);
  }

  /** The steps around the global stack's indices, the lock and the counters. */
  predicate IsControl(a: Action) {
    || a.Join? || a.ReadFirst? || a.CompareFirst? || a.ReadStackTop?
    || a.TakeLock? || a.TestWait? || a.Wake? || a.LeaveOrStay?
  }

  lemma NoEntryGainedByControl(c: Config, s: State, id: nat, a: Action)
    requires Shape(c, s) && NoEntries(s) && Enabled(c, s, id, a) && IsControl(a)
    ensures NoEntryGained(s, Do(c, s, id, a), id)
  {
    hide ReturnEntries, StealSlot, MarkTarget, ExamineField, TakeFrom, MarkerShape, Shape;
    var s' := Do(c, s, id, a);
    assert s'.ms == s.ms[id := s'.ms[id]];
  }

  lemma NoEntryGainedByWork(c: Config, s: State, id: nat, a: Action)
    requires Shape(c, s) && NoEntries(s) && Enabled(c, s, id, a) && !IsControl(a) && !a.DoCopyBack?
    ensures NoEntryGained(s, Do(c, s, id, a), id)
  {
    assert MarkerShape(c, s.first, |s.slots|, s.ms[id]);
    assert a.StealRead? ==> s.slots[s.ms[id].pc.p].None?;
    hide ReturnEntries, StealSlot, MarkTarget, ExamineField, TakeFrom, MarkerShape, Shape;
    var s' := Do(c, s, id, a);
    assert s'.ms == s.ms[id := s'.ms[id]];
  }

  /** Marker `id` changes without gaining an entry, and the global stack stays as it is. */
  ghost predicate NoEntryGained(s: State, s': State, id: nat) {
    && id < |s.ms| && s'.slots == s.slots && s'.marked == s.marked
    && exists m :: s'.ms == s.ms[id := m] && m.local == [] && !m.pc.Clear? && !m.pc.Scan? && !m.pc.Push?
  }

  lemma OneChanged(s: State, s': State, id: nat)
    requires NoEntries(s) && NoEntryGained(s, s', id)
    ensures NoEntries(s') && s'.marked == s.marked && s'.slots == s.slots
  {
  }
}
