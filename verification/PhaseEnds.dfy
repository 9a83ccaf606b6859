/** Parallel marking can always come to its end: whatever has happened, one marker after the
    other can finish its work alone and leave. */
module PhaseEnds {
  import opened ParallelMark
  import ActiveCount

  // ------------------------------------------------------------ paths

  /** Steps lead from `s` to `s'` along `tr`. */
  ghost predicate Path(c: Config, tr: seq<State>, s: State, s': State) {
    && |tr| > 0 && tr[0] == s && tr[|tr| - 1] == s'
    && forall k {:trigger tr[k]} :: 0 <= k && k + 1 < |tr| ==> Next(c, tr[k], tr[k + 1])
  }

  ghost predicate Leads(c: Config, s: State, s': State) {
    exists tr :: Path(c, tr, s, s')
  }

  lemma LeadsNowhere(c: Config, s: State)
    ensures Leads(c, s, s)
  {
    assert Path(c, [s], s, s);
  }

  lemma LeadsThrough(c: Config, s: State, s1: State, s2: State)
    requires Leads(c, s, s1) && Leads(c, s1, s2)
    ensures Leads(c, s, s2)
  {
    hide Next;
    var a :| Path(c, a, s, s1);
    var b :| Path(c, b, s1, s2);
    var tr := a + b[1..];
    forall k {:trigger tr[k]} | 0 <= k && k + 1 < |tr| ensures Next(c, tr[k], tr[k + 1]) {
      if k + 1 < |a| {
        assert Next(c, a[k], a[k + 1]);
      } else {
        assert tr[k] == b[k + 1 - |a|] && Next(c, b[k + 1 - |a|], b[k + 1 - |a| + 1]);
      }
    }
    assert Path(c, tr, s, s2);
  }

  lemma LeadsStep(c: Config, s: State, id: nat, a: Action)
    requires Inv(c, s) && Enabled(c, s, id, a)
    ensures Leads(c, s, Do(c, s, id, a)) && Inv(c, Do(c, s, id, a))
  {
    InvStep(c, s, id, a);
    hide Enabled, Do, NoLoss, Taken, Emptied, Counts, LockOk, Ending, Shape;
    var s' := Do(c, s, id, a);
    assert Next(c, s, s');
    assert Path(c, [s, s'], s, s');
  }

  // ------------------------------------------------------------ how much is left to do

  /** A marker that works, or holds the lock. */
  predicate Busy(m: Marker) {
    m.Active() || m.HoldsLock()
  }

  function Length(e: Entry): nat {
    if e.lo <= e.hi then e.hi - e.lo else 0
  }

  function SlotsWeight(slots: seq<Option<Entry>>): nat {
    if slots == [] then 0
    else
      SlotsWeight(slots[..|slots| - 1]) +
      match slots[|slots| - 1] case None => 0 case Some(e) => Length(e) + 3
  }

  function LocalWeight(local: seq<Entry>, each: nat): nat {
    if local == [] then 0
    else LocalWeight(local[..|local| - 1], each) + Length(local[|local| - 1]) + each
  }

  /** The work that marker `m` and the global stack hold.  An entry weighs more the more
      steps it takes until it is in hand. */
  function Weight(slots: seq<Option<Entry>>, m: Marker): nat {
    SlotsWeight(slots) + LocalWeight(m.local, if m.pc.AskHelpers? || m.pc.CopyBack? then 4 else 2) +
    if m.pc.Scan? || m.pc.Push? then Length(m.pc.e) + 1 else 0
  }

  /** How far marker and phase are from having seen that the global stack is empty. */
  function Behind(n: nat, first: nat, m: Marker): nat {
    (if first <= n then n - first else 0) + if m.Frontier() <= n then n - m.Frontier() else 0
  }

  /** The order of the steps in between: when slots remain for the marker to look at, when
      only the global index is behind, and when nothing remains. */
  function Rank(n: nat, first: nat, m: Marker): nat {
    if m.pc.AskHelpers? then 13
    else if m.pc.CopyBack? then 12
    else if m.pc.Steal? then if m.pc.p < m.pc.end && m.pc.i <= m.pc.max then 3 else 11
    else if m.pc.Mark? then 10
    else if m.pc.Scan? then 2
    else if m.pc.Push? then 1
    else if m.first < n then Turn(m.pc, 7, 6, 5, 5, 9, 8)
    else if first < n then Turn(m.pc, 5, 4, 9, 8, 7, 6)
    else Turn(m.pc, 9, 8, 7, 6, 5, 4)
  }

  function Turn(pc: Pc, loop: nat, compare: nat, top: nat, ask: nat, idle: nat, decide: nat): nat {
    if pc.Loop? then loop
    else if pc.Compare? then compare
    else if pc.ReadTop? then top
    else if pc.AskLock? then ask
    else if pc.Idle? then idle
    else if pc.Decide? then decide
    else 0
  }

  ghost function Unmarked(c: Config, s: State): set<nat> {
    set o: nat | o < |c.fields| && o !in s.marked
  }

  /** What marker `m` knows is still so. */
  ghost predicate UpToDate(c: Config, s: State, m: Marker) {
    match m.pc
    case Compare(seen) => seen == s.first
    case Clear(p, _, _, _, e) => p < |s.slots| && s.slots[p] == Some(e)
    case Push(e) => e.Fits(c) && e.lo < e.hi && c.fields[e.obj][e.lo] !in s.marked
    case Decide => s.active == 0 || s.first < |s.slots|
    case _ => true
  }

  ghost predicate Closer(c: Config, s: State, s': State, id: nat)
    requires id < |s.ms| && id < |s'.ms|
  {
    var m, m', n, n' := s.ms[id], s'.ms[id], |s.slots|, |s'.slots|;
    || Unmarked(c, s') < Unmarked(c, s)
    || (Unmarked(c, s') == Unmarked(c, s) &&
        (|| Weight(s'.slots, m') < Weight(s.slots, m)
         || (Weight(s'.slots, m') == Weight(s.slots, m) &&
             (|| Behind(n', s'.first, m') < Behind(n, s.first, m)
              || (Behind(n', s'.first, m') == Behind(n, s.first, m) &&
                  Rank(n', s'.first, m') < Rank(n, s.first, m))))))
  }

  /** Only marker `id` differs. */
  ghost predicate OthersSame(s: State, s': State, id: nat) {
    |s'.ms| == |s.ms| && forall i :: 0 <= i < |s.ms| && i != id ==> s'.ms[i] == s.ms[i]
  }

  // ------------------------------------------------------------ weights

  lemma {:induction false} SlotTaken(slots: seq<Option<Entry>>, p: nat)
    requires p < |slots| && slots[p].Some?
    ensures SlotsWeight(slots[p := None]) + Length(slots[p].value) + 3 == SlotsWeight(slots)
    decreases |slots|
  {
    var slots' := slots[p := None];
    if p < |slots| - 1 {
      SlotTaken(slots[..|slots| - 1], p);
      assert slots'[..|slots| - 1] == slots[..|slots| - 1][p := None];
    } else {
      assert slots'[..|slots| - 1] == slots[..|slots| - 1];
    }
  }

  lemma LocalPush(local: seq<Entry>, e: Entry, each: nat)
    ensures LocalWeight(local + [e], each) == LocalWeight(local, each) + Length(e) + each
  {
    assert (local + [e])[..|local|] == local;
  }

  lemma {:induction false} LocalSplit(local: seq<Entry>, k: nat, each: nat)
    requires k <= |local|
    ensures LocalWeight(local, each) == LocalWeight(local[..k], each) + LocalWeight(local[k..], each)
    decreases |local|
  {
    if k == |local| {
      assert local[..k] == local && local[k..] == [];
    } else {
      var below := local[..|local| - 1];
      LocalSplit(below, k, each);
      assert below[..k] == local[..k] && local[k..][..|local| - 1 - k] == below[k..];
    }
  }

  lemma {:induction false} SlotsReturned(slots: seq<Option<Entry>>, back: seq<Entry>)
    ensures SlotsWeight(slots + Deposit(back)) == SlotsWeight(slots) + LocalWeight(back, 3)
    decreases |back|
  {
    if back == [] {
      assert slots + Deposit(back) == slots;
    } else {
      var below, last := back[..|back| - 1], back[|back| - 1];
      SlotsReturned(slots, below);
      var all := slots + Deposit(back);
      assert all[..|all| - 1] == slots + Deposit(below) && all[|all| - 1] == Some(last);
    }
  }

  lemma {:induction false} LocalLess(local: seq<Entry>, each: nat, less: nat)
    requires less <= each
    ensures LocalWeight(local, less) <= LocalWeight(local, each)
    ensures local != [] && less < each ==> LocalWeight(local, less) < LocalWeight(local, each)
    decreases |local|
  {
    if local != [] { LocalLess(local[..|local| - 1], each, less); }
  }

  // ------------------------------------------------------------ one step

  /** The marker has come closer to the end of its work, or has just ended it. */
  ghost predicate Onward(c: Config, s: State, s': State, id: nat)
    requires id < |s.ms|
  {
    && OthersSame(s, s', id)
    && (Busy(s'.ms[id]) ==> Closer(c, s, s', id) && UpToDate(c, s', s'.ms[id]))
    && (s'.ms[id].pc.Waiting? ==> s'.active > 0)
  }

  lemma MarkerFirst(c: Config, s: State, id: nat)
    requires Shape(c, s) && id < |s.ms|
    ensures MarkerShape(c, s.first, |s.slots|, s.ms[id])
    ensures s.first <= |s.slots| && s.ms[id].first <= |s.slots| && s.ms[id].Frontier() <= |s.slots|
  {
  }

  lemma ReadingCloser(c: Config, s: State, id: nat)
    requires Shape(c, s) && id < |s.ms| && Enabled(c, s, id, ReadFirst)
    ensures Onward(c, s, Do(c, s, id, ReadFirst), id)
  {
    hide SlotsWeight, LocalWeight;
  }

  lemma SameMarks(c: Config, s: State, s': State)
    ensures s'.marked == s.marked ==> Unmarked(c, s') == Unmarked(c, s)
  {
  }

  lemma CompareCloser(c: Config, s: State, id: nat)
    requires Shape(c, s) && id < |s.ms| && Enabled(c, s, id, CompareFirst) && UpToDate(c, s, s.ms[id])
    ensures Onward(c, s, Do(c, s, id, CompareFirst), id)
  {
    MarkerFirst(c, s, id);
    SameMarks(c, s, Do(c, s, id, CompareFirst));
    hide Unmarked;
    hide Shape, MarkerShape, SlotsWeight, LocalWeight, NumberToGet, StealSlot, MarkTarget, ReturnEntries, TakeFrom,
      ExamineField;
  }

  lemma TopCloser(c: Config, s: State, id: nat)
    requires Shape(c, s) && id < |s.ms| && Enabled(c, s, id, ReadStackTop)
    ensures Onward(c, s, Do(c, s, id, ReadStackTop), id)
  {
    MarkerFirst(c, s, id);
    SameMarks(c, s, Do(c, s, id, ReadStackTop));
    hide Unmarked;
    hide Shape, MarkerShape, SlotsWeight, LocalWeight, NumberToGet, StealSlot, MarkTarget, ReturnEntries, TakeFrom,
      ExamineField;
  }

  lemma LockCloser(c: Config, s: State, id: nat)
    requires Shape(c, s) && id < |s.ms| && Enabled(c, s, id, TakeLock)
    ensures Onward(c, s, Do(c, s, id, TakeLock), id)
  {
    MarkerFirst(c, s, id);
    SameMarks(c, s, Do(c, s, id, TakeLock));
    hide Unmarked;
    hide Shape, MarkerShape, SlotsWeight, LocalWeight, NumberToGet, StealSlot, MarkTarget, ReturnEntries, TakeFrom,
      ExamineField;
  }

  lemma TestCloser(c: Config, s: State, id: nat)
    requires Shape(c, s) && id < |s.ms| && Enabled(c, s, id, TestWait) && s.active >= 0
    ensures Onward(c, s, Do(c, s, id, TestWait), id)
  {
    MarkerFirst(c, s, id);
    SameMarks(c, s, Do(c, s, id, TestWait));
    hide Unmarked;
    hide Shape, MarkerShape, SlotsWeight, LocalWeight, NumberToGet, StealSlot, MarkTarget, ReturnEntries, TakeFrom,
      ExamineField;
  }

  lemma DecideDoes(c: Config, s: State, id: nat)
    requires Shape(c, s) && id < |s.ms| && Enabled(c, s, id, LeaveOrStay)
    ensures var s' := Do(c, s, id, LeaveOrStay);
      && s'.marked == s.marked && s'.slots == s.slots && s'.first == s.first && OthersSame(s, s', id)
      && if s.active == 0 && |s.slots| <= s.first then !Busy(s'.ms[id]) && !s'.ms[id].pc.Waiting?
         else s'.ms[id] == s.ms[id].(pc := Loop)
  {
    hide Shape;
  }

  lemma DecideCloser(c: Config, s: State, id: nat)
    requires Shape(c, s) && id < |s.ms| && Enabled(c, s, id, LeaveOrStay) && UpToDate(c, s, s.ms[id])
    ensures Onward(c, s, Do(c, s, id, LeaveOrStay), id)
  {
    MarkerFirst(c, s, id);
    SameMarks(c, s, Do(c, s, id, LeaveOrStay));
    DecideDoes(c, s, id);
    assert s.ms[id].pc.Decide?;
    hide Unmarked, Shape, MarkerShape, SlotsWeight, LocalWeight, Do, Enabled, OthersSame;
  }

  lemma StealReadCloser(c: Config, s: State, id: nat)
    requires Shape(c, s) && id < |s.ms| && Enabled(c, s, id, StealRead)
    ensures Onward(c, s, Do(c, s, id, StealRead), id)
  {
    MarkerFirst(c, s, id);
    SameMarks(c, s, Do(c, s, id, StealRead));
    hide Unmarked;
    hide Shape, SlotsWeight, LocalWeight, NumberToGet, StealSlot, MarkTarget, ReturnEntries, TakeFrom, ExamineField;
  }

  /** What taking the entry of a slot changes. */
  lemma SlotStolen(c: Config, s: State, id: nat)
    requires Shape(c, s) && id < |s.ms| && Enabled(c, s, id, StealClear)
    requires MarkerShape(c, s.first, |s.slots|, s.ms[id])
    ensures var m, s' := s.ms[id], Do(c, s, id, StealClear);
      && m.pc.Clear? && OthersSame(s, s', id) && m.pc.p < |s.slots| && s'.slots == s.slots[m.pc.p := None]
      && s'.marked == s.marked && s'.first == s.first
      && s'.ms[id].pc.Steal? && s'.ms[id].pc.p == m.pc.p + 1 && s'.ms[id].first == m.first
      && s'.ms[id].local == m.local + [m.pc.e]
  {
    var m := s.ms[id];
    assert Do(c, s, id, StealClear) == StealSlot(s, id);
    hide Do, Enabled, Shape;
    var i := m.pc.i + 1 + (m.pc.e.hi - m.pc.e.lo) / 32;
    assert StealSlot(s, id).ms[id] ==
      m.(pc := Steal(m.pc.p + 1, m.pc.end, i, m.pc.max), local := m.local + [m.pc.e]);
  }

  lemma StealClearCloser(c: Config, s: State, id: nat)
    requires Shape(c, s) && id < |s.ms| && Enabled(c, s, id, StealClear) && UpToDate(c, s, s.ms[id])
    ensures Onward(c, s, Do(c, s, id, StealClear), id)
  {
    MarkerFirst(c, s, id);
    SameMarks(c, s, Do(c, s, id, StealClear));
    var m := s.ms[id];
    SlotStolen(c, s, id);
    SlotTaken(s.slots, m.pc.p);
    LocalPush(m.local, m.pc.e, 2);
    hide Do, Enabled, Unmarked, Shape, SlotsWeight, LocalWeight, NumberToGet, MarkerShape, OthersSame;
  }

  lemma StealDoneCloser(c: Config, s: State, id: nat)
    requires Shape(c, s) && id < |s.ms| && Enabled(c, s, id, StealDone)
    ensures Onward(c, s, Do(c, s, id, StealDone), id)
  {
    MarkerFirst(c, s, id);
    SameMarks(c, s, Do(c, s, id, StealDone));
    hide Unmarked, Shape, SlotsWeight, LocalWeight, NumberToGet, StealSlot, MarkTarget, ReturnEntries, TakeFrom,
      ExamineField;
  }

  lemma TakeCloser(c: Config, s: State, id: nat)
    requires Shape(c, s) && id < |s.ms| && s.ms[id].pc.Mark? && s.ms[id].local != []
    requires Enabled(c, s, id, TakeEntry(s.ms[id].local[|s.ms[id].local| - 1].hi, true))
    ensures Onward(c, s, Do(c, s, id, TakeEntry(s.ms[id].local[|s.ms[id].local| - 1].hi, true)), id)
  {
    MarkerFirst(c, s, id);
    var local := s.ms[id].local;
    var e := local[|local| - 1];
    SameMarks(c, s, Do(c, s, id, TakeEntry(e.hi, true)));
    assert local == local[..|local| - 1] + [e];
    LocalPush(local[..|local| - 1], e, 2);
    hide Unmarked, Shape, SlotsWeight, LocalWeight, NumberToGet, StealSlot, MarkTarget, ReturnEntries, ExamineField;
  }

  lemma ExamineCloser(c: Config, s: State, id: nat)
    requires Shape(c, s) && id < |s.ms| && Enabled(c, s, id, Examine)
    ensures Onward(c, s, Do(c, s, id, Examine), id)
  {
    MarkerFirst(c, s, id);
    SameMarks(c, s, Do(c, s, id, Examine));
    hide Unmarked, Shape, SlotsWeight, LocalWeight, NumberToGet, StealSlot, MarkTarget, ReturnEntries, TakeFrom;
  }

  lemma PushCloser(c: Config, s: State, id: nat)
    requires Shape(c, s) && id < |s.ms| && Enabled(c, s, id, MarkAndPush) && UpToDate(c, s, s.ms[id])
    ensures Onward(c, s, Do(c, s, id, MarkAndPush), id)
  {
    MarkerFirst(c, s, id);
    var e := s.ms[id].pc.e;
    var t := c.fields[e.obj][e.lo];
    assert t < |c.fields|;
    OneLess(c, s, Do(c, s, id, MarkAndPush), t);
    hide Unmarked, Shape, SlotsWeight, LocalWeight, NumberToGet, StealSlot, ReturnEntries, TakeFrom, ExamineField;
  }

  lemma OneLess(c: Config, s: State, s': State, t: nat)
    requires t < |c.fields| && t !in s.marked && s'.marked == s.marked + {t}
    ensures Unmarked(c, s') < Unmarked(c, s)
  {
    assert t in Unmarked(c, s) && t !in Unmarked(c, s');
  }

  lemma EmptyCloser(c: Config, s: State, id: nat)
    requires Shape(c, s) && id < |s.ms| && Enabled(c, s, id, LocalEmpty)
    ensures Onward(c, s, Do(c, s, id, LocalEmpty), id)
  {
    MarkerFirst(c, s, id);
    SameMarks(c, s, Do(c, s, id, LocalEmpty));
    hide Unmarked, Shape, SlotsWeight, LocalWeight, NumberToGet, StealSlot, MarkTarget, ReturnEntries, TakeFrom,
      ExamineField;
  }

  lemma ShareDoes(c: Config, s: State, id: nat)
    requires Shape(c, s) && id < |s.ms| && Enabled(c, s, id, ShareHalf)
    ensures var s' := Do(c, s, id, ShareHalf);
      && s'.marked == s.marked && s'.slots == s.slots && s'.first == s.first && OthersSame(s, s', id)
      && s'.ms[id].local == s.ms[id].local && s'.ms[id].first == s.ms[id].first
      && (s'.ms[id].pc.CopyBack? || s'.ms[id].pc.Mark?)
  {
    hide Shape;
  }

  lemma ShareCloser(c: Config, s: State, id: nat)
    requires Shape(c, s) && id < |s.ms| && Enabled(c, s, id, ShareHalf)
    ensures Onward(c, s, Do(c, s, id, ShareHalf), id)
  {
    MarkerFirst(c, s, id);
    SameMarks(c, s, Do(c, s, id, ShareHalf));
    ShareDoes(c, s, id);
    LocalLess(s.ms[id].local, 4, 2);
    assert s.ms[id].pc.AskHelpers?;
    hide Unmarked, Shape, MarkerShape, SlotsWeight, LocalWeight, Do, Enabled, OthersSame;
  }

  lemma CopyCloser(c: Config, s: State, id: nat)
    requires Shape(c, s) && id < |s.ms| && Enabled(c, s, id, DoCopyBack)
    ensures Onward(c, s, Do(c, s, id, DoCopyBack), id)
  {
    MarkerFirst(c, s, id);
    SameMarks(c, s, Do(c, s, id, DoCopyBack));
    ReturnWeighsLess(c, s, id);
    hide Unmarked, Shape, SlotsWeight, LocalWeight, NumberToGet, StealSlot, MarkTarget, TakeFrom, ExamineField,
      ReturnEntries, Weight;
  }

  /** Entries that have been returned weigh less; with none the marker goes back to its loop. */
  lemma ReturnWeighsLess(c: Config, s: State, id: nat)
    requires id < |s.ms| && s.ms[id].pc.CopyBack? && s.ms[id].pc.count <= |s.ms[id].local|
    ensures
      var s' := ReturnEntries(c, s, id);
      var m, m' := s.ms[id], s'.ms[id];
      && s'.marked == s.marked && s'.first == s.first && OthersSame(s, s', id) && !m'.pc.Waiting?
      && UpToDate(c, s', m') && m'.first == m.first && (m'.pc.Loop? || m'.pc.Mark?)
      && (|| Weight(s'.slots, m') < Weight(s.slots, m)
          || (Weight(s'.slots, m') == Weight(s.slots, m) && s'.slots == s.slots && m'.pc.Loop?))
  {
    hide SlotsWeight, LocalWeight;
    var m := s.ms[id];
    ReturnedLess(s.slots, m.local, m.pc.count, |s.slots| + m.pc.count <= c.size);
    if m.local == [] { assert s.slots + Deposit(m.local[..m.pc.count]) == s.slots; }
  }

  lemma ReturnedLess(slots: seq<Option<Entry>>, local: seq<Entry>, count: nat, room: bool)
    requires count <= |local|
    ensures
      var slots' := if room then slots + Deposit(local[..count]) else slots;
      var before := SlotsWeight(slots) + LocalWeight(local, 4);
      var after := SlotsWeight(slots') + LocalWeight(local[count..], 2);
      after <= before && (local != [] ==> after < before)
  {
    var back, rest := local[..count], local[count..];
    LocalSplit(local, count, 4);
    LocalLess(rest, 4, 2);
    LocalLess(back, 4, 3);
    SlotsReturned(slots, back);
    if local == [] { assert slots + Deposit(back) == slots; }
    hide SlotsWeight, LocalWeight;
    assert local != [] ==> back != [] || rest != [];
  }

  // ------------------------------------------------------------ one marker alone

  lemma NextCloser(c: Config, s: State, id: nat)
    requires Inv(c, s) && id < |s.ms| && Busy(s.ms[id]) && UpToDate(c, s, s.ms[id])
    requires Enabled(c, s, id, ActiveCount.NextAction(s.ms[id]))
    ensures Onward(c, s, Do(c, s, id, ActiveCount.NextAction(s.ms[id])), id)
  {
    InvShape(c, s);
    hide Inv, Enabled, Do, UpToDate, Onward, Shape;
    var m := s.ms[id];
    if m.pc.Loop? { ReadingCloser(c, s, id); }
    else if m.pc.Compare? { CompareCloser(c, s, id); }
    else if m.pc.ReadTop? { TopCloser(c, s, id); }
    else if m.pc.AskLock? { LockCloser(c, s, id); }
    else if m.pc.Idle? { TestCloser(c, s, id); }
    else if m.pc.Decide? { DecideCloser(c, s, id); }
    else if m.pc.Steal? {
      if m.pc.p < m.pc.end && m.pc.i <= m.pc.max { StealReadCloser(c, s, id); } else { StealDoneCloser(c, s, id); }
    }
    else if m.pc.Clear? { StealClearCloser(c, s, id); }
    else if m.pc.Mark? { if m.local == [] { EmptyCloser(c, s, id); } else { TakeCloser(c, s, id); } }
    else if m.pc.Scan? { ExamineCloser(c, s, id); }
    else if m.pc.Push? { PushCloser(c, s, id); }
    else if m.pc.AskHelpers? { ShareCloser(c, s, id); }
    else if m.pc.CopyBack? { CopyCloser(c, s, id); }
  }

  lemma InvShape(c: Config, s: State)
    requires Inv(c, s)
    ensures Shape(c, s) && s.active == CountActive(s.ms) && s.helpers == CountJoined(s.ms)
  {
    hide NoLoss, Taken, Emptied, LockOk, Ending, Shape;
  }

  /** Nobody else holds the lock. */
  ghost predicate LockFor(s: State, id: nat) {
    forall i :: 0 <= i < |s.ms| && i != id ==> !s.ms[i].HoldsLock()
  }

  lemma NextEnabled(c: Config, s: State, id: nat)
    requires Inv(c, s) && id < |s.ms| && LockFor(s, id) && s.ms[id].Joined()
    ensures Enabled(c, s, id, ActiveCount.NextAction(s.ms[id]))
  {
    LockFree(c, s, id);
    ActiveCount.ActiveMoves(c, s, id);
  }

  lemma LockFree(c: Config, s: State, id: nat)
    requires Inv(c, s) && LockFor(s, id) && id < |s.ms|
    ensures s.lock.None? || (s.lock == Some(id) && s.ms[id].HoldsLock())
  {
    hide NoLoss, Taken, Emptied, Counts, Ending, Shape;
  }

  /** The marker works until it waits or has left. */
  lemma {:induction false} WorksAlone(c: Config, s: State, id: nat) returns (s': State)
    requires Inv(c, s) && id < |s.ms| && LockFor(s, id) && Busy(s.ms[id]) && UpToDate(c, s, s.ms[id])
    ensures Inv(c, s') && Leads(c, s, s') && OthersSame(s, s', id)
    ensures !Busy(s'.ms[id]) && (s'.ms[id].pc.Waiting? ==> s'.active > 0)
    decreases Unmarked(c, s), Weight(s.slots, s.ms[id]), Behind(|s.slots|, s.first, s.ms[id]),
      Rank(|s.slots|, s.first, s.ms[id])
  {
    InvShape(c, s);
    NextEnabled(c, s, id);
    var a := ActiveCount.NextAction(s.ms[id]);
    LeadsStep(c, s, id, a);
    NextCloser(c, s, id);
    hide Inv, Enabled, Do, UpToDate, Shape, Leads, Weight, Behind, Rank, Unmarked, ActiveCount.NextAction;
    var s1 := Do(c, s, id, a);
    if Busy(s1.ms[id]) {
      LockStays(s, s1, id);
      s' := WorksAlone(c, s1, id);
      LeadsThrough(c, s, s1, s');
      SameTwice(s, s1, s', id);
    } else {
      s' := s1;
    }
  }

  lemma LockStays(s: State, s': State, id: nat)
    requires LockFor(s, id) && OthersSame(s, s', id)
    ensures LockFor(s', id)
  {
  }

  lemma SameTwice(s: State, s1: State, s2: State, id: nat)
    requires OthersSame(s, s1, id) && OthersSame(s1, s2, id)
    ensures OthersSame(s, s2, id)
  {
  }

  /** The same when what the marker knows may have changed: one step later that is over. */
  lemma Finishes(c: Config, s: State, id: nat) returns (s': State)
    requires Inv(c, s) && id < |s.ms| && LockFor(s, id) && Busy(s.ms[id])
    ensures Inv(c, s') && Leads(c, s, s') && OthersSame(s, s', id)
    ensures !Busy(s'.ms[id]) && (s'.ms[id].pc.Waiting? ==> s'.active > 0)
  {
    hide Inv, Enabled, Do, UpToDate, Shape, Leads, ActiveCount.NextAction;
    if UpToDate(c, s, s.ms[id]) {
      s' := WorksAlone(c, s, id);
    } else {
      InvShape(c, s);
      NextEnabled(c, s, id);
      var a := ActiveCount.NextAction(s.ms[id]);
      LeadsStep(c, s, id, a);
      LaterUpToDate(c, s, id);
      var s1 := Do(c, s, id, a);
      LockStays(s, s1, id);
      if Busy(s1.ms[id]) {
        s' := WorksAlone(c, s1, id);
        LeadsThrough(c, s, s1, s');
        SameTwice(s, s1, s', id);
      } else {
        s' := s1;
      }
    }
  }

  lemma LaterUpToDate(c: Config, s: State, id: nat)
    requires Shape(c, s) && id < |s.ms| && !UpToDate(c, s, s.ms[id])
    requires Enabled(c, s, id, ActiveCount.NextAction(s.ms[id]))
    ensures var s' := Do(c, s, id, ActiveCount.NextAction(s.ms[id]));
      OthersSame(s, s', id) && UpToDate(c, s', s'.ms[id]) && !s'.ms[id].pc.Waiting?
  {
    hide NumberToGet, ReturnEntries, TakeFrom, ExamineField;
  }

  // ------------------------------------------------------------ all markers

  function BusyOnes(ms: seq<Marker>): set<nat> {
    set i: nat | i < |ms| && Busy(ms[i])
  }

  lemma {:induction false} AllFinish(c: Config, s: State) returns (s': State)
    requires Inv(c, s)
    ensures Inv(c, s') && Leads(c, s, s') && BusyOnes(s'.ms) == {}
    decreases BusyOnes(s.ms)
  {
    if BusyOnes(s.ms) == {} {
      LeadsNowhere(c, s);
      return s;
    }
    var id := Chosen(c, s);
    hide Inv, Leads;
    var s1 := Finishes(c, s, id);
    OneLessBusy(s, s1, id);
    s' := AllFinish(c, s1);
    LeadsThrough(c, s, s1, s');
  }

  lemma OneLessBusy(s: State, s': State, id: nat)
    requires id < |s.ms| && Busy(s.ms[id]) && OthersSame(s, s', id) && !Busy(s'.ms[id])
    ensures BusyOnes(s'.ms) < BusyOnes(s.ms)
  {
    assert id in BusyOnes(s.ms) && id !in BusyOnes(s'.ms);
  }

  /** The one that holds the lock, or any other one. */
  lemma Chosen(c: Config, s: State) returns (id: nat)
    requires Inv(c, s) && BusyOnes(s.ms) != {}
    ensures id < |s.ms| && Busy(s.ms[id]) && LockFor(s, id)
  {
    hide NoLoss, Taken, Emptied, Counts, Ending, Shape;
    if s.lock.Some? { id := s.lock.value; } else { id :| id in BusyOnes(s.ms); }
  }

  lemma {:induction false} NoneActive(ms: seq<Marker>)
    requires forall i :: 0 <= i < |ms| ==> !Busy(ms[i])
    ensures CountActive(ms) == 0
  {
    if ms != [] { NoneActive(ms[..|ms| - 1]); }
  }

  lemma NoneBusy(s: State)
    requires BusyOnes(s.ms) == {}
    ensures forall i :: 0 <= i < |s.ms| ==> !Busy(s.ms[i])
    ensures forall id :: LockFor(s, id)
  {
    forall i | 0 <= i < |s.ms| ensures !Busy(s.ms[i]) { assert i !in BusyOnes(s.ms); }
  }

  /** When all wait, one after the other wakes up and leaves. */
  lemma {:induction false} AllLeave(c: Config, s: State) returns (s': State)
    requires Inv(c, s) && BusyOnes(s.ms) == {}
    ensures Inv(c, s') && Leads(c, s, s') && s'.finished
    decreases CountJoined(s.ms)
  {
    LeadsNowhere(c, s);
    if s.finished { return s; }
    InvShape(c, s);
    NoneBusy(s);
    if s.helpers > 0 {
      var id := ActiveCount.FirstJoined(s.ms);
      var s1 := Leaves(c, s, id);
      hide Inv, Leads;
      s' := AllLeave(c, s1);
      LeadsThrough(c, s, s1, s');
    } else {
      LockFree(c, s, 0) by { hide Inv; }
      ActiveCount.ZeroDrains(c, s);
      LeadsStep(c, s, 0, FinishPhase);
      s' := Do(c, s, 0, FinishPhase);
    }
  }

  /** A waiting marker wakes up. */
  lemma Wakes(c: Config, s: State, id: nat) returns (s': State)
    requires Inv(c, s) && BusyOnes(s.ms) == {} && id < |s.ms| && s.ms[id].Joined()
    ensures Inv(c, s') && Leads(c, s, s') && OthersSame(s, s', id) && LockFor(s', id) && Busy(s'.ms[id])
  {
    InvShape(c, s);
    NoneBusy(s);
    NextEnabled(c, s, id);
    LeadsStep(c, s, id, Wake);
    s' := Do(c, s, id, Wake);
    hide Inv, Leads;
  }

  lemma Leaves(c: Config, s: State, id: nat) returns (s': State)
    requires Inv(c, s) && BusyOnes(s.ms) == {} && id < |s.ms| && s.ms[id].Joined()
    ensures Inv(c, s') && Leads(c, s, s') && BusyOnes(s'.ms) == {} && CountJoined(s'.ms) < CountJoined(s.ms)
  {
    hide Inv, Leads, LockFor;
    var s1 := Wakes(c, s, id);
    s' := Finishes(c, s1, id);
    LeadsThrough(c, s, s1, s');
    StillNone(s, s', id);
    InvShape(c, s');
    NoneBusy(s');
    NoneActive(s'.ms);
    CountUpdate(s.ms, id, s'.ms[id]);
    assert s'.ms == s.ms[id := s'.ms[id]];
  }

  lemma StillNone(s: State, s': State, id: nat)
    requires BusyOnes(s.ms) == {} && id < |s.ms| && |s'.ms| == |s.ms| && !Busy(s'.ms[id])
    requires forall i :: 0 <= i < |s.ms| && i != id ==> s'.ms[i] == s.ms[i]
    ensures BusyOnes(s'.ms) == {}
  {
    NoneBusy(s);
  }

  /** The theorem: from every point of every run the phase can be brought to its end, and then
      no work is lost. */
  lemma PhaseCanEnd(c: Config, tr: seq<State>) returns (full: seq<State>)
    requires Run(c, tr)
    ensures tr <= full && Run(c, full) && full[|full| - 1].finished && Complete(c, full[|full| - 1])
  {
    NonEmptyRun(c, tr);
    RunInv(c, tr, |tr| - 1);
    var s := tr[|tr| - 1];
    var s1 := AllFinish(c, s);
    var s2 := AllLeave(c, s1);
    LeadsThrough(c, s, s1, s2);
    var rest :| Path(c, rest, s, s2);
    RunOn(c, tr, rest, s, s2);
    full := tr + rest[1..];
    NoWorkLost(c, full);
  }

  lemma RunOn(c: Config, tr: seq<State>, rest: seq<State>, s: State, s': State)
    requires Run(c, tr) && s == tr[|tr| - 1] && Path(c, rest, s, s')
    ensures var full := tr + rest[1..]; Run(c, full) && full[|full| - 1] == s'
  {
    hide Next, Init;
    var full := tr + rest[1..];
    forall k {:trigger full[k]} | 0 <= k && k + 1 < |full| ensures Next(c, full[k], full[k + 1]) {
      if k + 1 < |tr| {
        assert Next(c, tr[k], tr[k + 1]);
      } else {
        assert full[k] == rest[k + 1 - |tr|] && Next(c, rest[k + 1 - |tr|], rest[k + 1 - |tr| + 1]);
      }
    }
  }
}
