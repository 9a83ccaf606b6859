/** Progress of the stop handshake: when a stop can return, and that handlers can be left. */
module StopProgress {
  import opened StopWorld

  /** A finite piece of a run that starts at `s`. */
  ghost predicate Path(s: State, tr: seq<State>) {
    && |tr| > 0 && tr[0] == s
    && forall i {:trigger tr[i]} :: 0 <= i && i + 1 < |tr| ==> Next(tr[i], tr[i + 1])
  }

  lemma Prepend(s: State, s': State, tr: seq<State>)
    requires Next(s, s') && Path(s', tr)
    ensures Path(s, [s] + tr)
  {
    hide Next;
    var r := [s] + tr;
    forall i {:trigger r[i]} | 0 <= i && i + 1 < |r| ensures Next(r[i], r[i + 1]) {
      if i > 0 { assert r[i] == tr[i - 1] && r[i + 1] == tr[i]; }
    }
  }

  /** On `tr` the stop that is in progress in `s` returns. */
  ghost predicate Returns(s: State, tr: seq<State>) {
    Path(s, tr) && tr[|tr| - 1].phase == Stopped && tr[|tr| - 1].count == s.count
  }

  ghost predicate CanReturn(s: State) {
    exists tr :: Returns(s, tr)
  }

  /** The thread was signalled and has ceased to exist without answering. */
  ghost predicate Missing(s: State, i: nat) {
    i < |s.ts| && i in s.targets && i !in s.acked && s.ts[i].gone
  }

  ghost predicate NoneMissing(s: State) {
    forall i :: i in s.targets && i !in s.acked ==> !Missing(s, i)
  }

  // ------------------------------------------------------------ a measure

  /** How many steps a signalled thread is from its acknowledgement at most. */
  function Rank(t: Thread, count: nat): nat {
    if t.pc.Acknowledged() && t.pc.my == count then 0
    else if t.pc.Posted? then 8
    else if t.pc.Waiting? then 7
    else if t.pc.Woken? then 6
    else if t.pc.SawStopped? then 5
    else if t.pc.Entered? then 3
    else if t.pc.ReadCount? then 2
    else if t.pc.Saved? then 1
    else if t.suspend then 4
    else 0
  }

  function Ranks(ts: seq<Thread>, count: nat): nat {
    if ts == [] then 0 else Rank(ts[0], count) + Ranks(ts[1..], count)
  }

  lemma {:induction false} RanksUpdate(ts: seq<Thread>, i: nat, t: Thread, count: nat)
    requires i < |ts|
    ensures Ranks(ts[i := t], count) == Ranks(ts, count) - Rank(ts[i], count) + Rank(t, count)
  {
    hide Rank;
    if i == 0 {
      assert ts[i := t][1..] == ts[1..];
    } else {
      assert ts[i := t][1..] == ts[1..][i - 1 := t];
      RanksUpdate(ts[1..], i - 1, t, count);
    }
  }

  function PhaseRank(s: State): nat {
    match s.phase
    case Counted => |s.ts| + 3
    case Signalling(i, _) => if i <= |s.ts| then |s.ts| - i + 2 else 2
    case Acking(_, _) => 1
    case _ => 0
  }

  function Awaited(s: State): nat {
    if s.phase.Acking? && s.phase.k <= s.phase.live then s.phase.live - s.phase.k else 0
  }

  /** The measure decreases from `s` to `s'`. */
  ghost predicate Closer(s: State, s': State) {
    var r, r' := Ranks(s.ts, s.count), Ranks(s'.ts, s'.count);
    || PhaseRank(s') < PhaseRank(s)
    || (PhaseRank(s') == PhaseRank(s) && r' < r)
    || (PhaseRank(s') == PhaseRank(s) && r' == r && Awaited(s') < Awaited(s))
  }

  // ------------------------------------------------------------ the next helpful step

  /** What a signalled thread has to do next on its way to the acknowledgement. */
  function Towards(t: Thread): Action {
    match t.pc
    case Running => Deliver
    case Entered => LoadCount
    case ReadCount(_) => SaveSp
    case Saved(_) => Post
    case Posted(_) => StoreLast
    case Waiting(_) => Wake
    case Woken(_) => TestStopped
    case SawStopped(_) => TestCount
  }

  /** A signalled thread that exists can take that step, and it is a step closer. */
  lemma TowardsEnabled(s: State, i: nat)
    requires Inv(s) && s.phase.Acking? && i in s.targets && i !in s.acked && !Missing(s, i)
    ensures i < |s.ts| && Enabled(s, i, Towards(s.ts[i]))
    ensures var t' := Act(s, s.ts[i], Towards(s.ts[i]));
      t'.gone == s.ts[i].gone && Rank(t', s.count) < Rank(s.ts[i], s.count)
  {
    assert i < |s.ts|;
    assert ThreadOk(s.count, s.phase, s.targets, s.acked, i, s.ts[i]);
  }

  lemma TowardsCloser(s: State, i: nat)
    requires Inv(s) && s.phase.Acking? && NoneMissing(s) && i in s.targets && i !in s.acked
    ensures i < |s.ts| && Enabled(s, i, Towards(s.ts[i]))
    ensures var s' := Do(s, i, Towards(s.ts[i])); s'.phase == s.phase && s'.count == s.count
    ensures var s' := Do(s, i, Towards(s.ts[i])); NoneMissing(s') && Closer(s, s')
  {
    TowardsEnabled(s, i);
    var a := Towards(s.ts[i]);
    var s' := Do(s, i, a);
    hide Inv, Enabled, Rank;
    assert s'.ts == s.ts[i := Act(s, s.ts[i], a)];
    RanksUpdate(s.ts, i, Act(s, s.ts[i], a), s.count);
    forall j | j in s'.targets && j !in s'.acked ensures !Missing(s', j) {
      assert !Missing(s, j);
    }
  }

  /** In a stop from which no signalled thread has vanished some step leads closer to its end. */
  lemma Helpful(s: State) returns (id: nat, a: Action)
    requires Inv(s) && Stopping(s.phase) && s.phase != Stopped && NoneMissing(s)
    ensures Enabled(s, id, a)
    ensures var s' := Do(s, id, a); Stopping(s'.phase) && s'.count == s.count && NoneMissing(s') && Closer(s, s')
  {
    id := s.self;
    if s.phase.Counted? {
      a := SetStopped;
    } else if s.phase.Signalling? {
      a := if s.phase.i < |s.ts| then SignalNext else AllSignalled;
      StillThere(s, Do(s, id, a));
    } else if s.acked != s.targets {
      var i :| i in s.targets && i !in s.acked;
      TowardsCloser(s, i);
      id, a := i, Towards(s.ts[i]);
    } else {
      a := if s.phase.k < s.phase.live then SemWait else StopReturns;
      assert Do(s, id, a).ts == s.ts;
    }
  }

  /** Signals go to threads that exist. */
  lemma StillThere(s: State, s': State)
    requires Inv(s) && NoneMissing(s) && s'.acked == s.acked && |s'.ts| == |s.ts|
    requires forall j: nat :: j < |s.ts| ==> s'.ts[j].gone == s.ts[j].gone
    requires forall j :: j in s'.targets ==> j in s.targets || (j < |s'.ts| && !s'.ts[j].gone)
    ensures NoneMissing(s')
  {
    forall j | j in s'.targets && j !in s'.acked ensures !Missing(s', j) {
      assert j in s.targets ==> !Missing(s, j);
    }
  }

  lemma {:induction false} Settle(s: State) returns (tr: seq<State>)
    requires Inv(s) && Stopping(s.phase) && NoneMissing(s)
    ensures Returns(s, tr)
    decreases PhaseRank(s), Ranks(s.ts, s.count), Awaited(s)
  {
    if s.phase == Stopped { return [s]; }
    var id, a := Helpful(s);
    hide Inv, Enabled, Do, NoneMissing, PhaseRank, Ranks, Awaited;
    var s' := Do(s, id, a);
    InvStep(s, id, a);
    var rest := Settle(s');
    Prepend(s, s', rest);
    tr := [s] + rest;
  }

  // ------------------------------------------------------------ vanished threads

  /** A thread that vanished before it answered is waited for ever after. */
  lemma MissingStays(s: State, id: nat, a: Action, i: nat)
    requires Inv(s) && Enabled(s, id, a) && AwaitingAcks(s.phase) && Missing(s, i)
    ensures AwaitingAcks(Do(s, id, a).phase) && Missing(Do(s, id, a), i)
  {
    assert ThreadOk(s.count, s.phase, s.targets, s.acked, i, s.ts[i]);
    if a.StopReturns? { AllAcked(s.acked, s.targets); }
  }

  lemma {:induction false} MissingForever(s: State, tr: seq<State>, i: nat, k: nat)
    requires Inv(s) && AwaitingAcks(s.phase) && Missing(s, i) && Path(s, tr) && k < |tr|
    ensures Inv(tr[k]) && AwaitingAcks(tr[k].phase) && Missing(tr[k], i)
  {
    hide Inv, Enabled, Do, Missing, AwaitingAcks;
    if k > 0 {
      MissingForever(s, tr, i, k - 1);
      assert Next(tr[k - 1], tr[k - 1 + 1]);
      var id: nat, a :| Enabled(tr[k - 1], id, a) && tr[k] == Do(tr[k - 1], id, a);
      InvStep(tr[k - 1], id, a);
      MissingStays(tr[k - 1], id, a, i);
    }
  }

  /** The theorem: at any point of any run, a stop in progress can still return if and only if
      no thread has vanished between its signal and its acknowledgement. */
  lemma StopReturnsExactly(tr: seq<State>, k: nat)
    requires Run(tr) && k < |tr| && Stopping(tr[k].phase)
    ensures CanReturn(tr[k]) <==> NoneMissing(tr[k])
  {
    hide Run, Returns;
    RunInv(tr, k);
    var s := tr[k];
    if NoneMissing(s) {
      var rest := Settle(s);
      assert Returns(s, rest);
    } else {
      var i :| i in s.targets && i !in s.acked && Missing(s, i);
      forall rest ensures !Returns(s, rest) { NeverReturns(s, rest, i); }
    }
  }

  lemma NeverReturns(s: State, tr: seq<State>, i: nat)
    requires Inv(s) && Stopping(s.phase) && Missing(s, i)
    ensures !Returns(s, tr)
  {
    if Returns(s, tr) { MissingForever(s, tr, i, |tr| - 1); }
  }

  // ------------------------------------------------------------ leaving the handler

  ghost predicate Moves(s: State, i: nat, s': State) {
    exists a :: Enabled(s, i, a) && s' == Do(s, i, a)
  }

  /** Only thread `i` takes steps on `tr`. */
  ghost predicate Alone(tr: seq<State>, i: nat) {
    forall k {:trigger tr[k]} :: 0 <= k && k + 1 < |tr| ==> Moves(tr[k], i, tr[k + 1])
  }

  function Leaving(t: Thread): nat {
    match t.pc
    case Running => 0
    case Woken(_) => 1
    case Waiting(_) => 2
    case _ => 3
  }

  lemma LeaveStep(s: State, i: nat)
    requires Inv(s) && s.phase == Idle && i < |s.ts| && s.ts[i].pc != Running
    ensures Enabled(s, i, Towards(s.ts[i]))
    ensures var s' := Do(s, i, Towards(s.ts[i]));
      s'.phase == Idle && |s'.ts| == |s.ts| && Leaving(s'.ts[i]) < Leaving(s.ts[i])
  {
    assert ThreadOk(s.count, s.phase, s.targets, s.acked, i, s.ts[i]);
  }

  /** Once the world is restarted, every thread still in its handler can leave it by its own
      steps alone: no further signal is needed. */
  lemma {:induction false} HandlerLeaves(s: State, i: nat) returns (tr: seq<State>)
    requires Inv(s) && s.phase == Idle && i < |s.ts|
    ensures |tr| > 0 && tr[0] == s && Alone(tr, i)
    ensures i < |tr[|tr| - 1].ts| && tr[|tr| - 1].ts[i].pc == Running
    decreases Leaving(s.ts[i])
  {
    if s.ts[i].pc == Running { return [s]; }
    LeaveStep(s, i);
    var a := Towards(s.ts[i]);
    hide Inv, Enabled, Do, Leaving, Alone;
    var s' := Do(s, i, a);
    InvStep(s, i, a);
    var rest := HandlerLeaves(s', i);
    assert Moves(s, i, s');
    PrependAlone(s, s', i, rest);
    tr := [s] + rest;
    assert tr[|tr| - 1] == rest[|rest| - 1];
  }

  lemma PrependAlone(s: State, s': State, i: nat, tr: seq<State>)
    requires Moves(s, i, s') && |tr| > 0 && tr[0] == s' && Alone(tr, i)
    ensures Alone([s] + tr, i)
  {
    hide Moves;
    var r := [s] + tr;
    forall k {:trigger r[k]} | 0 <= k && k + 1 < |r| ensures Moves(r[k], i, r[k + 1]) {
      if k > 0 { assert r[k] == tr[k - 1] && r[k + 1] == tr[k]; }
    }
  }
}
