/** Stopping and restarting the world with signals and a semaphore, in the default mode
    that never resends signals.  Each step below is one atomic action of the collecting
    thread, of a thread's signal handler, or of a thread going about its business. */
module StopWorld {

  datatype Option<T> = None | Some(value: T)

  /** Where a thread is: outside the suspend handler, or at a point inside it.  `my` is
      the value of GC_stop_count that the handler read. */
  datatype Pc =
    | Running
    | Entered
    | ReadCount(my: nat)
    | Saved(my: nat)       // stack pointer stored
    | Posted(my: nat)      // semaphore posted, last_stop_count not yet stored
    | Waiting(my: nat)     // in sigsuspend
    | Woken(my: nat)       // sigsuspend returned
    | SawStopped(my: nat)  // has read GC_world_is_stopped as true
  {
    predicate Acknowledged() {
      Posted? || Waiting? || Woken? || SawStopped?
    }
  }

  /** `posts` counts the acknowledgements given since the latest stop began. */
  datatype Thread = Thread(
    registered: bool,
    finished: bool,
    blocked: bool,
    gone: bool,               // no longer exists although still registered
    pc: Pc,
    last: nat,                // last_stop_count
    suspend: bool,            // a suspend signal is pending
    restart: bool,            // a restart signal is pending
    spSaved: bool,            // the stored stack pointer is that of the current frame
    posts: nat)
  {
    /** The threads that the loops over the thread table deal with. */
    predicate Live() {
      registered && !finished && !blocked
    }
  }

  datatype Phase =
    | Idle
    | Counted                        // GC_stop_count incremented
    | Signalling(i: nat, live: nat)  // in GC_suspend_all, at thread i
    | Acking(k: nat, live: nat)      // has waited for k of `live` acknowledgements
    | Stopped                        // GC_stop_world has returned
    | Restarting(i: nat)             // in GC_start_world, at thread i

  /** `targets` are the threads signalled in the latest stop, `acked` those that answered. */
  datatype State = State(
    ts: seq<Thread>,
    count: nat,          // GC_stop_count
    stopped: bool,       // GC_world_is_stopped
    sem: nat,            // GC_suspend_ack_sem
    phase: Phase,
    self: nat,           // the collecting thread
    targets: set<nat>,
    acked: set<nat>)

  ghost predicate Init(s: State) {
    && s.count == 0 && !s.stopped && s.sem == 0 && s.phase == Idle
    && s.targets == {} && s.acked == {}
    && forall i :: 0 <= i < |s.ts| ==>
         s.ts[i].pc == Running && s.ts[i].last == 0 && !s.ts[i].suspend && !s.ts[i].restart && s.ts[i].posts == 0
         && !s.ts[i].spSaved
  }

  datatype Action =
    // the collecting thread
    | BeginStop | SetStopped | SignalNext | AllSignalled | SemWait | StopReturns
    | BeginRestart | RestartNext | RestartReturns
    // a thread and its handler
    | Deliver | LoadCount | SaveSp | Duplicate | Post | StoreLast | Wake | Stray | TestStopped | TestCount
    | IgnoreRestart
    | ChangeFlags(registered: bool, finished: bool, blocked: bool) | Vanish

  predicate Enabled(s: State, id: nat, a: Action) {
    id < |s.ts| &&
    var t := s.ts[id];
    match a
    case BeginStop => s.phase == Idle && t.Live() && t.pc == Running && !t.gone
    case SetStopped => id == s.self && s.phase == Counted
    case SignalNext => id == s.self && s.phase.Signalling? && s.phase.i < |s.ts|
    case AllSignalled => id == s.self && s.phase.Signalling? && s.phase.i == |s.ts|
    case SemWait => id == s.self && s.phase.Acking? && s.phase.k < s.phase.live && s.sem > 0
    case StopReturns => id == s.self && s.phase.Acking? && s.phase.k == s.phase.live
    case BeginRestart => id == s.self && s.phase == Stopped
    case RestartNext => id == s.self && s.phase.Restarting? && s.phase.i < |s.ts|
    case RestartReturns => id == s.self && s.phase.Restarting? && s.phase.i == |s.ts|
    case Deliver => !t.gone && t.pc == Running && t.suspend
    case LoadCount => t.pc == Entered
    case Duplicate => t.pc.ReadCount? && t.last == t.pc.my
    case SaveSp => t.pc.ReadCount? && t.last != t.pc.my
    case Post => t.pc.Saved?
    case StoreLast => t.pc.Posted?
    case Wake => t.pc.Waiting? && t.restart
    case Stray => t.pc.Waiting?
    case TestStopped => t.pc.Woken?
    case TestCount => t.pc.SawStopped?
    case IgnoreRestart => !t.gone && t.pc == Running && t.restart
    case ChangeFlags(_, _, _) => s.phase == Idle && t.pc == Running
    case Vanish => t.pc == Running && (s.phase == Idle || id != s.self)
  }

  function With(s: State, id: nat, t: Thread): State
    requires id < |s.ts|
  {
    s.(ts := s.ts[id := t])
  }

  /** GC_suspend_all at one thread of the table. */
  function SignalOne(s: State, i: nat, live: nat): State
    requires i < |s.ts|
  {
    var t := s.ts[i];
    if i == s.self || !t.Live() || t.last == s.count || t.gone then
      s.(phase := Signalling(i + 1, live))
    else
      With(s, i, t.(suspend := true)).(phase := Signalling(i + 1, live + 1), targets := s.targets + {i})
  }

  /** GC_start_world at one thread of the table. */
  function RestartOne(s: State, i: nat): State
    requires i < |s.ts|
  {
    var t := s.ts[i];
    if i == s.self || !t.Live() || t.gone then
      s.(phase := Restarting(i + 1))
    else
      With(s, i, t.(restart := true)).(phase := Restarting(i + 1))
  }

  function ResetPosts(ts: seq<Thread>): seq<Thread> {
    seq(|ts|, i requires 0 <= i < |ts| => ts[i].(posts := 0))
  }

  /** What an action makes of the thread that takes it; the handler's reads included. */
  function Act(s: State, t: Thread, a: Action): Thread {
    match a
    case Deliver => t.(pc := Entered, suspend := false)
    case LoadCount => t.(pc := ReadCount(s.count))
    case Duplicate => t.(pc := Running)
    case SaveSp => if t.pc.ReadCount? then t.(pc := Saved(t.pc.my), spSaved := true) else t
    case Post => if t.pc.Saved? then t.(pc := Posted(t.pc.my), posts := t.posts + 1) else t
    case StoreLast => if t.pc.Posted? then t.(pc := Waiting(t.pc.my), last := t.pc.my) else t
    case Wake => if t.pc.Waiting? then t.(pc := Woken(t.pc.my), restart := false) else t
    case Stray => if t.pc.Waiting? then t.(pc := Woken(t.pc.my)) else t
    case TestStopped =>
      if t.pc.Woken? && s.stopped then t.(pc := SawStopped(t.pc.my)) else t.(pc := Running, spSaved := false)
    case TestCount =>
      if t.pc.SawStopped? && s.count == t.pc.my then t.(pc := Waiting(t.pc.my)) else t.(pc := Running, spSaved := false)
    case IgnoreRestart => t.(restart := false)
    case ChangeFlags(r, f, b) => t.(registered := r, finished := f, blocked := b)
    case Vanish => t.(gone := true)
    case _ => t
  }

  function Do(s: State, id: nat, a: Action): State
    requires Enabled(s, id, a)
  {
    match a
    case BeginStop =>
      s.(count := s.count + 1, phase := Counted, self := id, targets := {}, acked := {}, ts := ResetPosts(s.ts))
    case SetStopped => s.(stopped := true, phase := Signalling(0, 0))
    case SignalNext => SignalOne(s, s.phase.i, s.phase.live)
    case AllSignalled => s.(phase := Acking(0, s.phase.live))
    case SemWait => s.(sem := s.sem - 1, phase := Acking(s.phase.k + 1, s.phase.live))
    case StopReturns => s.(phase := Stopped)
    case BeginRestart => s.(stopped := false, phase := Restarting(0))
    case RestartNext => RestartOne(s, s.phase.i)
    case RestartReturns => s.(phase := Idle)
    case Post => With(s, id, Act(s, s.ts[id], a)).(sem := s.sem + 1, acked := s.acked + {id})
    case _ => With(s, id, Act(s, s.ts[id], a))
  }

  ghost predicate Next(s: State, s': State) {
    exists id: nat, a :: Enabled(s, id, a) && s' == Do(s, id, a)
  }

  // ------------------------------------------------------------------ invariant

  /** From the increment of GC_stop_count until GC_start_world: a stop is in progress. */
  predicate Stopping(p: Phase) {
    p.Counted? || p.Signalling? || p.Acking? || p.Stopped?
  }

  predicate AwaitingAcks(p: Phase) {
    p.Signalling? || p.Acking?
  }

  /** GC_start_world has already dealt with thread `i` since the latest stop. */
  predicate RestartSent(p: Phase, i: nat) {
    p.Idle? || (p.Restarting? && i < p.i)
  }

  ghost predicate ThreadOk(count: nat, phase: Phase, targets: set<nat>, acked: set<nat>, i: nat, t: Thread) {
    && t.last <= count
    && (Stopping(phase) && t.last == count ==> i in acked)
    && t.posts == (if i in acked then 1 else 0)
    // on the way to an acknowledgement
    && (t.suspend || t.pc.Entered? || t.pc.ReadCount? || t.pc.Saved? ==>
          AwaitingAcks(phase) && i in targets && i !in acked)
    && (t.suspend ==> !t.pc.Entered? && !t.pc.ReadCount? && !t.pc.Saved?)
    && (t.pc.ReadCount? || t.pc.Saved? ==> t.pc.my == count)
    && (t.pc.Saved? || t.pc.Acknowledged() ==> t.spSaved)
    && (i in targets && i !in acked ==> t.suspend || t.pc.Entered? || t.pc.ReadCount? || t.pc.Saved?)
    // acknowledged
    && (t.pc.Acknowledged() ==>
          && t.pc.my <= count
          && (t.pc.my == count ==> i in acked))
    && (Stopping(phase) && i in acked ==> t.pc.Acknowledged() && t.pc.my == count)
    // no wake-up is lost
    && (t.pc.Posted? || t.pc.Waiting? ==> t.pc.my < count || RestartSent(phase, i) ==> t.restart)
    && (t.pc.SawStopped? && t.pc.my == count && RestartSent(phase, i) ==> t.restart)
    // threads in the handler keep their flags
    && (t.suspend || t.pc != Running ==> t.Live())
    && (t.pc != Running ==> !t.gone)
  }

  ghost predicate Inv(s: State) {
    && (forall i: nat :: i < |s.ts| ==> ThreadOk(s.count, s.phase, s.targets, s.acked, i, s.ts[i]))
    && (forall i :: i in s.targets ==> i < |s.ts| && i != s.self)
    && s.acked <= s.targets
    && (s.phase != Idle ==> s.self < |s.ts| && s.ts[s.self].pc == Running)
    && (s.stopped <==> Stopping(s.phase) && s.phase != Counted)
    && match s.phase
       case Counted => s.targets == {} && s.acked == {} && s.sem == 0
       case Signalling(i, live) =>
         && i <= |s.ts| && |s.targets| == live && s.sem == |s.acked|
         && (forall j :: j in s.targets ==> j < i)
         && (forall j: nat :: j < i && j != s.self && s.ts[j].Live() && !s.ts[j].gone ==> j in s.targets)
       case Acking(k, live) =>
         && |s.targets| == live && k <= live && s.sem + k == |s.acked|
         && (forall j: nat :: j < |s.ts| && j != s.self && s.ts[j].Live() && !s.ts[j].gone ==> j in s.targets)
       case Stopped =>
         && s.sem == 0 && s.acked == s.targets
         && (forall j: nat :: j < |s.ts| && j != s.self && s.ts[j].Live() && !s.ts[j].gone ==> j in s.targets)
       case Restarting(i) => i <= |s.ts| && s.sem == 0 && s.acked == s.targets
       case Idle => s.sem == 0 && s.acked == s.targets
  }

  lemma InitInv(s: State)
    requires Init(s)
    ensures Inv(s)
  {
  }

  predicate IsThreadAction(a: Action) {
    a.Deliver? || a.LoadCount? || a.SaveSp? || a.Duplicate? || a.StoreLast? || a.Wake? || a.Stray?
    || a.TestStopped? || a.TestCount? || a.IgnoreRestart? || a.ChangeFlags? || a.Vanish?
  }

  /** A thread's own action keeps what the invariant says about it. */
  lemma ActOk(s: State, id: nat, a: Action)
    requires id < |s.ts| && ThreadOk(s.count, s.phase, s.targets, s.acked, id, s.ts[id])
    requires s.stopped <==> Stopping(s.phase) && s.phase != Counted
    requires s.phase == Counted ==> s.acked == {}
    requires Enabled(s, id, a) && IsThreadAction(a)
    ensures ThreadOk(s.count, s.phase, s.targets, s.acked, id, Act(s, s.ts[id], a))
  {
  }

  lemma ThreadUpdate(s: State, id: nat, t: Thread)
    requires Inv(s) && id < |s.ts| && ThreadOk(s.count, s.phase, s.targets, s.acked, id, t)
    requires s.phase != Idle ==> (id == s.self ==> t.pc == Running) && t.Live() == s.ts[id].Live()
    requires s.ts[id].gone ==> t.gone
    ensures Inv(With(s, id, t))
  {
    hide ThreadOk;
  }

  lemma ThreadStep(s: State, id: nat, a: Action)
    requires Inv(s) && Enabled(s, id, a) && IsThreadAction(a)
    ensures Inv(Do(s, id, a))
  {
    assert s.phase == Counted ==> s.acked == {};
    ActOk(s, id, a);
    SelfRuns(s, id, a);
    ThreadUpdate(s, id, Act(s, s.ts[id], a));
    hide ThreadOk, Inv, Act;
  }

  lemma SelfRuns(s: State, id: nat, a: Action)
    requires Inv(s) && Enabled(s, id, a) && IsThreadAction(a)
    ensures s.phase != Idle ==> id == s.self ==> Act(s, s.ts[id], a).pc == Running
    ensures s.phase != Idle ==> Act(s, s.ts[id], a).Live() == s.ts[id].Live()
    ensures s.ts[id].gone ==> Act(s, s.ts[id], a).gone
  {
    assert ThreadOk(s.count, s.phase, s.targets, s.acked, id, s.ts[id]);
  }

  lemma StepPost(s: State, id: nat)
    requires Inv(s) && Enabled(s, id, Post)
    ensures id !in s.acked && Inv(Do(s, id, Post))
  {
    var s' := Do(s, id, Post);
    assert ThreadOk(s.count, s.phase, s.targets, s.acked, id, s.ts[id]);
    forall i: nat | i < |s.ts| ensures ThreadOk(s'.count, s'.phase, s'.targets, s'.acked, i, s'.ts[i]) {
      assert ThreadOk(s.count, s.phase, s.targets, s.acked, i, s.ts[i]);
      if i == id { PostOk(s, id); } else { OtherPosted(s, id, i); }
    }
    hide ThreadOk;
  }

  lemma PostOk(s: State, id: nat)
    requires id < |s.ts| && s.ts[id].pc.Saved? && ThreadOk(s.count, s.phase, s.targets, s.acked, id, s.ts[id])
    ensures ThreadOk(s.count, s.phase, s.targets, s.acked + {id}, id, Act(s, s.ts[id], Post))
  {
  }

  lemma OtherPosted(s: State, id: nat, i: nat)
    requires i < |s.ts| && i != id && ThreadOk(s.count, s.phase, s.targets, s.acked, i, s.ts[i])
    ensures ThreadOk(s.count, s.phase, s.targets, s.acked + {id}, i, s.ts[i])
  {
    assert i in s.acked + {id} <==> i in s.acked;
  }

  lemma StepBeginStop(s: State, id: nat)
    requires Inv(s) && Enabled(s, id, BeginStop)
    ensures Inv(Do(s, id, BeginStop))
  {
    var s' := Do(s, id, BeginStop);
    forall i: nat | i < |s.ts| ensures ThreadOk(s'.count, s'.phase, s'.targets, s'.acked, i, s'.ts[i]) {
      assert ThreadOk(s.count, s.phase, s.targets, s.acked, i, s.ts[i]);
    }
  }

  /** The steps that only change the phase and, with it, the stopped flag. */
  lemma PhaseOnly(count: nat, p: Phase, p': Phase, targets: set<nat>, acked: set<nat>, i: nat, t: Thread)
    requires ThreadOk(count, p, targets, acked, i, t)
    requires
      || (p.Counted? && p'.Signalling? && targets == acked == {})
      || (p.Signalling? && (p'.Signalling? || p'.Acking?))
      || (p.Acking? && p'.Acking?)
      || (p.Acking? && p'.Stopped? && acked == targets)
      || (p.Stopped? && p'.Restarting? && p'.i == 0 && acked == targets)
      || (p.Restarting? && p'.Idle? && i < p.i)
      || (p.Restarting? && p'.Restarting? && p'.i == p.i + 1 && i != p.i)
    ensures ThreadOk(count, p', targets, acked, i, t)
  {
  }

  lemma StepPhase(s: State, id: nat, a: Action)
    requires Inv(s) && Enabled(s, id, a)
    requires a.SetStopped? || a.AllSignalled? || a.SemWait? || a.StopReturns? || a.BeginRestart? || a.RestartReturns?
    ensures Inv(Do(s, id, a))
  {
    hide ThreadOk;
    var s' := Do(s, id, a);
    if a.StopReturns? { AllAcked(s.acked, s.targets); }
    forall i: nat | i < |s.ts| ensures ThreadOk(s'.count, s'.phase, s'.targets, s'.acked, i, s'.ts[i]) {
      PhaseOnly(s.count, s.phase, s'.phase, s.targets, s.acked, i, s.ts[i]);
    }
  }

  lemma AllAcked(a: set<nat>, b: set<nat>)
    requires a <= b
    ensures |a| <= |b| && (|a| == |b| ==> a == b)
  {
    assert |b| == |a| + |b - a| by { assert a + (b - a) == b; }
    if |a| == |b| { assert b - a == {}; }
  }

  lemma StepSignalNext(s: State, id: nat)
    requires Inv(s) && Enabled(s, id, SignalNext)
    ensures Inv(Do(s, id, SignalNext))
  {
    var s', n := Do(s, id, SignalNext), s.phase.i;
    assert ThreadOk(s.count, s.phase, s.targets, s.acked, n, s.ts[n]);
    assert n !in s.targets;
    SignalledOk(s, n, s'.phase);
    forall i: nat | i < |s.ts| ensures ThreadOk(s'.count, s'.phase, s'.targets, s'.acked, i, s'.ts[i]) {
      if i != n {
        PhaseOnly(s.count, s.phase, s'.phase, s.targets, s.acked, i, s.ts[i]);
        OtherTargeted(s, s'.phase, n, i);
      }
    }
    hide ThreadOk;
  }

  lemma SignalledOk(s: State, n: nat, p: Phase)
    requires n < |s.ts| && n !in s.targets && n !in s.acked && s.phase.Signalling? && p.Signalling?
    requires ThreadOk(s.count, s.phase, s.targets, s.acked, n, s.ts[n])
    ensures s.ts[n].last != s.count
    ensures s.ts[n].Live() ==> ThreadOk(s.count, p, s.targets + {n}, s.acked, n, s.ts[n].(suspend := true))
    ensures ThreadOk(s.count, p, s.targets, s.acked, n, s.ts[n])
  {
  }

  lemma OtherTargeted(s: State, p: Phase, n: nat, i: nat)
    requires i < |s.ts| && i != n && ThreadOk(s.count, p, s.targets, s.acked, i, s.ts[i])
    ensures ThreadOk(s.count, p, s.targets + {n}, s.acked, i, s.ts[i])
  {
    assert i in s.targets + {n} <==> i in s.targets;
  }

  lemma StepRestartNext(s: State, id: nat)
    requires Inv(s) && Enabled(s, id, RestartNext)
    ensures Inv(Do(s, id, RestartNext))
  {
    var s', n := Do(s, id, RestartNext), s.phase.i;
    assert ThreadOk(s.count, s.phase, s.targets, s.acked, n, s.ts[n]);
    assert ThreadOk(s'.count, s'.phase, s'.targets, s'.acked, n, s'.ts[n]);
    forall i: nat | i < |s.ts| ensures ThreadOk(s'.count, s'.phase, s'.targets, s'.acked, i, s'.ts[i]) {
      if i != n {
        PhaseOnly(s.count, s.phase, s'.phase, s.targets, s.acked, i, s.ts[i]);
      }
    }
    hide ThreadOk;
  }

  lemma InvStep(s: State, id: nat, a: Action)
    requires Inv(s) && Enabled(s, id, a)
    ensures Inv(Do(s, id, a))
  {
    hide Inv, Enabled, Do;
    match a
    case BeginStop => StepBeginStop(s, id);
    case SignalNext => StepSignalNext(s, id);
    case RestartNext => StepRestartNext(s, id);
    case Post => StepPost(s, id);
    case SetStopped => StepPhase(s, id, a);
    case AllSignalled => StepPhase(s, id, a);
    case SemWait => StepPhase(s, id, a);
    case StopReturns => StepPhase(s, id, a);
    case BeginRestart => StepPhase(s, id, a);
    case RestartReturns => StepPhase(s, id, a);
    case _ => ThreadStep(s, id, a);
  }

  // ------------------------------------------------------------ over every run

  ghost predicate Run(tr: seq<State>) {
    && |tr| > 0
    && Init(tr[0])
    && forall i {:trigger tr[i]} :: 0 <= i && i + 1 < |tr| ==> Next(tr[i], tr[i + 1])
  }

  lemma {:induction false} RunInv(tr: seq<State>, i: nat)
    requires Run(tr) && i < |tr|
    ensures Inv(tr[i])
    decreases i
  {
    hide Inv, Enabled, Do, Init;
    if i == 0 {
      InitInv(tr[0]);
    } else {
      RunInv(tr, i - 1);
      assert Next(tr[i - 1], tr[i - 1 + 1]);
      var id: nat, a :| Enabled(tr[i - 1], id, a) && tr[i] == Do(tr[i - 1], id, a);
      InvStep(tr[i - 1], id, a);
    }
  }

  /** The thread sits in the handler invocation for the current stop, stack pointer saved,
      having acknowledged exactly once. */
  ghost predicate Held(s: State, i: nat)
    requires i < |s.ts|
  {
    && s.ts[i].pc.Acknowledged() && s.ts[i].pc.my == s.count
    && s.ts[i].spSaved
    && s.ts[i].posts == 1
  }

  /** The theorem: in every run, from the return of GC_stop_world until GC_start_world, each
      other live thread is held and the semaphore is zero. */
  lemma WorldIsStopped(tr: seq<State>, k: nat)
    requires Run(tr) && k < |tr| && tr[k].phase == Stopped
    ensures tr[k].sem == 0
    ensures forall i: nat :: i < |tr[k].ts| && i != tr[k].self && tr[k].ts[i].Live() && !tr[k].ts[i].gone ==>
      Held(tr[k], i)
  {
    RunInv(tr, k);
    HeldWhenStopped(tr[k]);
  }

  lemma HeldWhenStopped(s: State)
    requires Inv(s) && s.phase == Stopped
    ensures s.sem == 0
    ensures forall i: nat :: i < |s.ts| && i != s.self && s.ts[i].Live() && !s.ts[i].gone ==> Held(s, i)
  {
    forall i: nat | i < |s.ts| && i != s.self && s.ts[i].Live() && !s.ts[i].gone ensures Held(s, i) {
      assert ThreadOk(s.count, s.phase, s.targets, s.acked, i, s.ts[i]);
    }
  }

  /** A suspend signal is never mistaken for a duplicate in this mode. */
  lemma NoDuplicateSignal(tr: seq<State>, k: nat, id: nat)
    requires Run(tr) && k < |tr|
    ensures !Enabled(tr[k], id, Duplicate)
  {
    RunInv(tr, k);
    var s := tr[k];
    if id < |s.ts| {
      assert ThreadOk(s.count, s.phase, s.targets, s.acked, id, s.ts[id]);
    }
  }

  /** No wake-up is lost: once GC_start_world has returned, a thread that still sleeps in
      the handler, or is about to, has its restart signal pending. */
  lemma NoLostWakeup(tr: seq<State>, k: nat, i: nat)
    requires Run(tr) && k < |tr| && tr[k].phase == Idle && i < |tr[k].ts|
    ensures tr[k].ts[i].pc.Posted? || tr[k].ts[i].pc.Waiting? ==> tr[k].ts[i].restart
  {
    RunInv(tr, k);
    var s := tr[k];
    assert ThreadOk(s.count, s.phase, s.targets, s.acked, i, s.ts[i]);
  }

  /** While acknowledgements are awaited, each signalled thread has answered or is on its
      way to do so; the previous handler it may still be in has a wake-up pending. */
  lemma AcksAreComing(tr: seq<State>, k: nat, i: nat)
    requires Run(tr) && k < |tr| && AwaitingAcks(tr[k].phase) && i in tr[k].targets
    ensures i < |tr[k].ts|
    ensures
      var t := tr[k].ts[i];
      i in tr[k].acked || t.pc.Entered? || t.pc.ReadCount? || t.pc.Saved? ||
      (t.suspend && (t.pc.Posted? || t.pc.Waiting? ==> t.restart))
  {
    RunInv(tr, k);
    var s := tr[k];
    assert ThreadOk(s.count, s.phase, s.targets, s.acked, i, s.ts[i]);
  }

  // ------------------------------------------------------------------ signals and stack pointers

  /** A suspend signal becomes pending exactly when the collector's loop comes to a live thread
      other than itself that has not answered yet, and is taken when the handler is entered. */
  lemma SuspendsExactly(s: State, id: nat, a: Action, i: nat)
    requires Enabled(s, id, a) && i < |s.ts|
    ensures var t, t' := s.ts[i], Do(s, id, a).ts[i];
      t'.suspend <==>
        if a.SignalNext? && i == s.phase.i && i != s.self && t.Live() && t.last != s.count && !t.gone then true
        else if a.Deliver? && i == id then false else t.suspend
  {
    ActSuspend(s, s.ts[id], a);
    hide Act;
  }

  /** The same for restart signals, which are taken by waking up or outside the handler. */
  lemma RestartsExactly(s: State, id: nat, a: Action, i: nat)
    requires Enabled(s, id, a) && i < |s.ts|
    ensures var t, t' := s.ts[i], Do(s, id, a).ts[i];
      t'.restart <==>
        if a.RestartNext? && i == s.phase.i && i != s.self && t.Live() && !t.gone then true
        else if (a.Wake? || a.IgnoreRestart?) && i == id then false else t.restart
  {
    ActRestart(s, s.ts[id], a);
    hide Act;
  }

  lemma ActSuspend(s: State, t: Thread, a: Action)
    ensures Act(s, t, a).suspend == (t.suspend && !a.Deliver?)
  {
    match a
    case Deliver =>
    case SaveSp =>
    case Post =>
    case StoreLast =>
    case Wake =>
    case Stray =>
    case TestStopped =>
    case TestCount =>
    case _ =>
  }

  lemma ActRestart(s: State, t: Thread, a: Action)
    requires a.Wake? ==> t.pc.Waiting?
    ensures Act(s, t, a).restart == (t.restart && !a.Wake? && !a.IgnoreRestart?)
  {
    match a
    case SaveSp =>
    case Post =>
    case StoreLast =>
    case Wake =>
    case Stray =>
    case TestStopped =>
    case TestCount =>
    case IgnoreRestart =>
    case _ =>
  }

  /** A stored stack pointer counts for one stay in the handler only. */
  ghost predicate SavedInside(s: State) {
    forall i :: 0 <= i < |s.ts| && s.ts[i].spSaved ==> s.ts[i].pc.Saved? || s.ts[i].pc.Acknowledged()
  }

  lemma SavedNext(s: State, s': State)
    requires SavedInside(s) && Next(s, s')
    ensures SavedInside(s')
  {
    var id: nat, a :| Enabled(s, id, a) && s' == Do(s, id, a);
    forall i: nat | i < |s'.ts| && s'.ts[i].spSaved ensures s'.ts[i].pc.Saved? || s'.ts[i].pc.Acknowledged() {
      SavedAt(s, id, a, i);
    }
  }

  lemma SavedAt(s: State, id: nat, a: Action, i: nat)
    requires SavedInside(s) && Enabled(s, id, a) && i < |Do(s, id, a).ts| && Do(s, id, a).ts[i].spSaved
    ensures Do(s, id, a).ts[i].pc.Saved? || Do(s, id, a).ts[i].pc.Acknowledged()
  {
    if IsThreadAction(a) || a.Post? {
      assert s.ts[id].spSaved ==> s.ts[id].pc.Saved? || s.ts[id].pc.Acknowledged();
      ActSaved(s, s.ts[id], a);
    }
    hide Act;
    assert i < |s.ts|;
    assert s.ts[i].spSaved ==> s.ts[i].pc.Saved? || s.ts[i].pc.Acknowledged();
    hide SavedInside;
  }

  lemma ActSaved(s: State, t: Thread, a: Action)
    requires t.spSaved ==> t.pc.Saved? || t.pc.Acknowledged()
    requires a.Deliver? ==> t.pc == Running
    requires a.LoadCount? ==> t.pc == Entered
    requires a.Duplicate? || a.SaveSp? ==> t.pc.ReadCount?
    ensures Act(s, t, a).spSaved ==> Act(s, t, a).pc.Saved? || Act(s, t, a).pc.Acknowledged()
  {
    match a
    case Deliver =>
    case LoadCount =>
    case Duplicate =>
    case SaveSp =>
    case Post =>
    case StoreLast =>
    case Wake =>
    case Stray =>
    case TestStopped =>
    case TestCount =>
    case _ =>
  }

  lemma {:induction false} RunSaved(tr: seq<State>, k: nat)
    requires Run(tr) && k < |tr|
    ensures SavedInside(tr[k])
    decreases k
  {
    hide Next, SavedInside;
    if k == 0 {
      FirstSaved(tr[0]);
    } else {
      RunSaved(tr, k - 1);
      assert Next(tr[k - 1], tr[k - 1 + 1]);
      SavedNext(tr[k - 1], tr[k]);
    }
  }

  lemma FirstSaved(s: State)
    requires Init(s)
    ensures SavedInside(s)
  {
  }
}
