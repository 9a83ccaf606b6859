/** The sequential marker: a resumable state machine over a bounded mark stack that
    drops entries on overflow and recovers by rescanning the heap. */
module Marker {
  import opened MarkHeap
  import opened MarkRun

  datatype MarkState = None | PushUncollectable | RootsPushed | PartiallyInvalid | Invalid

  datatype StepResult = Running | Finished | Aborted

  /** Going from marks `m` and waiting ranges `s` to `m'` and `s'` lost no work. */
  ghost predicate Advance(h: Heap, m: set<nat>, s: seq<Mse>, m': set<nat>, s': seq<Mse>) {
    && m <= m' <= h.descr.Keys
    && (forall a {:trigger h.Done(m', a)} :: Waits(s, a) ==> h.Done(m', a) || Waits(s', a))
    && (forall o :: o in m' && o !in m ==> h.Scanned(m', s', o))
  }

  /** What marking changes, at one moment. */
  datatype Snap = Snap(marked: set<nat>, entries: seq<Mse>, state: MarkState, tooSmall: bool, dropped: nat)

  /** Marking went from `a` to `b`, with or without an overflow: without one no work was lost,
      with one something was newly marked and the marks became invalid. */
  ghost predicate Moved(h: Heap, a: Snap, b: Snap, overflow: bool) {
    && a.marked <= b.marked && (overflow ==> a.marked < b.marked)
    && b.state == (if overflow then Invalid else a.state)
    && b.tooSmall == (a.tooSmall || overflow)
    && (!overflow ==> b.dropped == a.dropped && Advance(h, a.marked, a.entries, b.marked, b.entries))
  }

  lemma MovedTrans(h: Heap, a: Snap, b: Snap, c: Snap, overflow: bool, again: bool)
    requires Moved(h, a, b, overflow) && Moved(h, b, c, again)
    ensures Moved(h, a, c, overflow || again)
  {
    hide Advance;
    if !overflow && !again { AdvanceTrans(h, a.marked, a.entries, b.marked, b.entries, c.marked, c.entries); }
  }

  lemma MovedFacts(h: Heap, a: Snap, b: Snap, overflow: bool)
    requires Moved(h, a, b, overflow)
    ensures a.marked <= b.marked && b.state == (if overflow then Invalid else a.state)
    ensures !overflow ==> Advance(h, a.marked, a.entries, b.marked, b.entries)
  {
  }

  lemma MovedRefl(h: Heap, a: Snap)
    requires a.marked <= h.descr.Keys
    ensures Moved(h, a, a, false)
  {
    AdvanceRefl(h, a.marked, a.entries);
  }

  lemma AdvanceTrans(h: Heap, m0: set<nat>, s0: seq<Mse>, m1: set<nat>, s1: seq<Mse>, m2: set<nat>, s2: seq<Mse>)
    requires Advance(h, m0, s0, m1, s1) && Advance(h, m1, s1, m2, s2)
    ensures Advance(h, m0, s0, m2, s2)
  {
    forall a | Waits(s0, a) ensures h.Done(m2, a) || Waits(s2, a) {
      assert h.Done(m1, a) || Waits(s1, a);
    }
    forall o | o in m2 && o !in m0 ensures h.Scanned(m2, s2, o) {
      if o in m1 { AdvanceRange(h, m1, s1, m2, s2, o, h.descr[o]); }
    }
  }

  lemma AdvanceRefl(h: Heap, m: set<nat>, s: seq<Mse>)
    requires m <= h.descr.Keys
    ensures Advance(h, m, s, m, s)
  {
  }

  lemma AdvanceRange(h: Heap, m: set<nat>, s: seq<Mse>, m': set<nat>, s': seq<Mse>, start: nat, len: nat)
    requires Advance(h, m, s, m', s') && h.RangeDone(m, s, start, len)
    ensures h.RangeDone(m', s', start, len)
  {
    forall a | start <= a < start + len ensures h.Done(m', a) || Waits(s', a) {
      assert h.Done(m, a) || Waits(s, a);
    }
  }

  lemma AdvanceDone(h: Heap, m: set<nat>, s: seq<Mse>, a: nat)
    requires m <= h.descr.Keys && h.Done(m, a)
    ensures Advance(h, m, s + [Mse(a, 1)], m, s)
  {
    WaitsPush(s, Mse(a, 1));
  }

  lemma TargetIsObject(h: Heap, a: nat)
    requires h.Valid() && a in h.target
    ensures h.target[a] in h.descr
  {
  }

  lemma ImplausibleDone(h: Heap, m: set<nat>, s: seq<Mse>, a: nat)
    requires h.Valid() && m <= h.descr.Keys && !h.Plausible(a)
    ensures Advance(h, m, s + [Mse(a, 1)], m, s)
  {
    AdvanceDone(h, m, s, a);
  }

  lemma AdvanceMark(h: Heap, m: set<nat>, s: seq<Mse>, a: nat)
    requires m <= h.descr.Keys && a in h.target && h.target[a] in h.descr
    ensures
      var t := h.target[a];
      Advance(h, m, s + [Mse(a, 1)], m + {t}, s + if h.descr[t] == 0 then [] else [Mse(t, h.descr[t])])
  {
    var t := h.target[a];
    WaitsPush(s, Mse(a, 1));
    WaitsPush(s, Mse(t, h.descr[t]));
    if h.descr[t] == 0 { assert s + [] == s; }
  }

  /** The range `[cur, cur + k)` and the word at `d` are in flight; the word at `cur` has
      just been considered. */
  lemma AdvanceOne(h: Heap, m0: set<nat>, s0: seq<Mse>, m: set<nat>, s: seq<Mse>,
                   d: nat, cur: nat, k: nat, m': set<nat>, s': seq<Mse>)
    requires k >= 1
    requires Advance(h, m0, s0, m, s + [Mse(d, 1)] + [Mse(cur, k)])
    requires Advance(h, m, s + [Mse(cur, 1)], m', s')
    ensures Advance(h, m0, s0, m', s' + [Mse(d, 1)] + [Mse(cur + 1, k - 1)])
  {
    var t, t' := s + [Mse(d, 1)] + [Mse(cur, k)], s' + [Mse(d, 1)] + [Mse(cur + 1, k - 1)];
    InFlight(s, d, cur, k);
    InFlight(s', d, cur + 1, k - 1);
    WaitsPush(s, Mse(cur, 1));
    assert Advance(h, m, t, m', t');
    AdvanceTrans(h, m0, s0, m, t, m', t');
  }

  lemma InFlight(s: seq<Mse>, d: nat, cur: nat, k: nat)
    ensures forall a: nat :: Waits(s + [Mse(d, 1)] + [Mse(cur, k)], a) <==> Waits(s, a) || a == d || cur <= a < cur + k
  {
    WaitsPush(s, Mse(d, 1));
    WaitsPush(s + [Mse(d, 1)], Mse(cur, k));
  }

  /** The words of `[cur, cur + n)` beyond its first `k` are not plausible. */
  lemma AdvanceSkip(h: Heap, m: set<nat>, s: seq<Mse>, cur: nat, k: nat, n: nat)
    requires h.Valid() && m <= h.descr.Keys && k <= n
    requires forall a :: cur + k <= a < cur + n ==> !h.Plausible(a)
    ensures Advance(h, m, s + [Mse(cur, n)], m, s + [Mse(cur, k)])
    ensures k == 0 ==> Advance(h, m, s + [Mse(cur, n)], m, s)
    ensures k > 0 ==> Advance(h, m, s + [Mse(cur, n)], m, s + [Mse(cur + k - 1, 1)] + [Mse(cur, k - 1)])
  {
    hide Heap.Valid;
    WaitsPush(s, Mse(cur, n));
    WaitsPush(s, Mse(cur, k));
    if k > 0 { InFlight(s, cur + k - 1, cur, k - 1); }
    ImplausibleRange(h, m, cur + k, cur + n);
  }

  lemma ImplausibleRange(h: Heap, m: set<nat>, lo: nat, hi: nat)
    requires h.Valid() && forall a :: lo <= a < hi ==> !h.Plausible(a)
    ensures forall a :: lo <= a < hi ==> h.Done(m, a)
  {
  }

  lemma ScanNothing(h: Heap, size: nat, c: Conf, lo: nat, mid: nat, hi: nat)
    requires h.Valid() && Fits(size, c) && lo <= mid <= hi && forall a :: mid <= a < hi ==> !h.Plausible(a)
    ensures ScanUp(h, size, c, lo, hi) == ScanUp(h, size, c, lo, mid)
    ensures lo == mid ==> ScanUp(h, size, c, lo, hi) == c
  {
    ScanUpTail(h, size, c, lo, mid, hi);
  }

  lemma ImplausiblePassed(h: Heap, size: nat, c: Conf, lo: nat, a: nat)
    requires h.Valid() && Fits(size, c) && lo <= a && !h.Plausible(a)
    ensures ScanUp(h, size, c, lo, a + 1) == ScanUp(h, size, c, lo, a)
  {
    PassedOver(h, size, c, lo, a);
  }

  lemma AdvanceLast(h: Heap, m0: set<nat>, s0: seq<Mse>, m: set<nat>, s: seq<Mse>, d: nat, cur: nat, m': set<nat>,
                    s': seq<Mse>)
    requires Advance(h, m0, s0, m, s + [Mse(d, 1)] + [Mse(cur, 0)])
    requires Advance(h, m, s + [Mse(d, 1)], m', s')
    ensures Advance(h, m0, s0, m', s')
  {
    InFlight(s, d, cur, 0);
    WaitsPush(s, Mse(d, 1));
    assert Advance(h, m, s + [Mse(d, 1)] + [Mse(cur, 0)], m', s');
    AdvanceTrans(h, m0, s0, m, s + [Mse(d, 1)] + [Mse(cur, 0)], m', s');
  }

  lemma CountOne(x: Mse, a: nat)
    ensures Count([x], a) == if x.Has(a) then 1 else 0
  {
    CountPush([], x, a);
    assert [] + [x] == [x];
  }

  lemma CountTwo(x: Mse, y: Mse, a: nat)
    ensures Count([x] + [y], a) == (if x.Has(a) then 1 else 0) + (if y.Has(a) then 1 else 0)
  {
    CountOne(x, a);
    CountPush([x], y, a);
  }

  lemma CountSkip(cur: nat, k: nat, a: nat)
    ensures a != cur + k ==> Count([Mse(cur, k + 1)], a) == Count([Mse(cur, k)], a)
    ensures k == 0 ==> Count([Mse(cur, k)], a) == Count([], a)
  {
    CountOne(Mse(cur, k + 1), a);
    CountOne(Mse(cur, k), a);
  }

  lemma CountDefer(cur: nat, k: nat, a: nat)
    ensures Count([Mse(cur, k + 1)], a) == Count([Mse(cur + k, 1)] + [Mse(cur, k)], a)
  {
    CountOne(Mse(cur, k + 1), a);
    CountTwo(Mse(cur + k, 1), Mse(cur, k), a);
  }

  lemma CountNext(d: nat, cur: nat, k: nat, a: nat)
    requires k > 0
    ensures Count([Mse(d, 1)] + [Mse(cur, k)], a) == Count([Mse(d, 1)] + [Mse(cur + 1, k - 1)] + [Mse(cur, 1)], a)
    ensures a != cur ==> Count([Mse(d, 1)] + [Mse(cur, k)], a) == Count([Mse(d, 1)] + [Mse(cur + 1, k - 1)], a)
  {
    CountTwo(Mse(d, 1), Mse(cur, k), a);
    CountTwo(Mse(d, 1), Mse(cur + 1, k - 1), a);
    CountPush([Mse(d, 1)] + [Mse(cur + 1, k - 1)], Mse(cur, 1), a);
  }

  lemma CountDone(d: nat, cur: nat, a: nat)
    ensures Count([Mse(d, 1)] + [Mse(cur, 0)], a) == Count([] + [Mse(d, 1)], a)
  {
    CountTwo(Mse(d, 1), Mse(cur, 0), a);
    CountPush([], Mse(d, 1), a);
  }

  /** Every marked object among `objs` is scanned or waits. */
  ghost predicate AllScanned(h: Heap, m: set<nat>, s: seq<Mse>, objs: seq<nat>) {
    forall o :: o in objs && o in m ==> o in h.descr && h.Scanned(m, s, o)
  }

  lemma AdvanceScanned(h: Heap, m: set<nat>, s: seq<Mse>, m': set<nat>, s': seq<Mse>, objs: seq<nat>)
    requires AllScanned(h, m, s, objs) && Advance(h, m, s, m', s')
    ensures AllScanned(h, m', s', objs)
  {
    forall o | o in objs && o in m ensures h.Scanned(m', s', o) {
      AdvanceRange(h, m, s, m', s', o, h.descr[o]);
    }
  }

  ghost predicate ScannedUpTo(h: Heap, m: set<nat>, s: seq<Mse>, objs: seq<nat>, k: nat) {
    k <= |objs| && AllScanned(h, m, s, objs[..k])
  }

  lemma NoneScanned(h: Heap, m: set<nat>, s: seq<Mse>, objs: seq<nat>)
    ensures ScannedUpTo(h, m, s, objs, 0)
  {
  }

  lemma EveryScanned(h: Heap, m: set<nat>, s: seq<Mse>, objs: seq<nat>)
    ensures ScannedUpTo(h, m, s, objs, |objs|) ==> AllScanned(h, m, s, objs)
  {
    assert objs[..|objs|] == objs;
  }

  lemma BlockFacts(h: Heap, m: set<nat>, s: seq<Mse>, b: Block)
    requires h.Valid() && b in h.blocks
    ensures |b.objs| <= MAX_OBJS_PER_BLOCK
    ensures forall k :: 0 <= k < |b.objs| ==> b.objs[k] in h.descr && h.descr[b.objs[k]] == b.descr
    ensures b.descr == 0 || (forall o | o in b.objs :: o !in m) ==> AllScanned(h, m, s, b.objs)
  {
    var i :| 0 <= i < |h.blocks| && h.blocks[i] == b;
    assert h.ValidBlock(b);
    forall k | 0 <= k < |b.objs| ensures b.objs[k] in h.descr && h.descr[b.objs[k]] == b.descr {
      assert b.objs[k] in b.objs;
    }
  }

  lemma AdvancePush(h: Heap, m: set<nat>, s: seq<Mse>, o: nat)
    requires m <= h.descr.Keys && o in h.descr && h.descr[o] != 0
    ensures Advance(h, m, s, m, s + [Mse(o, h.descr[o])])
    ensures h.Scanned(m, s + [Mse(o, h.descr[o])], o)
  {
    WaitsPush(s, Mse(o, h.descr[o]));
  }

  lemma AdvanceNext(h: Heap, m: set<nat>, s: seq<Mse>, m': set<nat>, s': seq<Mse>, start: nat, a: nat)
    requires start <= a && h.RangeDone(m, s, start, a - start)
    requires Advance(h, m, s + [Mse(a, 1)], m', s')
    ensures Advance(h, m, s, m', s') && h.RangeDone(m', s', start, a + 1 - start)
  {
    WaitsPush(s, Mse(a, 1));
    AdvanceRange(h, m, s, m', s', start, a - start);
    assert Waits(s + [Mse(a, 1)], a);
  }

  /** A range that may stand on the stack when nothing outside `just` may be marked. */
  ghost predicate EntryOk(h: Heap, just: set<nat>, e: Mse) {
    && 1 <= e.len
    && e.start + e.len <= |h.mem|
    && forall a {:trigger h.Done(just, a)} :: e.Has(a) ==> h.Done(just, a)
  }

  lemma ObjectEntryOk(h: Heap, just: set<nat>, o: nat)
    requires h.Valid() && h.Closed(just) && o in just
    ensures h.descr[o] != 0 ==> EntryOk(h, just, Mse(o, h.descr[o]))
  {
    assert h.Scanned(just, [], o);
  }

  lemma CountAfterPush(s: seq<Mse>, size: nat, e: Mse, a: nat)
    requires MARK_STACK_DISCARDS <= size && |s| <= size
    ensures Count(AfterDiscard(s, size), a) <= Count(s, a)
    ensures Count(AfterDiscard(s, size) + [e], a) == Count(AfterDiscard(s, size), a) + if e.Has(a) then 1 else 0
  {
    CountPush(AfterDiscard(s, size), e, a);
    if |s| == size { CountPrefix(s, size - MARK_STACK_DISCARDS, a); }
  }

  /** Taking the topmost range, or its first part, moves words from the stack into flight. */
  lemma TakePartFacts(h: Heap, just: set<nat>, m: set<nat>, s: seq<Mse>, s': seq<Mse>, cur: nat, n: nat, a: nat)
    requires m <= h.descr.Keys
    requires s != [] && forall k :: 0 <= k < |s| ==> EntryOk(h, just, s[k])
    requires var e := s[|s| - 1]; cur == e.start && n == PartLen(e) && s' == Rest(s)
    ensures n >= 1 && EntryOk(h, just, Mse(cur, n)) && Count([], a) == 0
    ensures forall k :: 0 <= k < |s'| ==> EntryOk(h, just, s'[k])
    ensures Count(s, a) == Count(s', a) + Count([Mse(cur, n)], a)
    ensures Work(s') < Work(s)
    ensures Advance(h, m, s, m, s' + [Mse(cur, n)])
  {
    PartCounts(s, a);
    PartWaits(s);
    var e, below := s[|s| - 1], s[..|s| - 1];
    assert s == below + [e] && EntryOk(h, just, e);
    WaitsPush(s', Mse(cur, n));
    hide Waits, Count, Work;
  }

  lemma PartCounts(s: seq<Mse>, a: nat)
    requires s != [] && s[|s| - 1].len >= 1
    ensures var e := s[|s| - 1]; Count(s, a) == Count(Rest(s), a) + Count([Mse(e.start, PartLen(e))], a)
    ensures Work(Rest(s)) < Work(s) && Count([], a) == 0
  {
    var e, below := s[|s| - 1], s[..|s| - 1];
    var rest := Mse(e.start + PartLen(e), e.len - PartLen(e));
    assert s == below + [e];
    CountPush(below, e, a);
    WorkPush(below, e);
    CountOne(Mse(e.start, PartLen(e)), a);
    CountPush(below, rest, a);
    WorkPush(below, rest);
  }

  lemma PartWaits(s: seq<Mse>)
    requires s != [] && s[|s| - 1].len >= 1
    ensures var e := s[|s| - 1];
      forall a: nat :: Waits(s, a) ==> Waits(Rest(s), a) || Mse(e.start, PartLen(e)).Has(a)
  {
    var e, below := s[|s| - 1], s[..|s| - 1];
    assert s == below + [e];
    WaitsPush(below, e);
    WaitsPush(below, Mse(e.start + PartLen(e), e.len - PartLen(e)));
  }

  // ---------------------------------------------------------------- root ranges

  /** The range takes an entry of the mark stack. */
  predicate IsPushed(r: Root) {
    !r.eager && r.len > 0
  }

  function Pushed(roots: seq<Root>): nat {
    if roots == [] then 0 else Pushed(roots[..|roots| - 1]) + if IsPushed(roots[|roots| - 1]) then 1 else 0
  }

  /** Ranges that are pushed come before those from which marking starts at once. */
  ghost predicate PushedFirst(roots: seq<Root>) {
    forall i, j :: 0 <= i < j < |roots| && IsPushed(roots[j]) ==> !roots[i].eager || roots[i].len == 0
  }

  /** Pushing the ranges onto a stack of that size that is at most a quarter full fits. */
  ghost predicate FewPushed(roots: seq<Root>, size: nat) {
    PushedFirst(roots) && Pushed(roots) <= size - size / 4
  }

  lemma FewerPushed(roots: seq<Root>, size: nat, size': nat)
    requires FewPushed(roots, size) && size <= size'
    ensures FewPushed(roots, size')
  {
  }

  lemma PushedNone(roots: seq<Root>)
    ensures Pushed(roots[..0]) == 0
  {
  }

  lemma PushedNext(roots: seq<Root>, k: nat)
    requires k < |roots|
    ensures Pushed(roots[..k + 1]) == Pushed(roots[..k]) + if IsPushed(roots[k]) then 1 else 0
  {
    assert roots[..k + 1][..k] == roots[..k];
  }

  lemma {:induction false} PushedMore(roots: seq<Root>, k: nat)
    requires k <= |roots|
    ensures Pushed(roots[..k]) <= Pushed(roots)
    decreases |roots| - k
  {
    if k == |roots| {
      assert roots[..k] == roots;
    } else {
      PushedNext(roots, k);
      PushedMore(roots, k + 1);
    }
  }

  /** Beyond an eager range nothing is pushed. */
  lemma {:induction false} PushedAll(roots: seq<Root>, i: nat, k: nat)
    requires PushedFirst(roots) && i < k <= |roots| && roots[i].eager && roots[i].len > 0
    ensures Pushed(roots[..k]) == Pushed(roots)
    decreases |roots| - k
  {
    if k == |roots| {
      assert roots[..k] == roots;
    } else {
      PushedNext(roots, k);
      PushedAll(roots, i, k + 1);
    }
  }

  /** Ranges to be pushed that come first are too many exactly if they exceed the room left. */
  lemma {:induction false} FullFirst(h: Heap, size: nat, c: Conf, k: nat)
    requires PushedFirst(h.roots) && Fits(size, c) && k <= |h.roots|
    ensures Pushed(h.roots[..k]) <= Pushed(h.roots)
    ensures PushFrom(h, size, c, k).Full? <==> |c.entries| + Pushed(h.roots) - Pushed(h.roots[..k]) > size
    decreases |h.roots| - k
  {
    hide PushedFirst, Pushed, ScanUp;
    PushedMore(h.roots, k);
    if k == |h.roots| {
      assert h.roots[..k] == h.roots;
    } else {
      PushedNext(h.roots, k);
      var p, r := PushOne(h, size, c, h.roots[k]), h.roots[k];
      PushedMore(h.roots, k + 1);
      if p.Went? { FullFirst(h, size, p.c, k + 1); }
      if r.eager && r.len > 0 { PushedAll(h.roots, k, k + 1); }
      if r.eager && r.len == 0 { ScanUpNone(h, size, c, r.start); }
    }
  }

  /** The roots do not fit on an unused stack. */
  lemma FullExactly(h: Heap, size: nat, m: set<nat>)
    requires PushedFirst(h.roots) && MARK_STACK_DISCARDS <= size
    ensures RootsFull(h, size, m, []) <==> Pushed(h.roots) > size
  {
    hide PushedFirst;
    PushedNone(h.roots);
    FullFirst(h, size, Conf(m, [], false), 0);
  }

  ghost predicate RangesDone(h: Heap, m: set<nat>, s: seq<Mse>, k: nat) {
    forall i :: 0 <= i < k && i < |h.roots| ==> h.RangeDone(m, s, h.roots[i].start, h.roots[i].len)
  }

  lemma RangesNext(h: Heap, m: set<nat>, s: seq<Mse>, m': set<nat>, s': seq<Mse>, k: nat)
    requires RangesDone(h, m, s, k) && Advance(h, m, s, m', s') && k < |h.roots|
    requires h.RangeDone(m', s', h.roots[k].start, h.roots[k].len)
    ensures RangesDone(h, m', s', k + 1)
  {
    forall i | 0 <= i < k ensures h.RangeDone(m', s', h.roots[i].start, h.roots[i].len) {
      AdvanceRange(h, m, s, m', s', h.roots[i].start, h.roots[i].len);
    }
  }

  lemma AllRanges(h: Heap, m: set<nat>, s: seq<Mse>)
    ensures RangesDone(h, m, s, |h.roots|) ==> h.RootsDone(m, s)
  {
  }

  // ---------------------------------------------------------------- mark states

  /** The blocks whose marked objects are known to be scanned or to wait. */
  ghost predicate Visited(st: MarkState, scan: nat, b: Block) {
    match st
    case None => true
    case RootsPushed => true
    case PushUncollectable => b.kind != Uncollectable || b.start < scan
    case PartiallyInvalid => b.start < scan
    case Invalid => false
  }

  /** What a mark state promises about marks `m` and waiting ranges `s`. */
  ghost predicate PhaseOk(h: Heap, st: MarkState, scan: nat, m: set<nat>, s: seq<Mse>) {
    && (forall b :: b in h.blocks && Visited(st, scan, b) ==> AllScanned(h, m, s, b.objs))
    && (st == None || st == RootsPushed ==> h.RootsDone(m, s))
  }

  lemma PhaseAdvance(h: Heap, st: MarkState, scan: nat, m: set<nat>, s: seq<Mse>, m': set<nat>, s': seq<Mse>)
    requires PhaseOk(h, st, scan, m, s) && Advance(h, m, s, m', s')
    ensures PhaseOk(h, st, scan, m', s')
  {
    forall b | b in h.blocks && Visited(st, scan, b) ensures AllScanned(h, m', s', b.objs) {
      AdvanceScanned(h, m, s, m', s', b.objs);
    }
    if st == None || st == RootsPushed {
      forall i | 0 <= i < |h.roots| ensures h.RangeDone(m', s', h.roots[i].start, h.roots[i].len) {
        AdvanceRange(h, m, s, m', s', h.roots[i].start, h.roots[i].len);
      }
    }
  }

  lemma NoneOk(h: Heap, scan: nat, m: set<nat>, s: seq<Mse>)
    requires PhaseOk(h, RootsPushed, scan, m, s)
    ensures PhaseOk(h, None, scan, m, s)
  {
  }

  lemma ClosedPhase(h: Heap, scan: nat, m: set<nat>)
    requires h.Valid() && h.Closed(m) && h.RootsDone(m, [])
    ensures PhaseOk(h, None, scan, m, [])
  {
    forall b | b in h.blocks ensures AllScanned(h, m, [], b.objs) {
      forall o | o in b.objs && o in m ensures h.Scanned(m, [], o) {}
    }
  }

  lemma PartialOk(h: Heap, m: set<nat>, s: seq<Mse>)
    ensures PhaseOk(h, PartiallyInvalid, 0, m, s)
  {
  }

  lemma InvalidOk(h: Heap, scan: nat, m: set<nat>, s: seq<Mse>)
    ensures PhaseOk(h, Invalid, scan, m, s)
  {
  }

  /** Only objects of uncollectable blocks are marked. */
  ghost predicate OnlyUncollectable(h: Heap, m: set<nat>) {
    forall b, o :: b in h.blocks && o in b.objs && o in m ==> IsUncollectable(b.kind)
  }

  lemma StartUncollectable(h: Heap, m: set<nat>)
    requires h.Valid() && OnlyUncollectable(h, m)
    ensures PhaseOk(h, PushUncollectable, 0, m, [])
  {
    forall b | b in h.blocks && Visited(PushUncollectable, 0, b) ensures AllScanned(h, m, [], b.objs) {
      BlockFacts(h, m, [], b);
      if b.descr != 0 { assert h.ValidBlock(b); }
    }
  }

  ghost predicate IsNextUncollectable(h: Heap, scan: nat, i: nat) {
    && i < |h.blocks|
    && scan <= h.blocks[i].start
    && h.blocks[i].kind == Uncollectable
    && forall k :: 0 <= k < i ==> h.blocks[k].start < scan || h.blocks[k].kind != Uncollectable
  }

  /** The block at index `i` is the next one at or above `scan`, and it has been pushed. */
  lemma ScanAdvance(h: Heap, st: MarkState, scan: nat, i: nat, m: set<nat>, s: seq<Mse>)
    requires h.Valid() && (st == PartiallyInvalid || st == PushUncollectable)
    requires i < |h.blocks| && scan <= h.blocks[i].start
    requires forall k :: 0 <= k < i ==>
      h.blocks[k].start < scan || (st == PushUncollectable && h.blocks[k].kind != Uncollectable)
    requires PhaseOk(h, st, scan, m, s) && AllScanned(h, m, s, h.blocks[i].objs)
    ensures PhaseOk(h, st, h.blocks[i].start + h.blocks[i].length, m, s)
  {
    var scan' := h.blocks[i].start + h.blocks[i].length;
    forall b | b in h.blocks && Visited(st, scan', b) ensures AllScanned(h, m, s, b.objs) {
      var k :| 0 <= k < |h.blocks| && h.blocks[k] == b;
      if k > i { assert scan' <= b.start; }
    }
  }

  /** Every block lies below the scan position, so every marked object is accounted for. */
  lemma ScanComplete(h: Heap, st: MarkState, scan: nat, m: set<nat>, s: seq<Mse>)
    requires h.Valid() && (st == PartiallyInvalid || st == PushUncollectable)
    requires forall b :: b in h.blocks ==> b.start < scan || (st == PushUncollectable && b.kind != Uncollectable)
    requires PhaseOk(h, st, scan, m, s)
    requires h.RootsDone(m, s)
    ensures PhaseOk(h, RootsPushed, 0, m, s)
  {
    forall b | b in h.blocks ensures AllScanned(h, m, s, b.objs) {
      assert Visited(st, scan, b);
    }
  }

  /** Nothing waits in a state that has pushed the roots: the marks are closed. */
  lemma MarksClosed(h: Heap, st: MarkState, scan: nat, m: set<nat>)
    requires h.Valid() && m <= h.descr.Keys && PhaseOk(h, st, scan, m, []) && (st == RootsPushed || st == None)
    ensures h.Closed(m) && h.RootsDone(m, [])
  {
    forall o | o in m ensures h.Scanned(m, [], o) {
      var i :| 0 <= i < |h.blocks| && o in h.blocks[i].objs;
      assert AllScanned(h, m, [], h.blocks[i].objs);
    }
  }

  datatype Outcome = Completed | Abandoned | StackTooSmall

  /** The roots are too many for a stack at least that large in some state of the marks. */
  ghost predicate FullSomewhere(h: Heap, size: nat) {
    exists size': nat, m, s :: size <= size' && RootsFull(h, size', m, s)
  }

  lemma FullThen(h: Heap, size: nat, size': nat, m: set<nat>, s: seq<Mse>)
    requires size <= size' && RootsFull(h, size', m, s)
    ensures FullSomewhere(h, size)
  {
  }

  /** How a collection that keeps no marks ends: it completes only if the roots fit on the
      unused stack, and fails only if they do not, when those to be pushed come first. */
  ghost predicate StartedUnmarked(h: Heap, size: nat, r: Outcome) {
    && (r == Completed ==> !RootsFull(h, size, {}, []))
    && (PushedFirst(h.roots) ==>
         (r == Completed ==> Pushed(h.roots) <= size) && (r == StackTooSmall ==> Pushed(h.roots) > size))
  }

  lemma StartAborts(h: Heap, size: nat, size': nat, m: set<nat>, s: seq<Mse>, starting: bool)
    requires RootsFull(h, size', m, s) && INITIAL_MARK_STACK_SIZE <= size <= size'
    requires if starting then m == {} && s == [] && size' == size else s == []
    ensures StartedUnmarked(h, size, StackTooSmall)
  {
    if PushedFirst(h.roots) { FullExactly(h, size', m); }
  }

  /** When it does not give up, either of the two. */
  lemma StartedFirst(h: Heap, size: nat, r: Outcome)
    requires StartedUnmarked(h, size, r) && PushedFirst(h.roots) && r != Abandoned
    ensures r == Completed <==> Pushed(h.roots) <= size
  {
  }

  lemma StartAbandoned(h: Heap, size: nat)
    ensures StartedUnmarked(h, size, Abandoned)
  {
  }

  lemma StartCompletes(h: Heap, size: nat)
    requires !RootsFull(h, size, {}, []) && INITIAL_MARK_STACK_SIZE <= size
    ensures StartedUnmarked(h, size, Completed)
  {
    if PushedFirst(h.roots) { FullExactly(h, size, {}); }
  }

  /** The marks that GC_clear_marks leaves: those in uncollectable blocks. */
  function Kept(h: Heap, m: set<nat>): set<nat> {
    set o | o in m && exists b :: b in h.blocks && o in b.objs && IsUncollectable(b.kind)
  }

  lemma StartFacts(h: Heap, m: set<nat>, a: nat)
    requires h.Valid() && m <= h.descr.Keys
    ensures var just := h.LiveSet(Kept(h, m));
      h.Closed(just) && h.RootsDone(just, []) && Kept(h, m) <= just <= h.descr.Keys
    ensures OnlyUncollectable(h, Kept(h, m)) && PhaseOk(h, Invalid, 0, Kept(h, m), []) && Count([], a) == 0
  {
    h.LiveSetClosed(Kept(h, m));
    ClearedPhase(h, m);
    hide PhaseOk;
    forall o | o in Kept(h, m) ensures h.Live(Kept(h, m), o) {
      h.ReachRefl(o);
    }
  }

  lemma ClearedPhase(h: Heap, m: set<nat>)
    requires h.Valid()
    ensures PhaseOk(h, Invalid, 0, Kept(h, m), [])
  {
    hide Kept, AllScanned, Heap.Valid;
    assert forall b :: !Visited(Invalid, 0, b);
  }

  lemma LiveObjects(h: Heap, from: set<nat>)
    ensures h.LiveSet(from) <= h.descr.Keys
  {
  }

  /** What is marked when marking from `o` has ended, before a recovery. */
  lemma OnwardMarked(h: Heap, size: nat, m: set<nat>, o: nat, m': set<nat>, overflow: bool)
    requires h.Valid() && m <= h.descr.Keys && o in h.descr && MARK_STACK_DISCARDS <= size
    requires Conf(m', [], overflow) == Run(h, size, Conf(m, OwnRange(h, o), false))
    requires !overflow ==> Advance(h, m, OwnRange(h, o), m', [])
    ensures overflow <==> Overruns(h, size, m, o)
    ensures overflow ==> size <= |h.Onward(m, o) - m|
    ensures !overflow ==> m' == m + h.Onward(m, o)
  {
    hide Heap.Valid, Heap.Onward, Run, Heap.RangeDone;
    var s := m + h.Onward(m, o);
    h.OnwardDone(m, o);
    RunStaysInside(h, size, m, s, Conf(m, OwnRange(h, o), false));
    if overflow {
      OverrunsNeed(h, size, m, o, h.Onward(m, o));
    } else {
      OwnRangeDone(h, m, o, m');
      h.OnwardStaysInside(m, o, m');
    }
  }

  lemma OwnRangeDone(h: Heap, m: set<nat>, o: nat, m': set<nat>)
    requires o in h.descr && Advance(h, m, OwnRange(h, o), m', [])
    ensures h.RangeDone(m', [], o, h.descr[o])
  {
    if h.descr[o] != 0 {
      var e := Mse(o, h.descr[o]);
      assert OwnRange(h, o) == [] + [e];
      WaitsPush([], e);
    }
  }

  /** The same for closed marks. */
  lemma FromClosed(h: Heap, m: set<nat>, o: nat)
    requires h.Valid() && h.Closed(m) && h.RootsDone(m, []) && o in h.descr
    ensures m + h.Onward(m, o) == m + h.Descendants(o) && h.Onward(m, o) - m == h.Descendants(o) - m
    ensures h.LiveSet(m + {o}) == m + h.Descendants(o) + {o}
    ensures h.Closed(m + h.Descendants(o)) && h.RootsDone(m + h.Descendants(o), [])
  {
    h.OnwardFromClosed(m, o);
    h.LiveWith(m, o);
    h.DescendantsClosed(m, o);
    hide Heap.Valid, Heap.Closed, Heap.Onward, Heap.Descendants, Heap.LiveSet;
    var d := m + h.Descendants(o);
    SameMinus(m, h.Onward(m, o), h.Descendants(o));
    forall i | 0 <= i < |h.roots| ensures h.RangeDone(d, [], h.roots[i].start, h.roots[i].len) {
      h.RangeDoneMore(m, d, h.roots[i].start, h.roots[i].len);
    }
  }

  lemma ClosedObjects(h: Heap, m: set<nat>)
    requires h.Closed(m)
    ensures m <= h.descr.Keys
  {
  }

  lemma ClosedMember(h: Heap, m: set<nat>, o: nat)
    requires h.Closed(m) && o in m
    ensures h.RangeDone(m, [], o, h.descr[o])
  {
    assert h.Scanned(m, [], o);
  }

  lemma CountNone(a: nat)
    ensures Count([], a) == 0
  {
  }

  /** The mark stack: a buffer and the index of its topmost entry. */
  class MarkStack {
    var buf: array<Mse>
    var top: int
    ghost var entries: seq<Mse>

    ghost predicate Valid()
      reads this, buf
    {
      && -1 <= top < buf.Length
      && INITIAL_MARK_STACK_SIZE <= buf.Length
      && entries == buf[..top + 1]
    }

    constructor ()
      ensures Valid() && fresh(buf) && entries == [] && buf.Length == INITIAL_MARK_STACK_SIZE
    {
      buf := new Mse[INITIAL_MARK_STACK_SIZE](_ => Mse(0, 1));
      top := -1;
      entries := [];
    }

    method Push(e: Mse) returns (overflow: bool)
      requires Valid()
      modifies this, buf
      ensures Valid() && buf == old(buf)
      ensures overflow == (|old(entries)| == buf.Length)
      ensures entries == AfterDiscard(old(entries), buf.Length) + [e]
    {
      overflow := false;
      top := top + 1;
      if top >= buf.Length {
        overflow := true;
        top := top - MARK_STACK_DISCARDS;
      }
      buf[top] := e;
      entries := AfterDiscard(entries, buf.Length) + [e];
    }

    /** Take the topmost range, or only its first part when it is long. */
    method TakePart() returns (cur: nat, n: nat)
      requires Valid() && entries != []
      modifies this, buf
      ensures Valid() && buf == old(buf)
      ensures var e := old(entries)[|old(entries)| - 1]; cur == e.start && n == PartLen(e)
      ensures entries == Rest(old(entries))
    {
      cur := buf[top].start;
      n := buf[top].len;
      if n >= SPLIT_RANGE_WORDS {
        n := SPLIT_RANGE_WORDS - 1;
        buf[top] := Mse(cur + n, buf[top].len - n);
        entries := buf[..top + 1];
      } else {
        top := top - 1;
        entries := buf[..top + 1];
      }
    }

    method IsEmpty() returns (r: bool)
      requires Valid()
      ensures r == (entries == [])
    {
      r := top < 0;
    }

    /** Whether a quarter of the buffer is in use. */
    method QuarterFull() returns (r: bool)
      requires Valid()
      ensures r == (|entries| > buf.Length / 4)
    {
      r := top >= buf.Length / 4;
    }

    method IsFull() returns (r: bool)
      requires Valid()
      ensures r == (|entries| == buf.Length)
    {
      r := top + 1 >= buf.Length;
    }

    method Clear()
      requires Valid()
      modifies this
      ensures Valid() && buf == old(buf) && entries == []
    {
      top := -1;
      entries := [];
    }

    /** Replace the buffer by one twice the size, unless that memory is not to be had. */
    method Grow(available: bool)
      requires Valid()
      modifies this
      ensures Valid() && entries == []
      ensures if available then fresh(buf) && buf.Length == 2 * old(buf.Length) else buf == old(buf)
    {
      if available {
        buf := new Mse[2 * buf.Length](_ => Mse(0, 1));
      }
      top := -1;
      entries := [];
    }
  }

  class Marker {
    const ms: MarkStack
    var h: Heap
    var state: MarkState
    var scanPtr: nat             // block number, 0 for none
    var objectsMarked: bool
    var tooSmall: bool
    var marked: set<nat>

    // An upper bound on what may ever be marked.
    ghost var just: set<nat>
    // How often the arbitrary address `watch` was stacked, considered, and discarded by
    // an overflow or a flush.
    ghost const watch: nat
    ghost var pushed: nat
    ghost var considered: nat
    ghost var dropped: nat

    constructor (heap: Heap, ghost address: nat)
      requires heap.Valid()
      ensures h == heap && watch == address && fresh(ms) && fresh(ms.buf)
      ensures Core() && Balanced([])
      ensures state == None && marked == {} && !tooSmall && ms.entries == [] && ms.buf.Length == INITIAL_MARK_STACK_SIZE
    {
      h := heap;
      ms := new MarkStack();
      state := None;
      scanPtr := 0;
      objectsMarked, tooSmall := false, false;
      marked, just := {}, {};
      watch := address;
      pushed, considered, dropped := 0, 0, 0;
    }

    /** What every operation keeps, whatever the mark state. */
    ghost predicate Core()
      reads this`h, this`marked, this`just, ms, ms.buf
    {
      && ms.Valid()
      && h.Valid()
      && h.Closed(just)
      && marked <= just <= h.descr.Keys
      && (forall k :: 0 <= k < |ms.entries| ==> EntryOk(h, just, ms.entries[k]))
    }

    ghost function Now(): Snap
      reads this`marked, this`state, this`tooSmall, this`dropped, ms
    {
      Snap(marked, ms.entries, state, tooSmall, dropped)
    }

    /** Each time the watched address was put on the stack it was since considered, or
        dropped, or it waits, or it is among `inFlight`. */
    ghost predicate Balanced(inFlight: seq<Mse>)
      reads this`h, this`pushed, this`considered, this`dropped, ms
    {
      h.Plausible(watch) ==>
        pushed == considered + dropped + Count(ms.entries, watch) + Count(inFlight, watch)
    }

    // ------------------------------------------------------------ pushing

    /** PUSH_OBJ: stack the scanned part of `o`; on overflow discard entries. */
    method PushObj(o: nat, ghost inFlight: seq<Mse>) returns (overflow: bool)
      requires Core() && Balanced(inFlight)
      requires o in h.descr && (h.descr[o] != 0 ==> EntryOk(h, just, Mse(o, h.descr[o])))
      modifies this`state, this`tooSmall, this`pushed, this`dropped, ms, ms.buf
      ensures Core() && Balanced(inFlight) && ms.buf == old(ms.buf)
      ensures overflow <==> h.descr[o] != 0 && |old(ms.entries)| == ms.buf.Length
      ensures state == if overflow then Invalid else old(state)
      ensures tooSmall == (old(tooSmall) || overflow)
      ensures !overflow ==> dropped == old(dropped)
      ensures !overflow ==>
        ms.entries == old(ms.entries) + if h.descr[o] == 0 then [] else [Mse(o, h.descr[o])]
      ensures ms.entries == if h.descr[o] == 0 then old(ms.entries)
                            else AfterDiscard(old(ms.entries), ms.buf.Length) + [Mse(o, h.descr[o])]
    {
      hide Heap.Closed, EntryOk, Count, Heap.Valid, MarkStack.Valid;
      overflow := false;
      if h.descr[o] != 0 {
        CoreFacts();
        var e := Mse(o, h.descr[o]);
        CountAfterPush(ms.entries, ms.buf.Length, e, watch);
        dropped := dropped + Count(ms.entries, watch) - Count(AfterDiscard(ms.entries, ms.buf.Length), watch);
        overflow := ms.Push(e);
        if overflow {
          state := Invalid;
          tooSmall := true;
        }
        pushed := pushed + if e.Has(watch) then 1 else 0;
      }
    }

    /** PUSH_CONTENTS: consider the word at `a`; mark and push what it designates. */
    method PushContents(a: nat, ghost inFlight: seq<Mse>) returns (overflow: bool)
      requires Core() && h.Plausible(a) && h.Done(just, a)
      requires Balanced(inFlight + [Mse(a, 1)])
      modifies this`state, this`tooSmall, this`marked, this`pushed, this`considered, this`dropped, ms, ms.buf
      ensures Core() && Balanced(inFlight) && ms.buf == old(ms.buf)
      ensures old(marked) <= marked && (overflow ==> old(marked) < marked)
      ensures state == if overflow then Invalid else old(state)
      ensures !overflow ==> dropped == old(dropped)
      ensures !overflow ==> Advance(h, old(marked), old(ms.entries) + [Mse(a, 1)], marked, ms.entries)
      ensures !overflow && marked == old(marked) ==> ms.entries == old(ms.entries)
      ensures tooSmall == (old(tooSmall) || overflow)
      ensures Conf(marked, ms.entries, overflow) ==
        Consider(h, ms.buf.Length, Conf(old(marked), old(ms.entries), false), a)
    {
      hide Heap.Closed, EntryOk, Count, Advance, Heap.Valid;
      overflow := false;
      CountPush(inFlight, Mse(a, 1), watch);
      considered := considered + if a == watch then 1 else 0;
      if a !in h.target || h.target[a] in marked {
        AdvanceDone(h, marked, ms.entries, a);
        return;
      }
      var t := h.target[a];
      TargetIsObject(h, a);
      marked := marked + {t};
      ObjectEntryOk(h, just, t);
      overflow := PushObj(t, inFlight);
      if !overflow {
        AdvanceMark(h, old(marked), old(ms.entries), a);
      }
    }

    /** Scan the words of `[start, start + n)`: skip implausible words at the far end,
        defer the last plausible one, consider the rest upwards and then the deferred. */
    method ScanRange(start: nat, n: nat) returns (overflow: bool)
      requires Core() && n >= 1 && EntryOk(h, just, Mse(start, n)) && Balanced([Mse(start, n)])
      modifies this`state, this`tooSmall, this`marked, this`pushed, this`considered, this`dropped, ms, ms.buf
      ensures Core() && Balanced([]) && ms.buf == old(ms.buf)
      ensures old(marked) <= marked && (overflow ==> old(marked) < marked)
      ensures state == if overflow then Invalid else old(state)
      ensures !overflow ==> dropped == old(dropped)
      ensures !overflow ==> Advance(h, old(marked), old(ms.entries) + [Mse(start, n)], marked, ms.entries)
      ensures !overflow && marked == old(marked) ==> ms.entries == old(ms.entries)
      ensures tooSmall == (old(tooSmall) || overflow)
      ensures Conf(marked, ms.entries, overflow) ==
        ScanUp(h, ms.buf.Length, Conf(old(marked), old(ms.entries), false), start, start + n)
    {
      hide Heap.Closed, Count, Advance, Heap.Valid, ScanUp, Consider;
      overflow := false;
      ghost var m0, s0 := marked, ms.entries;
      ghost var size, c0 := ms.buf.Length, Conf(marked, ms.entries, false);
      var limit: int := start + n - 1;
      var deferred: nat;
      while true
        invariant start <= limit < start + n
        invariant forall a :: limit < a < start + n ==> !h.Plausible(a)
        invariant Balanced([Mse(start, limit + 1 - start)])
        modifies {}
        decreases limit
      {
        deferred := limit;
        limit := limit - 1;
        if h.Plausible(deferred) { break; }
        CountSkip(start, deferred - start, watch);
        if start > limit {
          AdvanceSkip(h, m0, s0, start, 0, n);
          ScanNothing(h, size, c0, start, start, start + n);
          return;
        }
      }
      CountDefer(start, deferred - start, watch);
      overflow := ScanForward(start, n, deferred);
    }

    /** The words up to the one deferred are considered upwards, and then that one. */
    method ScanForward(start: nat, n: nat, deferred: nat) returns (overflow: bool)
      requires Core() && start <= deferred < start + n && EntryOk(h, just, Mse(start, n)) && h.Plausible(deferred)
      requires forall a :: deferred < a < start + n ==> !h.Plausible(a)
      requires Balanced([Mse(deferred, 1)] + [Mse(start, deferred - start)])
      modifies this`state, this`tooSmall, this`marked, this`pushed, this`considered, this`dropped, ms, ms.buf
      ensures Core() && Balanced([]) && ms.buf == old(ms.buf)
      ensures old(marked) <= marked && (overflow ==> old(marked) < marked)
      ensures state == if overflow then Invalid else old(state)
      ensures !overflow ==> dropped == old(dropped)
      ensures !overflow ==> Advance(h, old(marked), old(ms.entries) + [Mse(start, n)], marked, ms.entries)
      ensures !overflow && marked == old(marked) ==> ms.entries == old(ms.entries)
      ensures tooSmall == (old(tooSmall) || overflow)
      ensures Conf(marked, ms.entries, overflow) ==
        ScanUp(h, ms.buf.Length, Conf(old(marked), old(ms.entries), false), start, start + n)
    {
      hide Heap.Closed, Count, Advance, Heap.Valid, ScanUp, Consider;
      overflow := false;
      ghost var m0, s0 := marked, ms.entries;
      ghost var size, c0 := ms.buf.Length, Conf(marked, ms.entries, false);
      AdvanceSkip(h, m0, s0, start, deferred + 1 - start, n);
      ScanNothing(h, size, c0, start, deferred + 1, start + n);
      var cur, limit := start, deferred - 1;
      ScanUpNone(h, size, c0, start);
      while cur <= limit
        invariant start <= cur <= limit + 1 && limit + 1 == deferred < start + n
        invariant Core() && ms.buf == old(ms.buf)
        invariant Balanced([Mse(deferred, 1)] + [Mse(cur, limit + 1 - cur)])
        invariant m0 <= marked && (overflow ==> m0 < marked)
        invariant state == if overflow then Invalid else old(state)
        invariant !overflow ==> dropped == old(dropped)
        invariant !overflow ==>
          Advance(h, m0, s0 + [Mse(start, n)], marked, ms.entries + [Mse(deferred, 1)] + [Mse(cur, limit + 1 - cur)])
        invariant !overflow && marked == m0 ==> ms.entries == s0
        invariant tooSmall == (old(tooSmall) || overflow)
        invariant Conf(marked, ms.entries, overflow) == ScanUp(h, size, c0, start, cur)
      {
        ghost var c := Conf(marked, ms.entries, overflow);
        ghost var m, s, k := marked, ms.entries, limit + 1 - cur;
        CountNext(deferred, cur, k, watch);
        var ov := false;
        if h.Plausible(cur) {
          ov := PushContents(cur, [Mse(deferred, 1)] + [Mse(cur + 1, k - 1)]);
          Considered(h, size, c0, start, cur, c, Conf(marked, ms.entries, ov));
        } else {
          ImplausibleDone(h, marked, ms.entries, cur);
          ImplausiblePassed(h, size, c0, start, cur);
        }
        overflow := overflow || ov;
        if !overflow {
          AdvanceOne(h, m0, s0 + [Mse(start, n)], m, s, deferred, cur, k, marked, ms.entries);
        }
        cur := cur + 1;
      }
      CountDone(deferred, cur, watch);
      ghost var m, s, c := marked, ms.entries, Conf(marked, ms.entries, overflow);
      var ov := PushContents(deferred, []);
      Considered(h, size, c0, start, deferred, c, Conf(marked, ms.entries, ov));
      overflow := overflow || ov;
      if !overflow {
        AdvanceLast(h, m0, s0 + [Mse(start, n)], m, s, deferred, cur, marked, ms.entries);
      }
    }

    /** GC_mark_from: work the stack down until it is empty or the credit is used up. */
    method MarkFrom() returns (overflow: bool)
      requires Core() && Balanced([])
      modifies this`state, this`tooSmall, this`objectsMarked, this`marked,
        this`pushed, this`considered, this`dropped, ms, ms.buf
      ensures Core() && Balanced([]) && ms.buf == old(ms.buf) && objectsMarked
      ensures Moved(h, old(Now()), Now(), overflow)
      ensures marked == old(marked) && old(ms.entries) != [] ==> Work(ms.entries) < Work(old(ms.entries))
      ensures Run(h, ms.buf.Length, Conf(marked, ms.entries, overflow)) ==
        Run(h, ms.buf.Length, Conf(old(marked), old(ms.entries), false))
    {
      hide Moved, Work, Step, Run, Heap.Valid, Heap.Closed, EntryOk;
      objectsMarked := true;
      overflow := MarkLoop();
    }

    method MarkLoop() returns (overflow: bool)
      requires Core() && Balanced([])
      modifies this`state, this`tooSmall, this`marked, this`pushed, this`considered, this`dropped, ms, ms.buf
      ensures Core() && Balanced([]) && ms.buf == old(ms.buf)
      ensures Moved(h, old(Now()), Now(), overflow)
      ensures marked == old(marked) && old(ms.entries) != [] ==> Work(ms.entries) < Work(old(ms.entries))
      ensures Run(h, ms.buf.Length, Conf(marked, ms.entries, overflow)) ==
        Run(h, ms.buf.Length, Conf(old(marked), old(ms.entries), false))
    {
      hide *;
      overflow := false;
      ghost var m0, s0, size, start := marked, ms.entries, ms.buf.Length, Now();
      CoreFits(false);
      MovedRefl(h, start);
      var credit: int := HBLKSIZE_WORDS;
      var empty := ms.IsEmpty();
      while !empty && credit >= 0
        invariant Core() && Balanced([]) && ms.buf == old(ms.buf)
        invariant empty == (ms.entries == [])
        invariant Moved(h, start, Now(), overflow) && m0 <= marked
        invariant marked == m0 ==> Work(ms.entries) < Work(s0) || (ms.entries == s0 && credit == HBLKSIZE_WORDS)
        invariant Fits(size, Conf(marked, ms.entries, overflow))
        invariant Run(h, size, Conf(marked, ms.entries, overflow)) == Run(h, size, Conf(m0, s0, false))
        decreases credit
      {
        ghost var before, c := Now(), Conf(marked, ms.entries, overflow);
        var n, ov := MarkPart();
        CoreFits(ov);
        CoreFits(overflow || ov);
        RunStepped(h, size, c, Conf(marked, ms.entries, ov));
        MovedTrans(h, start, before, Now(), overflow, ov);
        overflow := overflow || ov;
        credit := credit - n;
        empty := ms.IsEmpty();
      }
    }

    lemma CoreFits(overflow: bool)
      requires Core()
      ensures ms.Valid() && marked <= h.descr.Keys && Fits(ms.buf.Length, Conf(marked, ms.entries, overflow))
      ensures Now() == Snap(marked, ms.entries, state, tooSmall, dropped)
    {
    }

    lemma CoreFacts()
      requires Core()
      ensures ms.Valid() && h.Valid() && marked <= just <= h.descr.Keys
      ensures |ms.entries| <= ms.buf.Length && INITIAL_MARK_STACK_SIZE <= ms.buf.Length
    {
    }

    /** The topmost range, or its first part when it is long, is taken off the stack and scanned. */
    method MarkPart() returns (n: nat, overflow: bool)
      requires Core() && Balanced([]) && ms.entries != []
      modifies this`state, this`tooSmall, this`marked, this`pushed, this`considered, this`dropped, ms, ms.buf
      ensures Core() && Balanced([]) && ms.buf == old(ms.buf) && n >= 1
      ensures Moved(h, old(Now()), Now(), overflow) && old(marked) <= marked
      ensures marked == old(marked) ==> Work(ms.entries) < Work(old(ms.entries))
      ensures Conf(marked, ms.entries, overflow) ==
        Step(h, ms.buf.Length, Conf(old(marked), old(ms.entries), false))
    {
      hide Heap.Closed, Count, Advance, Heap.Valid, Work, EntryOk, ScanUp, Rest, PartLen;
      ghost var m, s := marked, ms.entries;
      var cur;
      cur, n := ms.TakePart();
      ghost var s' := ms.entries;
      TakePartFacts(h, just, m, s, s', cur, n, watch);
      overflow := ScanRange(cur, n);
      if !overflow {
        AdvanceTrans(h, m, s, m, s' + [Mse(cur, n)], marked, ms.entries);
      }
    }

    // ------------------------------------------------------------ heap scan

    /** GC_push_marked: stack every marked object of the block. */
    method PushMarked(b: Block) returns (overflow: bool)
      requires Core() && Balanced([]) && b in h.blocks
      modifies this`state, this`tooSmall, this`objectsMarked, this`pushed, this`dropped, ms, ms.buf
      ensures Core() && Balanced([]) && ms.buf == old(ms.buf)
      ensures objectsMarked || !old(objectsMarked)
      ensures overflow ==> objectsMarked && |old(ms.entries)| + |b.objs| > ms.buf.Length
      ensures state == if overflow then Invalid else old(state)
      ensures !overflow ==> dropped == old(dropped)
      ensures !overflow ==> Advance(h, marked, old(ms.entries), marked, ms.entries)
      ensures !overflow ==> AllScanned(h, marked, ms.entries, b.objs)
      ensures tooSmall == (old(tooSmall) || overflow)
      ensures marked == {} ==> ms.entries == old(ms.entries) && !overflow
    {
      hide Heap.Closed, Count, EntryOk, Advance, Heap.Valid, Heap.Scanned, AllScanned;
      overflow := false;
      AdvanceRefl(h, marked, ms.entries);
      BlockFacts(h, marked, ms.entries, b);
      if b.descr == 0 || forall o | o in b.objs :: o !in marked { return; }
      objectsMarked := true;
      overflow := PushObjects(b.objs);
    }

    method PushObjects(objs: seq<nat>) returns (overflow: bool)
      requires Core() && Balanced([]) && forall k :: 0 <= k < |objs| ==> objs[k] in h.descr && h.descr[objs[k]] != 0
      modifies this`state, this`tooSmall, this`pushed, this`dropped, ms, ms.buf
      ensures Core() && Balanced([]) && ms.buf == old(ms.buf)
      ensures overflow ==> |old(ms.entries)| + |objs| > ms.buf.Length
      ensures state == if overflow then Invalid else old(state)
      ensures !overflow ==> dropped == old(dropped)
      ensures !overflow ==> Advance(h, marked, old(ms.entries), marked, ms.entries)
      ensures !overflow ==> AllScanned(h, marked, ms.entries, objs)
      ensures tooSmall == (old(tooSmall) || overflow)
    {
      hide *;
      overflow := false;
      CoreFacts();
      AdvanceRefl(h, marked, ms.entries);
      NoneScanned(h, marked, ms.entries, objs);
      var k := 0;
      while k < |objs|
        invariant 0 <= k <= |objs|
        invariant Core() && Balanced([]) && ms.buf == old(ms.buf)
        invariant overflow ==> |old(ms.entries)| + |objs| > ms.buf.Length
        invariant state == if overflow then Invalid else old(state)
        invariant !overflow ==> dropped == old(dropped)
        invariant !overflow ==> |ms.entries| <= |old(ms.entries)| + k
        invariant tooSmall == (old(tooSmall) || overflow)
        invariant !overflow ==> Advance(h, marked, old(ms.entries), marked, ms.entries)
        invariant !overflow ==> ScannedUpTo(h, marked, ms.entries, objs, k)
      {
        ghost var s := ms.entries;
        CoreFacts();
        var ov := PushIfMarked(objs, k);
        CoreFacts();
        overflow := overflow || ov;
        if !overflow {
          AdvanceTrans(h, marked, old(ms.entries), marked, s, marked, ms.entries);
        }
        k := k + 1;
      }
      EveryScanned(h, marked, ms.entries, objs);
    }

    /** One object of the block. */
    method PushIfMarked(objs: seq<nat>, k: nat) returns (overflow: bool)
      requires Core() && Balanced([]) && k < |objs| && objs[k] in h.descr && h.descr[objs[k]] != 0
      modifies this`state, this`tooSmall, this`pushed, this`dropped, ms, ms.buf
      ensures Core() && Balanced([]) && ms.buf == old(ms.buf)
      ensures overflow ==> |old(ms.entries)| == ms.buf.Length
      ensures state == if overflow then Invalid else old(state)
      ensures tooSmall == (old(tooSmall) || overflow)
      ensures !overflow ==> dropped == old(dropped) && |ms.entries| <= |old(ms.entries)| + 1
      ensures !overflow ==> Advance(h, marked, old(ms.entries), marked, ms.entries)
      ensures !overflow && ScannedUpTo(h, marked, old(ms.entries), objs, k) ==>
        ScannedUpTo(h, marked, ms.entries, objs, k + 1)
    {
      hide Heap.Closed, Count, Advance, EntryOk, Heap.Valid, Heap.Scanned, AfterDiscard;
      overflow := false;
      var o := objs[k];
      ghost var s := ms.entries;
      assert objs[..k + 1] == objs[..k] + [o];
      AdvanceRefl(h, marked, s);
      if o in marked {
        ObjectEntryOk(h, just, o);
        overflow := PushObj(o, []);
        if !overflow {
          AdvancePush(h, marked, s, o);
          if AllScanned(h, marked, s, objs[..k]) { AdvanceScanned(h, marked, s, marked, ms.entries, objs[..k]); }
        }
      }
    }

    /** GC_push_roots: mark from the eager ranges at once, push the others.  Aborts when a
        range to be pushed no longer fits. */
    method PushRoots() returns (overflow: bool, aborted: bool)
      requires Core() && Balanced([]) && h.RootsDone(just, [])
      modifies this`state, this`tooSmall, this`marked, this`pushed, this`considered, this`dropped, ms, ms.buf
      ensures Core() && ms.buf == old(ms.buf) && old(marked) <= marked
      ensures overflow ==> old(marked) < marked
      ensures state == if overflow then Invalid else old(state)
      ensures !aborted ==> Balanced([])
      ensures !aborted && !overflow ==> dropped == old(dropped)
      ensures !aborted && !overflow ==> Advance(h, old(marked), old(ms.entries), marked, ms.entries)
      ensures !aborted && !overflow ==> h.RootsDone(marked, ms.entries)
      ensures tooSmall == (old(tooSmall) || overflow)
      ensures PushedFirst(h.roots) ==> (aborted <==> |old(ms.entries)| + Pushed(h.roots) > ms.buf.Length)
      ensures MARK_STACK_DISCARDS <= ms.buf.Length && |old(ms.entries)| <= ms.buf.Length
      ensures PushFrom(h, ms.buf.Length, Conf(old(marked), old(ms.entries), false), 0) ==
        if aborted then Full else Went(Conf(marked, ms.entries, overflow))
    {
      hide Core, Balanced, Advance, RangesDone, Heap.RootsDone, PushedFirst, Pushed, Level, PushFrom, PushOne;
      overflow, aborted := false, false;
      ghost var size, c0 := ms.buf.Length, Conf(marked, ms.entries, false);
      StartRoots();
      PushedNone(h.roots);
      var k := 0;
      while k < |h.roots|
        invariant 0 <= k <= |h.roots|
        invariant Core() && Balanced([]) && ms.buf == old(ms.buf)
        invariant old(marked) <= marked && (overflow ==> old(marked) < marked)
        invariant state == if overflow then Invalid else old(state)
        invariant !overflow ==> dropped == old(dropped)
        invariant !overflow ==> Advance(h, old(marked), old(ms.entries), marked, ms.entries)
        invariant !overflow ==> RangesDone(h, marked, ms.entries, k)
        invariant tooSmall == (old(tooSmall) || overflow)
        invariant PushedFirst(h.roots) ==> |old(ms.entries)| + Pushed(h.roots[..k]) <= ms.buf.Length
        invariant Level(k, old(ms.entries))
        invariant Fits(size, Conf(marked, ms.entries, overflow))
        invariant PushFrom(h, size, Conf(marked, ms.entries, overflow), k) == PushFrom(h, size, c0, 0)
      {
        ghost var c := Conf(marked, ms.entries, overflow);
        AbortsHere(k, old(ms.entries));
        ghost var m, s := marked, ms.entries;
        var ov;
        ov, aborted := PushRoot(k);
        PushStepped(h, size, c, k, if aborted then Full else Went(Conf(marked, ms.entries, ov)));
        if aborted { return; }
        LevelNext(k, s, old(ms.entries));
        overflow := overflow || ov;
        if !overflow {
          AdvanceTrans(h, old(marked), old(ms.entries), m, s, marked, ms.entries);
          RangesNext(h, m, s, marked, ms.entries, k);
        }
        k := k + 1;
      }
      assert h.roots[..k] == h.roots;
      AllRanges(h, marked, ms.entries);
      PushEnd(h, size, Conf(marked, ms.entries, overflow));
    }

    lemma StartRoots()
      requires Core()
      ensures Advance(h, marked, ms.entries, marked, ms.entries) && RangesDone(h, marked, ms.entries, 0)
      ensures Level(0, ms.entries) && |ms.entries| <= ms.buf.Length && INITIAL_MARK_STACK_SIZE <= ms.buf.Length
    {
      AdvanceRefl(h, marked, ms.entries);
    }

    /** A range that starts marking at once ends the part in which the stack's level is known. */
    lemma LevelNext(k: nat, s: seq<Mse>, s0: seq<Mse>)
      requires k < |h.roots|
      requires (forall i :: 0 <= i < k ==> !h.roots[i].eager || h.roots[i].len == 0) ==>
        |s| == |s0| + Pushed(h.roots[..k])
      requires !h.roots[k].eager || h.roots[k].len == 0 ==> |ms.entries| == |s| + if IsPushed(h.roots[k]) then 1 else 0
      ensures Level(k + 1, s0)
      ensures Pushed(h.roots[..k + 1]) == Pushed(h.roots[..k]) + if IsPushed(h.roots[k]) then 1 else 0
    {
      PushedNext(h.roots, k);
    }

    /** One range: marked from at once, or pushed. */
    method PushRoot(k: nat) returns (overflow: bool, aborted: bool)
      requires Core() && Balanced([]) && h.RootsDone(just, []) && k < |h.roots|
      modifies this`state, this`tooSmall, this`marked, this`pushed, this`considered, this`dropped, ms, ms.buf
      ensures Core() && ms.buf == old(ms.buf) && old(marked) <= marked
      ensures overflow ==> old(marked) < marked && !aborted
      ensures state == if overflow then Invalid else old(state)
      ensures tooSmall == (old(tooSmall) || overflow)
      ensures aborted <==> IsPushed(h.roots[k]) && |old(ms.entries)| == ms.buf.Length
      ensures !aborted ==> Balanced([])
      ensures !aborted && !overflow ==> dropped == old(dropped)
      ensures !aborted && !overflow ==> Advance(h, old(marked), old(ms.entries), marked, ms.entries)
      ensures !aborted && !overflow ==> h.RangeDone(marked, ms.entries, h.roots[k].start, h.roots[k].len)
      ensures !aborted && (!h.roots[k].eager || h.roots[k].len == 0) ==>
        |ms.entries| == |old(ms.entries)| + if IsPushed(h.roots[k]) then 1 else 0
      ensures PushOne(h, ms.buf.Length, Conf(old(marked), old(ms.entries), false), h.roots[k]) ==
        if aborted then Full else Went(Conf(marked, ms.entries, overflow))
    {
      hide Heap.Closed, Count, Advance, EntryOk, Heap.RangeDone, ScanUp;
      var r := h.roots[k];
      overflow, aborted := false, false;
      if r.eager {
        overflow := MarkEagerly(r);
      } else {
        aborted := PushAll(r);
      }
    }

    /** Before the first eager range the stack has grown by the ranges pushed. */
    ghost predicate Level(k: nat, s0: seq<Mse>)
      requires k <= |h.roots|
      reads this, ms
    {
      (forall i :: 0 <= i < k ==> !h.roots[i].eager || h.roots[i].len == 0) ==>
        |ms.entries| == |s0| + Pushed(h.roots[..k])
    }

    /** A range to be pushed finds the stack full only if all of them together do not fit. */
    lemma AbortsHere(k: nat, s0: seq<Mse>)
      requires k < |h.roots| && Level(k, s0) && Core()
      ensures PushedFirst(h.roots) && IsPushed(h.roots[k]) && |ms.entries| == ms.buf.Length ==>
        |s0| + Pushed(h.roots) > ms.buf.Length
      ensures PushedFirst(h.roots) && |s0| + Pushed(h.roots[..k]) == ms.buf.Length && IsPushed(h.roots[k]) ==>
        |ms.entries| == ms.buf.Length
      ensures (forall i :: 0 <= i < k ==> !h.roots[i].eager || h.roots[i].len == 0) ==>
        |ms.entries| == |s0| + Pushed(h.roots[..k])
    {
      PushedNext(h.roots, k);
      PushedMore(h.roots, k + 1);
    }

    /** GC_push_all: stack one range, or report that the stack is full. */
    method PushAll(r: Root) returns (aborted: bool)
      requires Core() && Balanced([]) && r.start + r.len <= |h.mem| && h.RangeDone(just, [], r.start, r.len)
      modifies this`pushed, ms, ms.buf
      ensures Core() && ms.buf == old(ms.buf)
      ensures aborted <==> r.len > 0 && |old(ms.entries)| == ms.buf.Length
      ensures !aborted ==> Balanced([])
      ensures !aborted ==> Advance(h, marked, old(ms.entries), marked, ms.entries)
      ensures !aborted ==> h.RangeDone(marked, ms.entries, r.start, r.len)
      ensures !aborted ==> ms.entries == old(ms.entries) + if r.len > 0 then [Mse(r.start, r.len)] else []
    {
      hide Heap.Closed, Count, Heap.Valid;
      aborted := false;
      if r.len == 0 { return; }
      aborted := ms.IsFull();
      if aborted { return; }
      var e := Mse(r.start, r.len);
      WaitsPush(ms.entries, e);
      CountPush(ms.entries, e, watch);
      var ov := ms.Push(e);
      pushed := pushed + if e.Has(watch) then 1 else 0;
    }

    /** Eager marking of a root range: every plausible word is considered in turn. */
    method MarkEagerly(r: Root) returns (overflow: bool)
      requires Core() && Balanced([]) && h.RangeDone(just, [], r.start, r.len) && r.start + r.len <= |h.mem|
      modifies this`state, this`tooSmall, this`marked, this`pushed, this`considered, this`dropped, ms, ms.buf
      ensures Core() && Balanced([]) && ms.buf == old(ms.buf)
      ensures old(marked) <= marked && (overflow ==> old(marked) < marked)
      ensures state == if overflow then Invalid else old(state)
      ensures !overflow ==> dropped == old(dropped)
      ensures !overflow ==> Advance(h, old(marked), old(ms.entries), marked, ms.entries)
      ensures !overflow ==> h.RangeDone(marked, ms.entries, r.start, r.len)
      ensures tooSmall == (old(tooSmall) || overflow)
      ensures r.len == 0 ==> ms.entries == old(ms.entries)
      ensures Conf(marked, ms.entries, overflow) ==
        ScanUp(h, ms.buf.Length, Conf(old(marked), old(ms.entries), false), r.start, r.start + r.len)
    {
      hide Heap.Closed, Count, Advance, EntryOk, Consider, ScanUp, Heap.Valid;
      overflow := false;
      ghost var size, c0 := ms.buf.Length, Conf(marked, ms.entries, false);
      ScanUpNone(h, size, c0, r.start);
      AdvanceRefl(h, marked, ms.entries);
      var a := r.start;
      while a < r.start + r.len
        invariant r.start <= a <= r.start + r.len
        invariant Core() && Balanced([]) && ms.buf == old(ms.buf)
        invariant old(marked) <= marked && (overflow ==> old(marked) < marked)
        invariant state == if overflow then Invalid else old(state)
        invariant !overflow ==> dropped == old(dropped)
        invariant !overflow ==> Advance(h, old(marked), old(ms.entries), marked, ms.entries)
        invariant !overflow ==> h.RangeDone(marked, ms.entries, r.start, a - r.start)
        invariant tooSmall == (old(tooSmall) || overflow)
        invariant a == r.start ==> ms.entries == old(ms.entries)
        invariant Conf(marked, ms.entries, overflow) == ScanUp(h, size, c0, r.start, a)
      {
        ghost var m, s, c := marked, ms.entries, Conf(marked, ms.entries, overflow);
        var ov := false;
        if h.Plausible(a) {
          CountPush([], Mse(a, 1), watch);
          pushed := pushed + if a == watch then 1 else 0;
          ov := PushContents(a, []);
          Considered(h, size, c0, r.start, a, c, Conf(marked, ms.entries, ov));
        } else {
          ImplausibleDone(h, marked, ms.entries, a);
          ImplausiblePassed(h, size, c0, r.start, a);
        }
        overflow := overflow || ov;
        if !overflow {
          AdvanceNext(h, m, s, marked, ms.entries, r.start, a);
          AdvanceTrans(h, old(marked), old(ms.entries), m, s, marked, ms.entries);
        }
        a := a + 1;
      }
    }

    // ------------------------------------------------------------ the state machine

    /** The invariant of the state machine between two steps. */
    ghost predicate Inv()
      reads this, ms, ms.buf
    {
      && Core()
      && Balanced([])
      && h.RootsDone(just, [])
      && PhaseOk(h, state, scanPtr, marked, ms.entries)
      && (state == PartiallyInvalid ==> objectsMarked && scanPtr != 0)
      && (state == Invalid && !objectsMarked ==> scanPtr == 0 && ms.entries == [] && OnlyUncollectable(h, marked))
    }

    /** The stack has room for all ranges to be pushed, when they come first. */
    ghost predicate RootsFit()
      reads this, ms
    {
      PushedFirst(h.roots) ==> Pushed(h.roots) <= ms.buf.Length
    }

    /** The roots have not been pushed yet. */
    ghost predicate Starting()
      reads this
    {
      state == PushUncollectable || (state == Invalid && !objectsMarked)
    }

    /** Where the phase can be that started without marks: nothing is marked and the stack is
        unused, or else the roots have been pushed, and it was not full. */
    ghost predicate StartedEmpty(size: nat)
      reads this, ms
    {
      if Starting() then marked == {} && ms.entries == [] && ms.buf.Length == size else !RootsFull(h, size, {}, [])
    }

    lemma StartedFacts(size: nat)
      ensures StartedEmpty(size) ==>
        if Starting() then marked == {} && ms.entries == [] && ms.buf.Length == size else !RootsFull(h, size, {}, [])
      ensures marked == {} && ms.entries == [] && ms.buf.Length == size && state == Invalid && !objectsMarked ==>
        StartedEmpty(size)
      ensures state == None ==> !Starting()
    {
    }

    ghost function Phase(): nat
      reads this
    {
      match state
      case Invalid => if scanPtr != 0 then 5 else 4
      case PartiallyInvalid => 3
      case PushUncollectable => 3
      case RootsPushed => 1
      case None => 0
    }

    ghost function BlocksToScan(): nat
      reads this
    {
      |h.blocks| - NextUsed(h, scanPtr)
    }

    /** One run of GC_mark_from within the state machine. */
    method Drain() returns (overflow: bool)
      requires Inv() && ms.entries != []
      modifies this`state, this`tooSmall, this`objectsMarked, this`marked,
        this`pushed, this`considered, this`dropped, ms, ms.buf
      ensures Inv() && ms.buf == old(ms.buf) && objectsMarked
      ensures old(marked) <= marked && (overflow ==> old(marked) < marked)
      ensures state == if overflow then Invalid else old(state)
      ensures old(marked) < marked || Work(ms.entries) < Work(old(ms.entries))
      ensures !overflow ==> Advance(h, old(marked), old(ms.entries), marked, ms.entries)
      ensures tooSmall == (old(tooSmall) || overflow) && ms.Valid()
      ensures Run(h, ms.buf.Length, Conf(marked, ms.entries, overflow)) ==
        Run(h, ms.buf.Length, Conf(old(marked), old(ms.entries), false))
    {
      hide Balanced, Advance, PhaseOk, Heap.RootsDone, Run, Heap.Closed, EntryOk, Heap.Valid;
      ghost var m, s := marked, ms.entries;
      overflow := MarkFrom();
      if overflow {
        InvalidOk(h, scanPtr, marked, ms.entries);
      } else {
        PhaseAdvance(h, state, scanPtr, m, s, marked, ms.entries);
      }
    }

    /** GC_push_next_marked: push the next used block; 0 when there is none. */
    method PushNextMarked() returns (next: nat, overflow: bool)
      requires Core() && Balanced([])
      modifies this`state, this`tooSmall, this`objectsMarked, this`pushed, this`dropped, ms, ms.buf
      ensures Core() && Balanced([]) && ms.buf == old(ms.buf)
      ensures tooSmall == (old(tooSmall) || overflow)
      ensures objectsMarked || !old(objectsMarked)
      ensures overflow ==> objectsMarked && |old(ms.entries)| + MAX_OBJS_PER_BLOCK > ms.buf.Length
      ensures state == if overflow then Invalid else old(state)
      ensures !overflow ==> Advance(h, marked, old(ms.entries), marked, ms.entries)
      ensures
        var i := NextUsed(h, scanPtr);
        if i == |h.blocks| then
          next == 0 && ms.entries == old(ms.entries) && !overflow
        else
          next == h.blocks[i].start + h.blocks[i].length && next != 0 && NextUsed(h, next) == i + 1 &&
          (!overflow ==> AllScanned(h, marked, ms.entries, h.blocks[i].objs))
    {
      hide Heap.Closed, Balanced, Count, Advance, EntryOk, AllScanned, Heap.Valid;
      var i := NextUsed(h, scanPtr);
      if i == |h.blocks| {
        AdvanceRefl(h, marked, ms.entries);
        return 0, false;
      }
      BlockFacts(h, marked, ms.entries, h.blocks[i]);
      NextUsedAfter(h, i);
      overflow := PushMarked(h.blocks[i]);
      next := h.blocks[i].start + h.blocks[i].length;
    }

    /** GC_push_next_marked_uncollectable: as above, for the next uncollectable block. */
    method PushNextMarkedUncollectable() returns (next: nat, overflow: bool)
      requires Core() && Balanced([])
      modifies this`state, this`tooSmall, this`objectsMarked, this`pushed, this`dropped, ms, ms.buf
      ensures Core() && Balanced([]) && ms.buf == old(ms.buf)
      ensures tooSmall == (old(tooSmall) || overflow)
      ensures objectsMarked || !old(objectsMarked)
      ensures overflow ==> objectsMarked && |old(ms.entries)| + MAX_OBJS_PER_BLOCK > ms.buf.Length
      ensures state == if overflow then Invalid else old(state)
      ensures !overflow ==> Advance(h, marked, old(ms.entries), marked, ms.entries)
      ensures next == 0 || marked == {} ==> ms.entries == old(ms.entries) && !overflow
      ensures next == 0 ==> forall b :: b in h.blocks ==> b.start < scanPtr || b.kind != Uncollectable
      ensures next != 0 ==> exists i: nat {:trigger IsNextUncollectable(h, scanPtr, i)} ::
        (IsNextUncollectable(h, scanPtr, i) &&
         next == h.blocks[i].start + h.blocks[i].length && NextUsed(h, next) == i + 1 &&
         (!overflow ==> AllScanned(h, marked, ms.entries, h.blocks[i].objs)))
    {
      hide Heap.Closed, Balanced, Count, Advance, EntryOk, AllScanned, Heap.Valid;
      var i := FindUncollectable();
      if i == |h.blocks| {
        AdvanceRefl(h, marked, ms.entries);
        return 0, false;
      }
      BlockFacts(h, marked, ms.entries, h.blocks[i]);
      NextUsedAfter(h, i);
      overflow := PushMarked(h.blocks[i]);
      next := h.blocks[i].start + h.blocks[i].length;
      assert IsNextUncollectable(h, scanPtr, i);
    }

    /** The block search of the loop above. */
    method FindUncollectable() returns (i: nat)
      requires h.Valid()
      ensures i <= |h.blocks|
      ensures i < |h.blocks| ==> IsNextUncollectable(h, scanPtr, i)
      ensures i == |h.blocks| ==> forall b :: b in h.blocks ==> b.start < scanPtr || b.kind != Uncollectable
    {
      hide Heap.Valid;
      var p: nat := scanPtr;
      i := NextUsed(h, p);
      while i < |h.blocks| && h.blocks[i].kind != Uncollectable
        invariant i == NextUsed(h, p)
        invariant i < |h.blocks| ==> scanPtr <= h.blocks[i].start
        invariant forall k :: 0 <= k < i ==> h.blocks[k].start < scanPtr || h.blocks[k].kind != Uncollectable
        decreases |h.blocks| - i
      {
        NextUsedAfter(h, i);
        p := h.blocks[i].start + h.blocks[i].length;
        i := NextUsed(h, p);
      }
    }

    /** The heap scan is over: push the roots and, if nothing overflowed, say so. */
    method FinishScan(ghost scan: nat) returns (aborted: bool)
      requires Core() && Balanced([]) && h.RootsDone(just, []) && scanPtr == 0
      requires state == PartiallyInvalid || state == PushUncollectable
      requires PhaseOk(h, state, scan, marked, ms.entries)
      requires forall b :: b in h.blocks ==> b.start < scan || (state == PushUncollectable && b.kind != Uncollectable)
      modifies this`state, this`tooSmall, this`objectsMarked, this`marked,
        this`pushed, this`considered, this`dropped, ms, ms.buf
      ensures ms.buf == old(ms.buf)
      ensures old(marked) <= marked && objectsMarked
      ensures !aborted ==> Inv()
      ensures !aborted ==> state == RootsPushed || (state == Invalid && old(marked) < marked)
      ensures tooSmall ==> old(tooSmall) || old(marked) < marked
      ensures PushedFirst(h.roots) ==> (aborted <==> |old(ms.entries)| + Pushed(h.roots) > ms.buf.Length)
      ensures Fits(ms.buf.Length, Conf(old(marked), old(ms.entries), false))
      ensures aborted <==> RootsFull(h, ms.buf.Length, old(marked), old(ms.entries))
    {
      hide Count, Advance, PhaseOk, Heap.RootsDone, Heap.Valid, Heap.Closed, EntryOk, PushedFirst, Pushed, RootsFull;
      ghost var st, m, s := state, marked, ms.entries;
      var overflow;
      overflow, aborted := PushRoots();
      FullIf(h, ms.buf.Length, m, s);
      if aborted {
        objectsMarked := true;
        return;
      }
      objectsMarked := true;
      if state != Invalid {
        PhaseAdvance(h, st, scan, m, s, marked, ms.entries);
        ScanComplete(h, st, scan, marked, ms.entries);
        state := RootsPushed;
      } else {
        InvalidOk(h, scanPtr, marked, ms.entries);
      }
    }

    /** The step of states MS_INVALID and MS_PARTIALLY_INVALID with an empty stack: scan
        one more block, or finish the scan. */
    method ScanStep() returns (aborted: bool)
      requires Core() && Balanced([]) && h.RootsDone(just, []) && ms.entries == [] && objectsMarked
      requires state == PartiallyInvalid || (state == Invalid && scanPtr != 0)
      requires PhaseOk(h, state, scanPtr, marked, [])
      modifies this`state, this`scanPtr, this`tooSmall, this`objectsMarked, this`marked,
        this`pushed, this`considered, this`dropped, ms, ms.buf
      ensures ms.buf == old(ms.buf) && old(marked) <= marked
      ensures !aborted ==> Inv() && state != None
      ensures !aborted && old(state) == PartiallyInvalid ==>
        old(marked) < marked || (marked == old(marked) && (state == RootsPushed ||
          (state == PartiallyInvalid && BlocksToScan() < old(BlocksToScan()))))
      ensures !aborted && old(state) == Invalid ==>
        marked == old(marked) && state == Invalid && (scanPtr == 0 || BlocksToScan() < old(BlocksToScan()))
      ensures tooSmall ==> old(tooSmall) || old(marked) < marked
      ensures aborted && PushedFirst(h.roots) ==> Pushed(h.roots) > ms.buf.Length
      ensures aborted ==> RootsFull(h, ms.buf.Length, old(marked), old(ms.entries))
      ensures !aborted && state == RootsPushed ==> RootsFit()
      ensures !aborted ==> objectsMarked && state != PushUncollectable
    {
      hide Core, Balanced, Count, Advance, PhaseOk, Heap.RootsDone, Heap.Valid, Heap.Closed, EntryOk, AllScanned,
        PushedFirst, Pushed, RootsFull;
      aborted := false;
      CoreFacts();
      ghost var i := NextUsed(h, scanPtr);
      var next, overflow := PushNextMarked();
      assert !overflow;
      if next != 0 {
        PhaseAdvance(h, state, scanPtr, marked, [], marked, ms.entries);
        if state == PartiallyInvalid {
          ScanAdvance(h, state, scanPtr, i, marked, ms.entries);
        } else {
          InvalidOk(h, next, marked, ms.entries);
        }
        scanPtr := next;
      } else {
        ghost var scan := scanPtr;
        scanPtr := 0;
        if state == PartiallyInvalid {
          aborted := FinishScan(scan);
        } else {
          InvalidOk(h, 0, marked, ms.entries);
        }
      }
    }

    /** The step of state MS_PUSH_UNCOLLECTABLE with room on the stack. */
    method UncollectableStep() returns (aborted: bool)
      requires Inv() && state == PushUncollectable && |ms.entries| <= ms.buf.Length / 4
      modifies this`state, this`scanPtr, this`tooSmall, this`objectsMarked, this`marked,
        this`pushed, this`considered, this`dropped, ms, ms.buf
      ensures ms.buf == old(ms.buf) && old(marked) <= marked
      ensures !aborted ==> Inv() && state != None
      ensures !aborted ==>
        old(marked) < marked || (marked == old(marked) && (state == RootsPushed ||
          (state == PushUncollectable && BlocksToScan() < old(BlocksToScan()))))
      ensures tooSmall ==> old(tooSmall) || old(marked) < marked
      ensures aborted && PushedFirst(h.roots) ==> |old(ms.entries)| + Pushed(h.roots) > ms.buf.Length
      ensures aborted ==> RootsFull(h, ms.buf.Length, old(marked), old(ms.entries))
      ensures !aborted && state == RootsPushed ==> RootsFit()
      ensures !aborted && old(marked) == {} && old(ms.entries) == [] ==> StartedEmpty(ms.buf.Length)
    {
      hide Count, Advance, PhaseOk, Heap.RootsDone, Heap.Valid, Heap.Closed, EntryOk, AllScanned, PushedFirst,
        Pushed, RootsFull;
      aborted := false;
      ghost var s := ms.entries;
      var next, overflow := PushNextMarkedUncollectable();
      assert !overflow;
      if next != 0 {
        ghost var i: nat :| IsNextUncollectable(h, scanPtr, i) &&
          next == h.blocks[i].start + h.blocks[i].length && NextUsed(h, next) == i + 1 &&
          AllScanned(h, marked, ms.entries, h.blocks[i].objs);
        assert NextUsed(h, scanPtr) <= i;
        PhaseAdvance(h, state, scanPtr, marked, s, marked, ms.entries);
        ScanAdvance(h, state, scanPtr, i, marked, ms.entries);
        scanPtr := next;
      } else {
        ghost var scan := scanPtr;
        scanPtr := 0;
        aborted := FinishScan(scan);
      }
    }

    /** The stack was found too small, and can be exchanged now that it is empty: at the end, and
        when the search for marked objects starts again. */
    ghost predicate MayGrow()
      reads this, ms
    {
      tooSmall && ms.entries == [] &&
        (state == RootsPushed || (state == Invalid && objectsMarked && scanPtr == 0))
    }

    /** GC_mark_some: one step.  With `available` false the mark stack cannot grow. */
    method MarkSome(available: bool) returns (r: StepResult)
      requires Inv()
      modifies this`state, this`scanPtr, this`tooSmall, this`objectsMarked, this`marked,
        this`pushed, this`considered, this`dropped, ms, ms.buf
      ensures ms.buf == old(ms.buf) || fresh(ms.buf)
      ensures old(marked) <= marked
      ensures r != Aborted ==> Inv()
      ensures r == Finished ==> state == None && ms.entries == [] && h.Closed(marked) && h.RootsDone(marked, [])
      ensures old(state) == None ==> r == Running && state == None
      ensures r == Running && old(state) != None ==>
        state != None &&
        (old(marked) < marked ||
         (marked == old(marked) &&
          (Phase() < old(Phase()) ||
           (Phase() == old(Phase()) &&
            (BlocksToScan() < old(BlocksToScan()) ||
             (BlocksToScan() == old(BlocksToScan()) && Work(ms.entries) < Work(old(ms.entries))))))))
      ensures FewPushed(h.roots, old(ms.buf.Length)) ==> r != Aborted
      ensures r == Aborted ==> RootsFull(h, ms.buf.Length, old(marked), old(ms.entries))
      ensures
        if available && old(MayGrow()) then fresh(ms.buf) && ms.buf.Length == 2 * old(ms.buf.Length)
        else ms.buf == old(ms.buf)
      ensures !old(tooSmall) && marked == old(marked) ==> !tooSmall && ms.buf == old(ms.buf)
      ensures !old(Starting()) && r != Aborted ==> !Starting()
      ensures forall size :: old(StartedEmpty(size)) && r != Aborted ==> StartedEmpty(size)
      ensures r == Aborted ==> if old(Starting()) then ms.buf == old(ms.buf) else old(ms.entries) == []
      ensures r != Aborted && (old(state) == RootsPushed ==> old(RootsFit())) ==>
        (state == RootsPushed || r == Finished ==> RootsFit())
    {
      hide NextUsed, Balanced, MarkStack.Valid, Count, Advance, PhaseOk, Heap.RootsDone, Heap.Valid, Heap.Closed,
        EntryOk, AllScanned, Work, PushedFirst, Pushed, Run, RootsFull;
      r := Running;
      var aborted, ov := false, false;
      CoreFacts();
      var empty := ms.IsEmpty();
      if state == PushUncollectable {
        var quarter := ms.QuarterFull();
        if quarter {
          ov := Drain();
        } else {
          aborted := UncollectableStep();
        }
      } else if state == RootsPushed && !empty {
        ov := Drain();
      } else if state == RootsPushed {
        MarksClosed(h, state, scanPtr, marked);
        state := None;
        NoneOk(h, scanPtr, marked, ms.entries);
        GrowIfTooSmall(available);
        r := Finished;
      } else if state != None && !objectsMarked {
        StartUncollectable(h, marked);
        state := PushUncollectable;
      } else if state != None && !empty {
        ov := Drain();
      } else if state != None {
        if scanPtr == 0 && state == Invalid {
          GrowIfTooSmall(available);
          PartialOk(h, marked, ms.entries);
          state := PartiallyInvalid;
        }
        aborted := ScanStep();
      }
      if aborted { r := Aborted; }
    }

    method GrowIfTooSmall(available: bool)
      requires Core() && Balanced([]) && ms.entries == []
      modifies this`tooSmall, ms
      ensures Core() && Balanced([]) && ms.entries == [] && !tooSmall
      ensures
        if old(tooSmall) && available then fresh(ms.buf) && ms.buf.Length == 2 * old(ms.buf.Length)
        else ms.buf == old(ms.buf)
    {
      if tooSmall {
        tooSmall := false;
        ms.Grow(available);
      }
    }

    // ------------------------------------------------------------ drivers

    /** GC_clear_marks and GC_invalidate_mark_state */
    method ClearMarks()
      requires h.Valid() && ms.Valid() && marked <= h.descr.Keys
      modifies this`state, this`scanPtr, this`objectsMarked, this`marked,
        this`pushed, this`considered, this`dropped, this`just, ms, ms.buf
      ensures Inv() && state == Invalid && !objectsMarked && ms.entries == [] && ms.buf == old(ms.buf)
      ensures marked == Kept(h, old(marked)) && just == h.LiveSet(marked) && tooSmall == old(tooSmall)
    {
      hide Count, PhaseOk, Heap.RootsDone, Heap.Valid, Heap.Closed, EntryOk, Work, Heap.LiveSet, Kept;
      state := Invalid;
      ms.Clear();
      pushed, considered, dropped := 0, 0, 0;
      marked := Kept(h, marked);
      objectsMarked := false;
      scanPtr := 0;
      just := h.LiveSet(marked);
      StartFacts(h, old(marked), watch);
    }

    /** A full collection's mark phase: flush the stack, clear the marks of collectable
        objects, and step until done.  `mayStop` tells whether the caller's stop function
        is allowed to give up in between. */
    method Collect(mayStop: bool) returns (r: Outcome)
      requires h.Valid() && ms.Valid() && marked <= h.descr.Keys
      modifies this`state, this`scanPtr, this`tooSmall, this`objectsMarked, this`marked,
        this`pushed, this`considered, this`dropped, this`just, ms, ms.buf
      ensures r == Completed ==> marked == h.LiveSet(Kept(h, old(marked)))
      ensures r == Completed ==> Inv() && state == None && ms.entries == []
      ensures r == Completed && h.Plausible(watch) ==> pushed == considered + dropped
      ensures r == Abandoned ==> mayStop && state == Invalid
      ensures FewPushed(h.roots, old(ms.buf.Length)) ==> r != StackTooSmall
      ensures r == Completed ==> RootsFit()
      ensures r == StackTooSmall ==> FullSomewhere(h, old(ms.buf.Length))
      ensures Kept(h, old(marked)) == {} ==> StartedUnmarked(h, old(ms.buf.Length), r)
      ensures !old(tooSmall) && marked == Kept(h, old(marked)) ==> ms.buf == old(ms.buf)
      ensures Kept(h, old(marked)) <= marked && (ms.buf == old(ms.buf) || fresh(ms.buf))
    {
      hide *;
      ClearMarks();
      ghost var from, size := marked, ms.buf.Length;
      Begun(size);
      while true
        invariant Going(from, size) && from <= marked
        invariant ms.buf == old(ms.buf) || fresh(ms.buf)
        invariant !old(tooSmall) && marked == from ==> !tooSmall && ms.buf == old(ms.buf)
        decreases h.descr.Keys - marked, Phase(), BlocksToScan(), Work(ms.entries)
      {
        if mayStop {
          var stop: bool := *;
          if stop {
            StartAbandoned(h, size);
            Abandon(from, size);
            return Abandoned;
          }
        }
        var step := CollectStep(from, size);
        if step == Aborted { return StackTooSmall; }
        if step == Finished { return Completed; }
      }
    }

    /** A collection that has kept the marks `from` and began with a stack of that size. */
    ghost predicate Going(from: set<nat>, size: nat)
      reads this, ms, ms.buf
    {
      && Inv() && state != None && just == h.LiveSet(from) && from <= marked
      && INITIAL_MARK_STACK_SIZE <= size <= ms.buf.Length
      && (state == RootsPushed ==> RootsFit())
      && (from == {} ==> StartedEmpty(size))
    }

    lemma Begun(size: nat)
      requires Inv() && state == Invalid && !objectsMarked && ms.entries == [] && size == ms.buf.Length
      requires just == h.LiveSet(marked)
      ensures Going(marked, size)
    {
      hide Inv, Heap.LiveSet, RootsFit, RootsFull;
      InvFacts();
    }

    method Abandon(ghost from: set<nat>, ghost size: nat)
      requires Going(from, size)
      modifies this`state, ms
      ensures state == Invalid && ms.entries == [] && ms.buf == old(ms.buf)
    {
      hide PhaseOk, Heap.RootsDone, Heap.Valid, Heap.Closed, Heap.LiveSet, RootsFit, StartedEmpty;
      state := Invalid;
      ms.Clear();
    }

    /** One step; it cannot abort once no more than is marked and the roots have been seen to fit. */
    method CollectStep(ghost from: set<nat>, ghost size: nat) returns (step: StepResult)
      requires Going(from, size)
      modifies this`state, this`scanPtr, this`tooSmall, this`objectsMarked, this`marked,
        this`pushed, this`considered, this`dropped, ms, ms.buf
      ensures ms.buf == old(ms.buf) || fresh(ms.buf)
      ensures old(marked) <= marked
      ensures !old(tooSmall) && marked == old(marked) ==> !tooSmall && ms.buf == old(ms.buf)
      ensures step == Running ==> Going(from, size) && marked <= h.descr.Keys
      ensures step == Running ==>
        old(marked) < marked ||
        (marked == old(marked) &&
         (Phase() < old(Phase()) ||
          (Phase() == old(Phase()) &&
           (BlocksToScan() < old(BlocksToScan()) ||
            (BlocksToScan() == old(BlocksToScan()) && Work(ms.entries) < Work(old(ms.entries)))))))
      ensures step == Finished ==> marked == h.LiveSet(from) && Inv() && state == None && ms.entries == [] && RootsFit()
      ensures step == Finished && h.Plausible(watch) ==> pushed == considered + dropped
      ensures FewPushed(h.roots, size) ==> step != Aborted
      ensures step == Aborted ==> FullSomewhere(h, size)
      ensures from == {} ==>
        (step == Aborted ==> StartedUnmarked(h, size, StackTooSmall)) &&
        (step == Finished ==> StartedUnmarked(h, size, Completed))
    {
      hide Inv, StartedEmpty, RootsFit, Starting, Heap.LiveSet, FewPushed, StartedUnmarked, FullSomewhere, RootsFull,
        Phase, BlocksToScan, Work, Heap.RootsDone, Heap.Closed, Heap.Plausible;
      InvFacts();
      if FewPushed(h.roots, size) { FewerPushed(h.roots, size, ms.buf.Length); }
      ghost var m, s, starting := marked, ms.entries, Starting();
      StartedFacts(size);
      var available: bool := *;
      step := MarkSome(available);
      if step == Aborted {
        FullThen(h, size, ms.buf.Length, m, s);
        if from == {} { StartAborts(h, size, ms.buf.Length, m, s, starting); }
      } else {
        InvFacts();
        if step == Finished { FinishedLive(from, size); }
      }
    }

    lemma FinishedLive(from: set<nat>, size: nat)
      requires Inv() && state == None && ms.entries == [] && from <= marked && just == h.LiveSet(from)
      requires from == {} ==> StartedEmpty(size)
      requires INITIAL_MARK_STACK_SIZE <= size
      ensures marked == h.LiveSet(from) && (h.Plausible(watch) ==> pushed == considered + dropped)
      ensures from == {} ==> StartedUnmarked(h, size, Completed)
    {
      hide Inv, StartedEmpty, Heap.LiveSet, StartedUnmarked, RootsFull, Heap.RootsDone, Heap.Closed;
      InvFacts();
      NowClosed();
      h.LiveStaysInside(from, marked);
      NothingWaits();
      StartedFacts(size);
      if from == {} { StartCompletes(h, size); }
    }

    /** GC_MARK_FO with the normal mark procedure, whatever is marked: what `o` leads to
        without passing through marked objects is marked.  After an overflow `o` itself is
        marked too and marking starts over, which marks everything live. */
    method MarkFo(o: nat) returns (overflow: bool, aborted: bool)
      requires Quiet() && marked <= h.descr.Keys && o in h.descr
      modifies this`state, this`scanPtr, this`tooSmall, this`objectsMarked, this`marked,
        this`pushed, this`considered, this`dropped, this`just, ms, ms.buf
      ensures ms.buf == old(ms.buf) || fresh(ms.buf)
      ensures !aborted ==> Quiet() && marked <= h.descr.Keys
      ensures overflow <==> Overruns(h, old(ms.buf.Length), old(marked), o)
      ensures overflow ==> old(ms.buf.Length) <= |h.Onward(old(marked), o) - old(marked)|
      ensures !overflow ==> !aborted && marked == old(marked) + h.Onward(old(marked), o)
      ensures overflow && !aborted ==>
        marked == h.LiveSet(old(marked) + {o}) && h.Closed(marked) && h.RootsDone(marked, [])
      ensures aborted ==> !FewPushed(h.roots, old(ms.buf.Length))
      ensures old(ms.buf.Length) <= ms.buf.Length && (!overflow ==> ms.buf == old(ms.buf))
    {
      hide *;
      aborted := false;
      overflow := MarkOnward(o);
      if overflow { aborted := Recover(o, old(marked)); }
    }

    /** The mark procedure and the loop that works the stack down again. */
    method MarkOnward(o: nat) returns (overflow: bool)
      requires Quiet() && marked <= h.descr.Keys && o in h.descr
      modifies this`state, this`tooSmall, this`objectsMarked, this`marked,
        this`pushed, this`considered, this`dropped, this`just, ms, ms.buf
      ensures ms.buf == old(ms.buf) && marked <= h.descr.Keys
      ensures overflow <==> Overruns(h, ms.buf.Length, old(marked), o)
      ensures overflow ==> ms.buf.Length <= |h.Onward(old(marked), o) - old(marked)|
      ensures overflow ==> Overflowed(old(marked) + {o}) && old(marked) <= marked
      ensures !overflow ==> Quiet() && marked == old(marked) + h.Onward(old(marked), o)
    {
      hide Core, Balanced, Heap.RootsDone, Heap.Valid, Heap.Closed, Heap.LiveSet, Heap.Onward, Quiet, Advance, Run,
        OwnRange, MarkStack.Valid, Overruns;
      QuietFacts();
      overflow := MarkThrough(o);
      OnwardMarked(h, ms.buf.Length, old(marked), o, marked, overflow);
      if !overflow { CoreQuiet(); }
    }

    /** Marks lie between `from` and what is live with it, and are invalid after an overflow. */
    ghost predicate Overflowed(from: set<nat>)
      reads this, ms, ms.buf
    {
      && Core() && Balanced([]) && state == Invalid && ms.entries == [] && objectsMarked
      && just == h.LiveSet(from) && h.RootsDone(just, []) && from <= just && just <= h.descr.Keys
    }

    method MarkThrough(o: nat) returns (overflow: bool)
      requires Quiet() && marked <= h.descr.Keys && o in h.descr
      modifies this`state, this`tooSmall, this`objectsMarked, this`marked,
        this`pushed, this`considered, this`dropped, this`just, ms, ms.buf
      ensures Core() && Balanced([]) && ms.buf == old(ms.buf) && ms.entries == []
      ensures state == if overflow then Invalid else None
      ensures overflow ==> Overflowed(old(marked) + {o})
      ensures old(marked) <= marked <= h.descr.Keys
      ensures Conf(marked, [], overflow) == Run(h, ms.buf.Length, Conf(old(marked), OwnRange(h, o), false))
      ensures !overflow ==> Advance(h, old(marked), OwnRange(h, o), marked, [])
    {
      hide Count, Heap.RootsDone, Heap.Valid, Heap.Closed, EntryOk, Work, Heap.LiveSet, Run, AfterDiscard, Advance;
      h.LiveSetClosed(marked + {o});
      h.LiveHas(marked + {o});
      LiveObjects(h, marked + {o});
      just := h.LiveSet(marked + {o});
      ObjectEntryOk(h, just, o);
      ghost var ov := PushObj(o, []);
      assert [] + OwnRange(h, o) == OwnRange(h, o);
      overflow := DrainAll();
    }

    /** After an overflow the object itself is marked and marking starts over. */
    method Recover(o: nat, ghost m: set<nat>) returns (aborted: bool)
      requires Overflowed(m + {o}) && m <= marked
      modifies this`state, this`scanPtr, this`tooSmall, this`objectsMarked, this`marked,
        this`pushed, this`considered, this`dropped, ms, ms.buf
      ensures ms.buf == old(ms.buf) || fresh(ms.buf)
      ensures !aborted ==> Quiet() && marked == h.LiveSet(m + {o}) && h.Closed(marked) && h.RootsDone(marked, [])
      ensures !aborted ==> marked <= h.descr.Keys
      ensures FewPushed(h.roots, old(ms.buf.Length)) ==> !aborted
      ensures old(ms.buf.Length) <= ms.buf.Length
    {
      hide Count, PhaseOk, Heap.RootsDone, Heap.Valid, Heap.Closed, EntryOk, FewPushed, Heap.LiveSet;
      marked := marked + {o};
      InvalidOk(h, scanPtr, marked, ms.entries);
      aborted := Finish();
      if !aborted { Recovered(m + {o}); }
    }

    lemma Recovered(from: set<nat>)
      requires Inv() && state == None && ms.entries == [] && from <= marked && just == h.LiveSet(from)
      ensures Quiet() && marked == h.LiveSet(from) && h.Closed(marked) && h.RootsDone(marked, [])
      ensures marked <= h.descr.Keys
    {
      hide PhaseOk, Heap.RootsDone, Heap.Valid, Heap.Closed, EntryOk, Heap.LiveSet;
      InvQuiet();
      h.LiveStaysInside(from, marked);
    }

    /** GC_MARK_FO with the normal mark procedure when the marks are closed: mark the
        descendants of `o`, and `o` itself only when the mark stack overflowed. */
    method MarkDescendants(o: nat) returns (overflow: bool, aborted: bool)
      requires Inv() && state == None && ms.entries == [] && o in h.descr
      modifies this`state, this`scanPtr, this`tooSmall, this`objectsMarked, this`marked,
        this`pushed, this`considered, this`dropped, this`just, ms, ms.buf
      ensures ms.buf == old(ms.buf) || fresh(ms.buf)
      ensures !aborted ==> Inv() && state == None && ms.entries == []
      ensures !aborted ==> marked == old(marked) + h.Descendants(o) + if overflow then {o} else {}
      ensures overflow <==> Overruns(h, old(ms.buf.Length), old(marked), o)
      ensures overflow ==> old(ms.buf.Length) <= |h.Descendants(o) - old(marked)|
      ensures aborted ==> overflow && !FewPushed(h.roots, old(ms.buf.Length))
      ensures old(ms.buf.Length) <= ms.buf.Length && (!overflow ==> ms.buf == old(ms.buf))
    {
      hide *;
      ghost var m := marked;
      InvQuiet();
      InvFacts();
      FromClosed(h, m, o);
      overflow, aborted := MarkFo(o);
      if aborted { return; }
      QuietFacts();
      PlusNone(m + h.Descendants(o));
      assert marked == m + h.Descendants(o) + if overflow then {o} else {};
      assert h.Closed(marked);
      assert h.RootsDone(marked, []);
      Settle();
    }

    /** GC_set_mark_bit; what the object leads to may be unmarked. */
    method SetBit(o: nat)
      modifies this`marked
      ensures marked == old(marked) + {o}
    {
      marked := marked + {o};
    }

    /** The word at `a` is set to the address of `o`. */
    method Unhide(a: nat, o: nat)
      requires a < |h.mem|
      modifies this`h, this`pushed, this`considered, this`dropped
      ensures h == old(h).Unhidden(a, o)
      ensures old(Quiet()) && h.Valid() ==> Quiet()
    {
      Recount();
      h := h.Unhidden(a, o);
    }

    /** The word at `a` is set to a value that designates nothing. */
    method Hide(a: nat)
      requires a < |h.mem|
      modifies this`h, this`pushed, this`considered, this`dropped
      ensures h == old(h).Hidden(a)
      ensures old(Quiet()) && h.Valid() ==> Quiet()
    {
      Recount();
      h := h.Hidden(a);
    }

    /** What was counted concerned the old contents of the heap. */
    ghost method Recount()
      modifies this`pushed, this`considered, this`dropped
      ensures ms.entries == [] ==> pushed == considered + dropped + Count(ms.entries, watch) + Count([], watch)
    {
      pushed, considered, dropped := 0, 0, 0;
    }

    /** Nothing is being marked; says nothing about the marks. */
    ghost predicate Quiet()
      reads this`h, this`state, this`pushed, this`considered, this`dropped, ms, ms.buf
    {
      ms.Valid() && h.Valid() && Balanced([]) && ms.entries == [] && state == None
    }

    lemma QuietFacts()
      requires Quiet()
      ensures h.Valid() && ms.entries == [] && state == None && ms.Valid()
      ensures MARK_STACK_DISCARDS <= ms.buf.Length
    {
    }

    lemma CoreQuiet()
      requires Core() && Balanced([]) && state == None && ms.entries == []
      ensures Quiet()
    {
    }

    lemma InvQuiet()
      requires Inv() && state == None && ms.entries == []
      ensures Quiet() && h.Valid() && h.Closed(marked) && h.RootsDone(marked, [])
    {
      NowClosed();
    }

    /** Marks that were set one by one and are closed again satisfy the invariant. */
    ghost method Settle()
      requires Quiet() && h.Closed(marked) && h.RootsDone(marked, [])
      modifies this`just
      ensures Inv()
    {
      hide PhaseOk, Heap.RootsDone, Heap.Valid, Heap.Closed, EntryOk, Heap.RangeDone;
      just := marked;
      ClosedObjects(h, marked);
      ClosedPhase(h, scanPtr, marked);
    }

    /** Run GC_mark_from until the stack is empty. */
    method DrainAll() returns (overflow: bool)
      requires Core() && Balanced([]) && state == None
      modifies this`state, this`tooSmall, this`objectsMarked, this`marked,
        this`pushed, this`considered, this`dropped, ms, ms.buf
      ensures Core() && Balanced([]) && ms.buf == old(ms.buf) && ms.entries == [] && old(marked) <= marked
      ensures state == if overflow then Invalid else None
      ensures overflow ==> objectsMarked
      ensures !overflow ==> Advance(h, old(marked), old(ms.entries), marked, [])
      ensures Conf(marked, [], overflow) == Run(h, ms.buf.Length, Conf(old(marked), old(ms.entries), false))
    {
      hide *;
      CoreFits(false);
      overflow := false;
      ghost var size, c0, start := ms.buf.Length, Conf(marked, ms.entries, false), Now();
      MovedRefl(h, start);
      var empty := ms.IsEmpty();
      while !empty
        invariant Core() && Balanced([]) && ms.buf == old(ms.buf)
        invariant empty == (ms.entries == [])
        invariant Moved(h, start, Now(), overflow) && old(marked) <= marked
        invariant overflow ==> objectsMarked
        invariant Fits(size, Conf(marked, ms.entries, overflow))
        invariant Run(h, size, Conf(marked, ms.entries, overflow)) == Run(h, size, c0)
        decreases h.descr.Keys - marked, Work(ms.entries)
      {
        ghost var before := Now();
        CoreFits(overflow);
        RunFlag(h, size, Conf(marked, ms.entries, overflow));
        var again := MarkFrom();
        CoreFits(overflow || again);
        CoreFits(again);
        MovedFacts(h, before, Now(), again);
        MovedTrans(h, start, before, Now(), overflow, again);
        RunFlag(h, size, Conf(marked, ms.entries, overflow || again));
        RunFlag(h, size, Conf(marked, ms.entries, again));
        overflow := overflow || again;
        empty := ms.IsEmpty();
      }
      CoreFits(false);
      MovedFacts(h, start, Now(), overflow);
      RunNone(h, size, Conf(marked, [], overflow));
    }

    lemma NowClosed()
      requires Inv() && state == None && ms.entries == []
      ensures h.Closed(marked) && h.RootsDone(marked, [])
    {
      hide PhaseOk, Heap.RootsDone, Heap.Valid, Heap.Closed;
      MarksClosed(h, state, scanPtr, marked);
    }

    lemma NothingWaits()
      requires Inv() && ms.entries == []
      ensures h.Plausible(watch) ==> pushed == considered + dropped
    {
      CountNone(watch);
    }

    lemma InvFacts()
      requires Inv()
      ensures ms.Valid() && INITIAL_MARK_STACK_SIZE <= ms.buf.Length
      ensures marked <= just <= h.descr.Keys && MARK_STACK_DISCARDS <= ms.buf.Length && |ms.entries| <= ms.buf.Length
    {
    }

    /** Step until GC_mark_some reports that marking is complete. */
    method Finish() returns (aborted: bool)
      requires Inv() && state != None
      modifies this`state, this`scanPtr, this`tooSmall, this`objectsMarked, this`marked,
        this`pushed, this`considered, this`dropped, ms, ms.buf
      ensures ms.buf == old(ms.buf) || fresh(ms.buf)
      ensures old(marked) <= marked
      ensures !aborted ==> Inv() && state == None && ms.entries == []
      ensures FewPushed(h.roots, old(ms.buf.Length)) ==> !aborted
      ensures old(ms.buf.Length) <= ms.buf.Length
    {
      hide Core, Balanced, PhaseOk, Heap.RootsDone, Work, Heap.Closed, FewPushed, RootsFull;
      InvFacts();
      while true
        invariant Inv() && state != None && old(marked) <= marked
        invariant ms.buf == old(ms.buf) || fresh(ms.buf)
        invariant old(ms.buf.Length) <= ms.buf.Length
        decreases h.descr.Keys - marked, Phase(), BlocksToScan(), Work(ms.entries)
      {
        InvFacts();
        var available: bool := *;
        if FewPushed(h.roots, old(ms.buf.Length)) { FewerPushed(h.roots, old(ms.buf.Length), ms.buf.Length); }
        var step := MarkSome(available);
        if step == Aborted { return true; }
        InvFacts();
        if step == Finished { return false; }
      }
    }
  }
}
