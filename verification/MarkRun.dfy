/** What GC_mark_from computes, as a function of marks and stack: the words of each range
    are considered in ascending order, and the stack is worked from its top. */
module MarkRun {
  import opened MarkHeap

  /** Marks, waiting ranges, and whether the stack has overflowed so far. */
  datatype Conf = Conf(marked: set<nat>, entries: seq<Mse>, overflow: bool)

  /** What is left to push upon: a full stack first loses its topmost entries. */
  ghost function AfterDiscard(s: seq<Mse>, size: nat): (r: seq<Mse>)
    requires MARK_STACK_DISCARDS <= size && |s| <= size
    ensures |r| < size || size == 0
  {
    if |s| < size then s else s[..size - MARK_STACK_DISCARDS]
  }

  ghost predicate Fits(size: nat, c: Conf) {
    MARK_STACK_DISCARDS <= size && |c.entries| <= size
  }

  /** The word at `a` designates an object that is not marked yet. */
  predicate Finds(h: Heap, marked: set<nat>, a: nat) {
    a in h.target && h.target[a] in h.descr && h.target[a] !in marked
  }

  /** The word at `a` is considered. */
  ghost function Consider(h: Heap, size: nat, c: Conf, a: nat): (r: Conf)
    requires Fits(size, c)
    ensures Fits(size, r)
  {
    if !Finds(h, c.marked, a) then c
    else
      var t := h.target[a];
      if h.descr[t] == 0 then c.(marked := c.marked + {t})
      else Conf(c.marked + {t}, AfterDiscard(c.entries, size) + [Mse(t, h.descr[t])], c.overflow || |c.entries| == size)
  }

  /** The words from `lo` up to `hi` are considered one after the other. */
  ghost function ScanUp(h: Heap, size: nat, c: Conf, lo: nat, hi: nat): (r: Conf)
    requires Fits(size, c)
    ensures Fits(size, r)
    decreases hi - lo
  {
    if lo >= hi then c else ScanUp(h, size, Consider(h, size, c, lo), lo + 1, hi)
  }

  /** How much of a range is scanned at once. */
  function PartLen(e: Mse): nat {
    if e.len >= SPLIT_RANGE_WORDS then SPLIT_RANGE_WORDS - 1 else e.len
  }

  /** The stack without the part of its topmost range that is scanned next. */
  function Rest(s: seq<Mse>): (r: seq<Mse>)
    requires s != []
    ensures |r| <= |s|
  {
    var e, below := s[|s| - 1], s[..|s| - 1];
    if e.len >= SPLIT_RANGE_WORDS then below + [Mse(e.start + PartLen(e), e.len - PartLen(e))] else below
  }

  /** The topmost range, or its first part, is scanned. */
  ghost function Step(h: Heap, size: nat, c: Conf): (r: Conf)
    requires Fits(size, c) && c.entries != []
    ensures Fits(size, r)
  {
    var e := c.entries[|c.entries| - 1];
    ScanUp(h, size, c.(entries := Rest(c.entries)), e.start, e.start + PartLen(e))
  }

  lemma {:induction false} ScanUpFacts(h: Heap, size: nat, c: Conf, lo: nat, hi: nat)
    requires Fits(size, c)
    ensures var r := ScanUp(h, size, c, lo, hi);
      && c.marked <= r.marked <= c.marked + h.descr.Keys
      && (r.marked == c.marked ==> r == c)
    decreases hi - lo
  {
    if lo < hi { ScanUpFacts(h, size, Consider(h, size, c, lo), lo + 1, hi); }
  }

  lemma {:induction false} ScanUpNext(h: Heap, size: nat, c: Conf, lo: nat, a: nat)
    requires Fits(size, c) && lo <= a
    ensures ScanUp(h, size, c, lo, a + 1) == Consider(h, size, ScanUp(h, size, c, lo, a), a)
    decreases a - lo
  {
    if lo < a {
      ScanUpNext(h, size, Consider(h, size, c, lo), lo + 1, a);
    } else {
      assert ScanUp(h, size, c, lo, a) == c;
      var d := Consider(h, size, c, lo);
      assert ScanUp(h, size, d, lo + 1, lo + 1) == d;
    }
  }

  /** One more word has been considered, and `ov` tells whether that overflowed. */
  lemma Considered(h: Heap, size: nat, c: Conf, lo: nat, a: nat, d: Conf, r: Conf)
    requires Fits(size, c) && lo <= a && d == ScanUp(h, size, c, lo, a)
    requires r == Consider(h, size, d.(overflow := false), a)
    ensures ScanUp(h, size, c, lo, a + 1) == r.(overflow := d.overflow || r.overflow)
  {
    ScanUpNext(h, size, c, lo, a);
  }

  lemma PassedOver(h: Heap, size: nat, c: Conf, lo: nat, a: nat)
    requires Fits(size, c) && lo <= a && a !in h.target
    ensures ScanUp(h, size, c, lo, a + 1) == ScanUp(h, size, c, lo, a)
  {
    ScanUpNext(h, size, c, lo, a);
  }

  lemma ScanUpNone(h: Heap, size: nat, c: Conf, lo: nat)
    requires Fits(size, c)
    ensures ScanUp(h, size, c, lo, lo) == c
  {
  }

  /** Whether the stack has overflowed before plays no part in what is scanned. */
  lemma {:induction false} ScanUpFlag(h: Heap, size: nat, c: Conf, lo: nat, hi: nat)
    requires Fits(size, c)
    ensures var r := ScanUp(h, size, c.(overflow := false), lo, hi);
      ScanUp(h, size, c, lo, hi) == r.(overflow := c.overflow || r.overflow)
    decreases hi - lo
  {
    if lo < hi {
      var d := Consider(h, size, c, lo);
      var e := Consider(h, size, c.(overflow := false), lo);
      ScanUpFlag(h, size, d, lo + 1, hi);
      ScanUpFlag(h, size, e, lo + 1, hi);
      assert d.(overflow := false) == e.(overflow := false);
    }
  }

  /** Words that designate nothing at the far end make no difference. */
  lemma {:induction false} ScanUpTail(h: Heap, size: nat, c: Conf, lo: nat, mid: nat, hi: nat)
    requires Fits(size, c) && lo <= mid <= hi && forall a :: mid <= a < hi ==> a !in h.target
    ensures ScanUp(h, size, c, lo, hi) == ScanUp(h, size, c, lo, mid)
    decreases hi - mid
  {
    if mid < hi {
      PassedOver(h, size, c, lo, mid);
      ScanUpTail(h, size, c, lo, mid + 1, hi);
    }
  }

  lemma RestWork(s: seq<Mse>)
    requires s != []
    ensures Work(Rest(s)) < Work(s) || (Work(Rest(s)) == Work(s) && |Rest(s)| < |s|)
  {
    var e, below := s[|s| - 1], s[..|s| - 1];
    assert s == below + [e];
    WorkPush(below, e);
    WorkPush(below, Mse(e.start + PartLen(e), e.len - PartLen(e)));
  }

  lemma StepCloser(h: Heap, size: nat, c: Conf)
    requires Fits(size, c) && c.entries != []
    ensures var r := Step(h, size, c);
      && h.descr.Keys - r.marked <= h.descr.Keys - c.marked
      && (h.descr.Keys - r.marked == h.descr.Keys - c.marked ==>
           Work(r.entries) < Work(c.entries) ||
           (Work(r.entries) == Work(c.entries) && |r.entries| < |c.entries|))
  {
    var e, c' := c.entries[|c.entries| - 1], c.(entries := Rest(c.entries));
    ScanUpFacts(h, size, c', e.start, e.start + PartLen(e));
    RestWork(c.entries);
    var r := Step(h, size, c);
    assert r.marked == c.marked + (r.marked * (h.descr.Keys - c.marked));
    assert h.descr.Keys - r.marked == (h.descr.Keys - c.marked) - r.marked;
  }

  /** Steps are taken until the stack is empty. */
  ghost function Run(h: Heap, size: nat, c: Conf): (r: Conf)
    requires Fits(size, c)
    ensures r.entries == []
    decreases h.descr.Keys - c.marked, Work(c.entries), |c.entries|
  {
    if c.entries == [] then c
    else
      StepCloser(h, size, c);
      Run(h, size, Step(h, size, c))
  }

  /** A step from the top of the stack leaves the outcome of the run unchanged. */
  lemma RunStepped(h: Heap, size: nat, c: Conf, r: Conf)
    requires Fits(size, c) && c.entries != [] && r == Step(h, size, c.(overflow := false))
    ensures Fits(size, r) && Run(h, size, r.(overflow := c.overflow || r.overflow)) == Run(h, size, c)
  {
    StepFlag(h, size, c);
  }

  lemma RunNone(h: Heap, size: nat, c: Conf)
    requires Fits(size, c) && c.entries == []
    ensures Run(h, size, c) == c
  {
  }

  lemma {:induction false} RunFlag(h: Heap, size: nat, c: Conf)
    requires Fits(size, c)
    ensures var r := Run(h, size, c.(overflow := false)); Run(h, size, c) == r.(overflow := c.overflow || r.overflow)
    decreases h.descr.Keys - c.marked, Work(c.entries), |c.entries|
  {
    hide Step;
    if c.entries != [] {
      var d, d0 := Step(h, size, c), Step(h, size, c.(overflow := false));
      StepCloser(h, size, c);
      StepFlag(h, size, c);
      RunFlag(h, size, d);
      if !c.overflow {
        assert c.(overflow := false) == c;
      } else {
        StepCloser(h, size, c.(overflow := false));
        RunFlag(h, size, d0);
        assert d.(overflow := false) == d0.(overflow := false);
      }
    }
  }

  lemma StepFlag(h: Heap, size: nat, c: Conf)
    requires Fits(size, c) && c.entries != []
    ensures var r := Step(h, size, c.(overflow := false)); Step(h, size, c) == r.(overflow := c.overflow || r.overflow)
  {
    var e := c.entries[|c.entries| - 1];
    ScanUpFlag(h, size, c.(entries := Rest(c.entries)), e.start, e.start + PartLen(e));
  }

  // ------------------------------------------------------------ how much a stack must hold

  /** Each stacked range was there before or belongs to an object marked since, and an
      overflow needs more of them than the stack has room for. */
  ghost predicate Paid(size: nat, c: Conf, r: Conf) {
    && c.marked <= r.marked
    && (c.overflow ==> r.overflow)
    && (!r.overflow ==> |r.entries| + |c.marked| <= |c.entries| + |r.marked|)
    && (!c.overflow && r.overflow ==> size + |c.marked| < |c.entries| + |r.marked|)
  }

  lemma PaidTrans(size: nat, c: Conf, d: Conf, r: Conf)
    requires Paid(size, c, d) && Paid(size, d, r)
    ensures Paid(size, c, r)
  {
    Larger(d.marked, r.marked);
  }

  lemma Larger(a: set<nat>, b: set<nat>)
    requires a <= b
    ensures |a| <= |b|
  {
    assert b == a + (b - a);
  }

  lemma {:induction false} ScanUpPaid(h: Heap, size: nat, c: Conf, lo: nat, hi: nat)
    requires Fits(size, c)
    ensures Paid(size, c, ScanUp(h, size, c, lo, hi))
    decreases hi - lo
  {
    if lo < hi {
      var d := Consider(h, size, c, lo);
      ConsiderPaid(h, size, c, lo);
      ScanUpPaid(h, size, d, lo + 1, hi);
      PaidTrans(size, c, d, ScanUp(h, size, c, lo, hi));
    }
  }

  lemma ConsiderPaid(h: Heap, size: nat, c: Conf, a: nat)
    requires Fits(size, c)
    ensures Paid(size, c, Consider(h, size, c, a))
  {
    if Finds(h, c.marked, a) { assert |c.marked + {h.target[a]}| == |c.marked| + 1; }
  }

  lemma {:induction false} RunPaid(h: Heap, size: nat, c: Conf)
    requires Fits(size, c)
    ensures Paid(size, c, Run(h, size, c))
    decreases h.descr.Keys - c.marked, Work(c.entries), |c.entries|
  {
    hide Paid;
    if c.entries == [] {
      PaidNone(size, c);
    } else {
      var e, c' := c.entries[|c.entries| - 1], c.(entries := Rest(c.entries));
      StepCloser(h, size, c);
      ScanUpPaid(h, size, c', e.start, e.start + PartLen(e));
      RestPaid(size, c, Step(h, size, c));
      RunPaid(h, size, Step(h, size, c));
      PaidTrans(size, c, Step(h, size, c), Run(h, size, c));
    }
  }

  lemma PaidNone(size: nat, c: Conf)
    ensures Paid(size, c, c)
  {
  }

  lemma RestPaid(size: nat, c: Conf, r: Conf)
    requires c.entries != [] && Paid(size, c.(entries := Rest(c.entries)), r)
    ensures Paid(size, c, r)
  {
  }

  // ------------------------------------------------------------ root ranges

  /** What pushing one range does, or that the stack is full. */
  datatype Pushing = Went(c: Conf) | Full

  ghost function PushOne(h: Heap, size: nat, c: Conf, r: Root): (p: Pushing)
    requires Fits(size, c)
    ensures p.Went? ==> Fits(size, p.c)
  {
    if r.eager then Went(ScanUp(h, size, c, r.start, r.start + r.len))
    else if r.len == 0 then Went(c)
    else if |c.entries| == size then Full
    else Went(c.(entries := c.entries + [Mse(r.start, r.len)]))
  }

  /** The root ranges from index `k` on, in their order. */
  ghost function PushFrom(h: Heap, size: nat, c: Conf, k: nat): (p: Pushing)
    requires Fits(size, c)
    ensures p.Went? ==> Fits(size, p.c)
    decreases |h.roots| - k
  {
    if k >= |h.roots| then Went(c)
    else
      var p := PushOne(h, size, c, h.roots[k]);
      if p.Full? then Full else PushFrom(h, size, p.c, k + 1)
  }

  lemma PushStepped(h: Heap, size: nat, c: Conf, k: nat, r: Pushing)
    requires Fits(size, c) && k < |h.roots| && r == PushOne(h, size, c.(overflow := false), h.roots[k])
    ensures r.Full? ==> PushFrom(h, size, c, k) == Full
    ensures r.Went? ==>
      PushFrom(h, size, c, k) == PushFrom(h, size, r.c.(overflow := c.overflow || r.c.overflow), k + 1)
  {
    var root := h.roots[k];
    ScanUpFlag(h, size, c, root.start, root.start + root.len);
  }

  /** Going through the root ranges with these marks and this stack finds the stack full. */
  ghost predicate RootsFull(h: Heap, size: nat, marked: set<nat>, entries: seq<Mse>) {
    MARK_STACK_DISCARDS <= size && |entries| <= size && PushFrom(h, size, Conf(marked, entries, false), 0).Full?
  }

  lemma FullIf(h: Heap, size: nat, marked: set<nat>, entries: seq<Mse>)
    requires MARK_STACK_DISCARDS <= size && |entries| <= size
    ensures RootsFull(h, size, marked, entries) <==> PushFrom(h, size, Conf(marked, entries, false), 0).Full?
  {
  }

  lemma PushEnd(h: Heap, size: nat, c: Conf)
    requires Fits(size, c)
    ensures PushFrom(h, size, c, |h.roots|) == Went(c)
  {
  }

  // ------------------------------------------------------------ marking from one object

  /** The scanned part of an object as a stack entry. */
  function OwnRange(h: Heap, o: nat): seq<Mse>
    requires o in h.descr
  {
    if h.descr[o] == 0 then [] else [Mse(o, h.descr[o])]
  }

  /** Marking from `o` alone overflows a stack of that size when `marked` is marked before. */
  ghost predicate Overruns(h: Heap, size: nat, marked: set<nat>, o: nat)
    requires o in h.descr && MARK_STACK_DISCARDS <= size
  {
    Run(h, size, Conf(marked, OwnRange(h, o), false)).overflow
  }

  /** A stack is overrun only when at least as many objects get marked as it has room for. */
  lemma OverrunsNeed(h: Heap, size: nat, marked: set<nat>, o: nat, more: set<nat>)
    requires o in h.descr && MARK_STACK_DISCARDS <= size && Overruns(h, size, marked, o)
    requires Run(h, size, Conf(marked, OwnRange(h, o), false)).marked <= marked + more
    ensures size <= |more - marked|
  {
    var c := Conf(marked, OwnRange(h, o), false);
    RunPaid(h, size, c);
    var m := Run(h, size, c).marked;
    Larger(m, marked + (more - marked));
  }

  // ------------------------------------------------------------ what a run marks

  /** All the words of the ranges are done in `s`. */
  ghost predicate EntriesDone(h: Heap, s: set<nat>, entries: seq<Mse>) {
    forall k :: 0 <= k < |entries| ==> h.RangeDone(s, [], entries[k].start, entries[k].len)
  }

  /** What is new in `s` is scanned. */
  ghost predicate NewScanned(h: Heap, m: set<nat>, s: set<nat>) {
    s <= h.descr.Keys && forall x :: x in s && x !in m ==> h.Scanned(s, [], x)
  }

  lemma EntriesPushed(h: Heap, s: set<nat>, entries: seq<Mse>, size: nat, e: Mse)
    requires EntriesDone(h, s, entries) && h.RangeDone(s, [], e.start, e.len)
    requires MARK_STACK_DISCARDS <= size && |entries| <= size
    ensures EntriesDone(h, s, AfterDiscard(entries, size) + [e])
  {
  }

  lemma {:induction false} ScanUpStaysInside(h: Heap, size: nat, m: set<nat>, s: set<nat>, c: Conf, lo: nat, hi: nat)
    requires Fits(size, c) && m <= c.marked <= s && NewScanned(h, m, s) && EntriesDone(h, s, c.entries)
    requires lo < hi ==> h.RangeDone(s, [], lo, hi - lo)
    ensures var r := ScanUp(h, size, c, lo, hi); c.marked <= r.marked <= s && EntriesDone(h, s, r.entries)
    decreases hi - lo
  {
    hide AfterDiscard, EntriesDone, Heap.RangeDone, NewScanned;
    if lo < hi {
      RangeSplit(h, s, lo, hi);
      if Finds(h, c.marked, lo) {
        var t := h.target[lo];
        NewMember(h, m, s, t);
        if h.descr[t] != 0 { EntriesPushed(h, s, c.entries, size, Mse(t, h.descr[t])); }
      }
      ScanUpStaysInside(h, size, m, s, Consider(h, size, c, lo), lo + 1, hi);
    }
  }

  lemma NewMember(h: Heap, m: set<nat>, s: set<nat>, t: nat)
    requires NewScanned(h, m, s)
    ensures t in s && t !in m ==> t in h.descr && h.RangeDone(s, [], t, h.descr[t])
  {
  }

  lemma RangeSplit(h: Heap, s: set<nat>, lo: nat, hi: nat)
    requires lo < hi && h.RangeDone(s, [], lo, hi - lo)
    ensures h.Done(s, lo) && h.RangeDone(s, [], lo + 1, hi - (lo + 1))
  {
  }

  lemma RestDone(h: Heap, s: set<nat>, entries: seq<Mse>)
    requires entries != [] && EntriesDone(h, s, entries)
    ensures EntriesDone(h, s, Rest(entries))
    ensures var e := entries[|entries| - 1]; h.RangeDone(s, [], e.start, PartLen(e))
  {
    var e := entries[|entries| - 1];
    assert h.RangeDone(s, [], e.start, e.len);
  }

  /** A run marks nothing beyond a set that holds what the ranges and all new members need. */
  lemma {:induction false} RunStaysInside(h: Heap, size: nat, m: set<nat>, s: set<nat>, c: Conf)
    requires Fits(size, c) && m <= c.marked <= s && NewScanned(h, m, s) && EntriesDone(h, s, c.entries)
    ensures Run(h, size, c).marked <= s
    decreases h.descr.Keys - c.marked, Work(c.entries), |c.entries|
  {
    hide EntriesDone, NewScanned;
    if c.entries != [] {
      var e, c' := c.entries[|c.entries| - 1], c.(entries := Rest(c.entries));
      RestDone(h, s, c.entries);
      ScanUpStaysInside(h, size, m, s, c', e.start, e.start + PartLen(e));
      StepCloser(h, size, c);
      RunStaysInside(h, size, m, s, Step(h, size, c));
    }
  }

  // ------------------------------------------------------------ runs on two heaps

  /** Beyond the words of `ws` the heaps designate the same objects, of the same lengths. */
  ghost predicate SameBeyond(h: Heap, h': Heap, ws: set<nat>) {
    forall a :: a !in ws ==>
      && (a in h.target && h.target[a] in h.descr <==> a in h'.target && h'.target[a] in h'.descr)
      && (a in h.target && h.target[a] in h.descr ==>
           h'.target[a] == h.target[a] && h'.descr[h.target[a]] == h.descr[h.target[a]])
  }

  ghost predicate Avoids(entries: seq<Mse>, ws: set<nat>) {
    forall k, a {:trigger entries[k].Has(a)} :: 0 <= k < |entries| && entries[k].Has(a) ==> a !in ws
  }

  /** The words of `ws` belong to no unmarked object. */
  ghost predicate OnlyMarked(h: Heap, m: set<nat>, ws: set<nat>) {
    forall x, a {:trigger x in h.descr, a in ws} :: x in h.descr && x !in m && x <= a < x + h.descr[x] ==> a !in ws
  }

  lemma {:induction false} ScanUpSame(h: Heap, h': Heap, ws: set<nat>, m: set<nat>, size: nat, c: Conf, lo: nat,
                                      hi: nat)
    requires SameBeyond(h, h', ws) && OnlyMarked(h, m, ws)
    requires Fits(size, c) && m <= c.marked && Avoids(c.entries, ws) && forall a :: lo <= a < hi ==> a !in ws
    ensures var r := ScanUp(h, size, c, lo, hi);
      r == ScanUp(h', size, c, lo, hi) && m <= r.marked && Avoids(r.entries, ws)
    decreases hi - lo
  {
    if lo < hi {
      ConsiderSame(h, h', ws, m, size, c, lo);
      hide SameBeyond, OnlyMarked, Avoids, Consider;
      ScanUpSame(h, h', ws, m, size, Consider(h, size, c, lo), lo + 1, hi);
    }
  }

  lemma ConsiderSame(h: Heap, h': Heap, ws: set<nat>, m: set<nat>, size: nat, c: Conf, a: nat)
    requires SameBeyond(h, h', ws) && OnlyMarked(h, m, ws)
    requires Fits(size, c) && m <= c.marked && Avoids(c.entries, ws) && a !in ws
    ensures var r := Consider(h, size, c, a);
      r == Consider(h', size, c, a) && m <= r.marked && Avoids(r.entries, ws)
  {
    if Finds(h, c.marked, a) {
      var t := h.target[a];
      if h.descr[t] != 0 { AvoidsPushed(c.entries, size, Mse(t, h.descr[t]), ws); }
    }
  }

  lemma AvoidsPushed(entries: seq<Mse>, size: nat, e: Mse, ws: set<nat>)
    requires Avoids(entries, ws) && Avoids([e], ws) && MARK_STACK_DISCARDS <= size && |entries| <= size
    ensures Avoids(AfterDiscard(entries, size) + [e], ws)
  {
    forall k, a | 0 <= k < |AfterDiscard(entries, size) + [e]| && (AfterDiscard(entries, size) + [e])[k].Has(a)
      ensures a !in ws
    {
      if k < |AfterDiscard(entries, size)| { assert entries[k].Has(a); } else { assert [e][0].Has(a); }
    }
  }

  /** A run is the same on two heaps that differ only in words of objects marked before. */
  lemma {:induction false} RunSame(h: Heap, h': Heap, ws: set<nat>, m: set<nat>, size: nat, c: Conf)
    requires SameBeyond(h, h', ws) && OnlyMarked(h, m, ws)
    requires Fits(size, c) && m <= c.marked && Avoids(c.entries, ws)
    ensures Run(h, size, c) == Run(h', size, c)
    decreases h.descr.Keys - c.marked, Work(c.entries), |c.entries|
  {
    hide SameBeyond, OnlyMarked;
    if c.entries != [] {
      var e, c' := c.entries[|c.entries| - 1], c.(entries := Rest(c.entries));
      RestAvoids(c.entries, ws);
      hide Avoids;
      ScanUpSame(h, h', ws, m, size, c', e.start, e.start + PartLen(e));
      StepCloser(h, size, c);
      RunSame(h, h', ws, m, size, Step(h, size, c));
    }
  }

  lemma RestAvoids(entries: seq<Mse>, ws: set<nat>)
    requires entries != [] && Avoids(entries, ws)
    ensures Avoids(Rest(entries), ws)
    ensures var e := entries[|entries| - 1]; forall a :: e.start <= a < e.start + PartLen(e) ==> a !in ws
  {
    var e, n := entries[|entries| - 1], |entries| - 1;
    forall a | e.start <= a < e.start + PartLen(e) ensures a !in ws { assert entries[n].Has(a); }
    forall k, a | 0 <= k < |Rest(entries)| && Rest(entries)[k].Has(a) ensures a !in ws {
      assert entries[k].Has(a);
    }
  }
}
