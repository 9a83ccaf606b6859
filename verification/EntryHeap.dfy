/** A heap in which there is room for entries of the finalization table: objects that a root
    range designates, and a spare object to which nothing leads. */
module EntryHeap {
  import opened MarkHeap
  import opened MarkRun
  import opened EntryWords

  /** A heap without roots whose objects lie side by side. */
  ghost predicate Plain(h: Heap) {
    && h.Valid() && h.roots == [] && |h.mem| > 0
    && (forall o :: o in h.descr ==> o < |h.mem|)
    && (forall o, p :: o in h.descr && p in h.descr && o < p ==> o + h.descr[o] <= p)
    && (forall a :: a in h.target ==> h.mem[a] < |h.mem|)
  }

  /** The block number behind the last block. */
  function Top(h: Heap): nat {
    if h.blocks == [] then 1 else h.blocks[|h.blocks| - 1].start + h.blocks[|h.blocks| - 1].length
  }

  function Entry(h: Heap, i: nat): nat {
    |h.mem| + i
  }

  function Spare(h: Heap, k: nat): nat {
    |h.mem| + 2 * k
  }

  predicate Within(lo: nat, a: nat, hi: nat) {
    lo <= a < hi
  }

  function Span(lo: nat, hi: nat): set<nat> {
    set a: nat | a < hi && Within(lo, a, hi)
  }

  function Entries(h: Heap, k: nat): set<nat> {
    Span(|h.mem|, |h.mem| + k)
  }

  function RootWords(h: Heap, k: nat): set<nat> {
    Span(|h.mem| + k, |h.mem| + 2 * k)
  }

  function NewObjects(h: Heap, k: nat): set<nat> {
    Entries(h, k) + {Spare(h, k)}
  }

  function Before(a: nat, k: nat): nat {
    if k <= a then a - k else 0
  }

  /** `k` entries follow the memory of `h`, then the root words that designate them, then the
      spare object.  The words of the entries and of the spare object designate nothing. */
  function Extended(h: Heap, k: nat): Heap {
    var n := |h.mem|;
    var total := n + 2 * k + 1;
    Heap(h.mem + seq(k, _ => total) + seq(k, i requires 0 <= i => n + i) + [total],
         0, total,
         map a | a in h.target.Keys + RootWords(h, k) :: if a in RootWords(h, k) then Before(a, k) else h.target[a],
         map o | o in h.descr.Keys + NewObjects(h, k) :: if o in NewObjects(h, k) then 1 else h.descr[o],
         h.blocks + [NewBlock(h, k)],
         [Root(n + k, k, false)])
  }

  /** Heap `e` is such an extension. */
  ghost predicate Extends(h: Heap, k: nat, e: Heap) {
    var n := |h.mem|;
    && |e.mem| == n + 2 * k + 1 && e.least == 0 && e.greatest == |e.mem| && e.roots == [Root(n + k, k, false)]
    && (forall a {:trigger a in e.target} :: a in e.target <==> a in h.target || Within(n + k, a, n + 2 * k))
    && (forall a :: a in h.target ==>
      a < n && e.mem[a] < |e.mem| && e.target[a] == h.target[a] && h.target[a] in h.descr)
    && (forall a: nat :: Within(n + k, a, n + 2 * k) ==> e.mem[a] == a - k && e.target[a] == a - k)
    && (forall a: nat :: Within(n, a, n + k) ==> e.mem[a] == e.greatest)
    && (forall o {:trigger o in e.descr} :: o in e.descr <==> o in h.descr || Within(n, o, n + k) || o == n + 2 * k)
    && (forall o :: o in h.descr ==> o < n && o + h.descr[o] <= n && e.descr[o] == h.descr[o])
    && (forall o: nat :: Within(n, o, n + k) || o == n + 2 * k ==> o in e.descr && e.descr[o] == 1)
    && e.blocks == h.blocks + [NewBlock(h, k)]
  }

  lemma ExtendedIs(h: Heap, k: nat)
    requires Plain(h)
    ensures Extends(h, k, Extended(h, k))
  {
    hide Plain, Heap.Valid, NewBlock, Extended, NewObjects, RootWords, Within;
    PlainInside(h);
    ExtendedTargets(h, k);
    ExtendedDescr(h, k);
  }

  lemma PlainInside(h: Heap)
    requires Plain(h)
    ensures forall a :: a in h.target ==> a < |h.mem| && h.target[a] in h.descr && h.mem[a] < |h.mem|
    ensures forall o :: o in h.descr ==> o < |h.mem| && o + h.descr[o] <= |h.mem|
  {
    TargetsInside(h);
  }

  lemma ExtendedTargets(h: Heap, k: nat)
    requires forall a :: a in h.target ==> a < |h.mem| && h.target[a] in h.descr && h.mem[a] < |h.mem|
    ensures var e, n := Extended(h, k), |h.mem|;
      && |e.mem| == n + 2 * k + 1
      && (forall a {:trigger a in e.target} :: a in e.target <==> a in h.target || Within(n + k, a, n + 2 * k))
      && (forall a :: a in h.target ==> e.mem[a] < |e.mem| && e.target[a] == h.target[a])
      && (forall a: nat :: Within(n + k, a, n + 2 * k) ==> e.mem[a] == a - k && e.target[a] == a - k)
      && (forall a: nat :: Within(n, a, n + k) ==> e.mem[a] == e.greatest)
  {
    hide NewBlock, NewObjects;
  }

  lemma ExtendedDescr(h: Heap, k: nat)
    requires forall o :: o in h.descr ==> o < |h.mem|
    ensures var e, n := Extended(h, k), |h.mem|;
      && e.least == 0 && e.greatest == n + 2 * k + 1 && e.roots == [Root(n + k, k, false)]
      && e.blocks == h.blocks + [NewBlock(h, k)]
      && (forall o {:trigger o in e.descr} :: o in e.descr <==> o in h.descr || Within(n, o, n + k) || o == n + 2 * k)
      && (forall o :: o in h.descr ==> e.descr[o] == h.descr[o])
      && (forall o: nat :: Within(n, o, n + k) || o == n + 2 * k ==> o in e.descr && e.descr[o] == 1)
  {
    hide NewBlock, RootWords;
  }

  lemma TargetsInside(h: Heap)
    requires h.Valid()
    ensures forall a :: a in h.target ==> a < |h.mem| && h.target[a] in h.descr
    ensures forall o :: o in h.descr ==> o + h.descr[o] <= |h.mem|
  {
    hide Heap.ValidBlock;
  }

  function NewBlock(h: Heap, k: nat): Block {
    Block(Top(h), 1, Normal, 1, seq(k, i requires 0 <= i => |h.mem| + i) + [Spare(h, k)])
  }

  lemma NewBlockHas(h: Heap, k: nat)
    ensures forall o :: o in NewBlock(h, k).objs <==> o in NewObjects(h, k)
  {
    var objs := NewBlock(h, k).objs;
    forall o | o in NewObjects(h, k) ensures o in objs {
      if o < |h.mem| + k { assert objs[o - |h.mem|] == o; } else { assert objs[k] == o; }
    }
  }

  lemma ExtendedValid(h: Heap, k: nat)
    requires Plain(h) && k < MAX_OBJS_PER_BLOCK
    ensures Extended(h, k).Valid() && Extended(h, k).Apart()
  {
    ExtendedIs(h, k);
    ExtendedBlocks(h, k);
    ExtendedApart(h, k, Extended(h, k));
    ExtendedWords(h, k, Extended(h, k));
    hide Extended, Heap.ValidBlock, Plain, Extends, Heap.Plausible;
  }

  lemma ExtendedWords(h: Heap, k: nat, e: Heap)
    requires Extends(h, k, e)
    ensures forall a :: a in e.target ==> e.Plausible(a) && e.target[a] in e.descr
    ensures forall o :: o in e.descr ==> o + e.descr[o] <= |e.mem|
    ensures forall i :: 0 <= i < |e.roots| ==> e.roots[i].start + e.roots[i].len <= |e.mem|
  {
    hide NewBlock;
  }

  lemma ExtendedApart(h: Heap, k: nat, e: Heap)
    requires Plain(h) && Extends(h, k, e)
    ensures e.Apart()
  {
    hide Heap.Valid, NewBlock;
  }

  lemma ExtendedBlocks(h: Heap, k: nat)
    requires Plain(h) && k < MAX_OBJS_PER_BLOCK
    ensures var e := Extended(h, k);
      && (forall i :: 0 <= i < |e.blocks| ==> e.ValidBlock(e.blocks[i]))
      && (forall i, j :: 0 <= i < j < |e.blocks| ==> e.blocks[i].start + e.blocks[i].length <= e.blocks[j].start)
      && (forall o :: o in e.descr ==> exists i :: 0 <= i < |e.blocks| && o in e.blocks[i].objs)
      && (forall b, c, o :: b in e.blocks && c in e.blocks && o in b.objs && o in c.objs ==> b == c)
  {
    ExtendedIs(h, k);
    var e := Extended(h, k);
    hide Extended, Top, Heap.ValidBlock, NewBlock;
    ExtendedBlocksValid(h, k, e);
    forall i, j | 0 <= i < j < |e.blocks| ensures e.blocks[i].start + e.blocks[i].length <= e.blocks[j].start {
      BlocksInOrder(h, k, e, i, j);
    }
    forall o | o in e.descr ensures exists i :: 0 <= i < |e.blocks| && o in e.blocks[i].objs { ObjectHeld(h, k, e, o); }
    forall b, c, o | b in e.blocks && c in e.blocks && o in b.objs && o in c.objs ensures b == c {
      HeldOnce(h, k, e, b, c, o);
    }
    hide Extends, Plain;
  }

  lemma ExtendedBlocksValid(h: Heap, k: nat, e: Heap)
    requires Plain(h) && Extends(h, k, e) && k < MAX_OBJS_PER_BLOCK
    ensures forall i :: 0 <= i < |e.blocks| ==> e.ValidBlock(e.blocks[i])
  {
    hide Heap.ValidBlock, NewBlock;
    forall i | 0 <= i < |e.blocks| ensures e.ValidBlock(e.blocks[i]) {
      if i < |h.blocks| { OldBlock(h, k, e, i); } else { NewBlockValid(h, k, e); }
    }
  }

  lemma BlocksInOrder(h: Heap, k: nat, e: Heap, i: nat, j: nat)
    requires Plain(h) && Extends(h, k, e) && i < j < |e.blocks|
    ensures e.blocks[i].start + e.blocks[i].length <= e.blocks[j].start
  {
    hide NewBlock, Heap.ValidBlock;
    if j == |h.blocks| { BelowTop(h, i, k); }
  }

  lemma ObjectHeld(h: Heap, k: nat, e: Heap, o: nat)
    requires Plain(h) && Extends(h, k, e) && o in e.descr
    ensures exists i :: 0 <= i < |e.blocks| && o in e.blocks[i].objs
  {
    NewBlockHas(h, k);
    hide NewBlock, Heap.ValidBlock;
    if o in NewObjects(h, k) {
      assert o in e.blocks[|h.blocks|].objs;
    } else {
      var i :| 0 <= i < |h.blocks| && o in h.blocks[i].objs;
      assert o in e.blocks[i].objs;
    }
  }

  lemma HeldOnce(h: Heap, k: nat, e: Heap, b: Block, c: Block, o: nat)
    requires Plain(h) && e.blocks == h.blocks + [NewBlock(h, k)]
    requires b in e.blocks && c in e.blocks && o in b.objs && o in c.objs
    ensures b == c
  {
    NewBlockHas(h, k);
    if b in h.blocks { OldObjects(h, k, b, o); }
    if c in h.blocks { OldObjects(h, k, c, o); }
    hide NewBlock, NewObjects, Heap.ValidBlock;
  }

  lemma BelowTop(h: Heap, i: nat, k: nat)
    requires Plain(h) && i < |h.blocks|
    ensures h.blocks[i].start + h.blocks[i].length <= Top(h) == NewBlock(h, k).start
  {
    var n := |h.blocks|;
    assert h.ValidBlock(h.blocks[n - 1]);
  }

  lemma NewBlockValid(h: Heap, k: nat, e: Heap)
    requires Plain(h) && Extends(h, k, e) && k < MAX_OBJS_PER_BLOCK
    ensures e.ValidBlock(NewBlock(h, k))
  {
    NewBlockHas(h, k);
    if h.blocks != [] { assert h.ValidBlock(h.blocks[|h.blocks| - 1]); }
    hide Heap.Valid;
  }

  lemma OldBlock(h: Heap, k: nat, e: Heap, i: nat)
    requires Plain(h) && Extends(h, k, e) && i < |h.blocks|
    ensures e.ValidBlock(h.blocks[i])
  {
    assert h.ValidBlock(h.blocks[i]);
    hide Heap.Valid, NewBlock;
  }

  lemma OldObjects(h: Heap, k: nat, b: Block, o: nat)
    requires Plain(h) && b in h.blocks && o in b.objs
    ensures o in h.descr && o !in NewObjects(h, k)
  {
    var i :| 0 <= i < |h.blocks| && h.blocks[i] == b;
    assert h.ValidBlock(h.blocks[i]);
  }

  /** Only the entries are live. */
  lemma OnlyEntriesLive(h: Heap, k: nat)
    requires Plain(h) && k < MAX_OBJS_PER_BLOCK
    ensures Extended(h, k).LiveSet({}) == Entries(h, k)
  {
    ExtendedIs(h, k);
    var e, s := Extended(h, k), Entries(h, k);
    EntriesClosed(h, k, e);
    hide Extended, Plain;
    e.LiveStaysInside({}, s);
    forall o | o in s ensures e.Live({}, o) {
      assert Within(|h.mem| + k, o + k, |h.mem| + 2 * k);
      assert e.roots[0].start <= o + k < e.roots[0].start + e.roots[0].len && o + k in e.target && e.target[o + k] == o;
      assert e.RootTarget(o);
      e.ReachRefl(o);
    }
  }

  lemma EntriesClosed(h: Heap, k: nat, e: Heap)
    requires Extends(h, k, e)
    ensures e.Closed(Entries(h, k)) && e.RootsDone(Entries(h, k), [])
  {
    var s := Entries(h, k);
    hide NewBlock;
    forall o | o in s ensures e.RangeDone(s, [], o, e.descr[o]) {
      forall a | o <= a < o + e.descr[o] ensures e.Done(s, a) {}
    }
    e.ClosedFromRanges(s);
    forall i | 0 <= i < |e.roots| ensures e.RangeDone(s, [], e.roots[i].start, e.roots[i].len) {
      forall a | e.roots[i].start <= a < e.roots[i].start + e.roots[i].len ensures e.Done(s, a) {
        assert Within(|h.mem| + k, a, |h.mem| + 2 * k);
      }
    }
  }

  /** What is added makes no difference to a run from an object of the heap. */
  lemma ExtendedOverruns(h: Heap, k: nat, e: Heap, size: nat, m: set<nat>, o: nat)
    requires Extends(h, k, e) && o in h.descr && MARK_STACK_DISCARDS <= size
    ensures o in e.descr && (Overruns(h, size, m, o) <==> Overruns(e, size, m, o))
  {
    hide NewBlock, Run;
    var ws := RootWords(h, k);
    assert SameBeyond(h, e, ws);
    assert OnlyMarked(h, m, ws);
    var c := Conf(m, OwnRange(h, o), false);
    assert Avoids(c.entries, ws);
    RunSame(h, e, ws, m, size, c);
  }

  /** Nothing leads to what no word designates. */
  lemma Undesignated(h: Heap, o: nat, t: nat)
    requires forall a :: a in h.target ==> h.target[a] != t
    ensures !h.ReachesPlus(o, t)
  {
    forall x ensures !h.Edge(x, t) {}
    if h.ReachesPlus(o, t) {
      var m :| h.Edge(o, m) && h.Reaches(m, t);
      var p :| h.PathFromTo(p, m, t);
      hide Heap.Edge;
      LastStep(h, p);
    }
  }

  lemma LastStep(h: Heap, p: seq<nat>)
    requires h.Path(p)
    ensures |p| > 1 ==> h.Edge(p[|p| - 2], p[|p| - 1])
  {
    hide Heap.Edge;
    if |p| > 1 { assert h.Edge(p[|p| - 2], p[|p| - 2 + 1]); }
  }

  /** An object without words that designate anything leads nowhere. */
  lemma LeadsNowhere(h: Heap, o: nat)
    requires o in h.descr && forall a :: o <= a < o + h.descr[o] ==> a !in h.target
    ensures h.Descendants(o) == {}
  {
    assert forall t :: !h.Edge(o, t);
    hide Heap.Edge;
  }
}
