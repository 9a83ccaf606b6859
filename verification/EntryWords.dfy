/** Entries of the finalization table as objects of the heap.  The first word of an entry
    holds the address of its object: hidden while the entry is in the table, so that the
    marker does not see it, and as it is while the entry is queued. */
module EntryWords {
  import opened MarkHeap
  import opened MarkRun
  import opened Lists
  import Marker

  /** Entry `n` is an object, and its first word shows the object it belongs to or does not. */
  ghost predicate EntryAt(h: Heap, key: map<nat, nat>, n: nat, shown: bool) {
    && n in h.descr && h.descr[n] > 0 && n in key && key[n] in h.descr
    && if shown then n in h.target && h.target[n] == key[n] else n !in h.target
  }

  /** `h'` is `h` after the words of the entries `ws` have been unhidden. */
  ghost predicate Shown(h: Heap, h': Heap, key: map<nat, nat>, ws: set<nat>) {
    && h'.descr == h.descr && h'.roots == h.roots && h'.blocks == h.blocks
    && h'.least == h.least && h'.greatest == h.greatest && |h'.mem| == |h.mem|
    && h'.target.Keys == h.target.Keys + ws && ws !! h.target.Keys
    && (forall a :: a in h.target ==> h'.target[a] == h.target[a])
    && (forall n :: n in ws ==>
      n in key && n in h.descr && h.descr[n] > 0 && key[n] in h.descr && h'.target[n] == key[n])
  }

  /** The objects of the entries `ws`. */
  ghost function Keys(key: map<nat, nat>, ws: set<nat>): set<nat> {
    set n | n in ws && n in key :: key[n]
  }

  /** What members of `from` lead to through one or more pointers. */
  ghost function Reached(h: Heap, from: set<nat>): set<nat> {
    set t | t in h.descr && exists o :: o in from && h.ReachesPlus(o, t)
  }

  lemma ReachedHas(h: Heap, from: set<nat>, o: nat)
    requires o in from
    ensures h.Descendants(o) <= Reached(h, from)
  {
  }

  lemma ReachedWithin(h: Heap, from: set<nat>, s: set<nat>)
    requires forall o :: o in from ==> h.Descendants(o) <= s
    ensures Reached(h, from) <= s
  {
    hide Heap.ReachesPlus;
    forall t | t in Reached(h, from) ensures t in s {
      var o :| o in from && h.ReachesPlus(o, t);
      assert t in h.Descendants(o);
    }
  }

  // ------------------------------------------------------------ hiding and unhiding

  lemma ShownNone(h: Heap, key: map<nat, nat>)
    ensures Shown(h, h, key, {})
  {
  }

  lemma ShownTrans(h: Heap, h1: Heap, h2: Heap, key: map<nat, nat>, ws: set<nat>, more: set<nat>)
    requires Shown(h, h1, key, ws) && Shown(h1, h2, key, more)
    ensures Shown(h, h2, key, ws + more)
  {
  }

  /** The heaps differ in the contents of words only. */
  predicate SameObjects(h: Heap, h': Heap) {
    && h'.descr == h.descr && h'.roots == h.roots && h'.blocks == h.blocks
    && h'.least == h.least && h'.greatest == h.greatest && |h'.mem| == |h.mem|
  }

  lemma SameValid(h: Heap, h': Heap)
    requires h.Valid() && SameObjects(h, h')
    requires forall a :: a in h'.target ==> h'.Plausible(a) && h'.target[a] in h'.descr
    ensures h'.Valid()
  {
    forall i | 0 <= i < |h'.blocks| ensures h'.ValidBlock(h'.blocks[i]) {
      BlockSame(h, h', h.blocks[i]) by { assert h.ValidBlock(h.blocks[i]); }
    }
    hide Heap.ValidBlock, Heap.Plausible;
  }

  lemma BlockSame(h: Heap, h': Heap, b: Block)
    requires h.ValidBlock(b) && SameObjects(h, h')
    ensures h'.ValidBlock(b)
  {
  }

  /** The words of the entries `shown` have been unhidden, and then those of `hidden` hidden. */
  ghost predicate Rewritten(h: Heap, h': Heap, key: map<nat, nat>, shown: set<nat>, hidden: set<nat>) {
    && SameObjects(h, h')
    && forall a {:trigger a in h'.target} ::
         && (a in h'.target <==> (a in h.target || a in shown) && a !in hidden)
         && (a in h'.target ==>
              if a in h.target then h'.target[a] == h.target[a] else a in key && h'.target[a] == key[a])
  }

  lemma RewrittenIs(h: Heap, h1: Heap, h': Heap, key: map<nat, nat>, shown: set<nat>, hidden: set<nat>)
    requires Shown(h, h1, key, shown) && Shown(h', h1, key, hidden)
    ensures Rewritten(h, h', key, shown, hidden)
  {
    assert h1.target.Keys == h'.target.Keys + hidden;
  }

  lemma UnhiddenShown(h: Heap, key: map<nat, nat>, n: nat)
    requires h.Valid() && h.Apart() && EntryAt(h, key, n, false)
    ensures n < |h.mem| && Shown(h, h.Unhidden(n, key[n]), key, {n})
    ensures h.Unhidden(n, key[n]).Valid() && h.Unhidden(n, key[n]).Apart()
  {
    hide Heap.Valid;
    UnhiddenValid(h, n, key[n]);
    hide Heap.Apart;
    assert h.Unhidden(n, key[n]).target.Keys == h.target.Keys + {n};
  }

  lemma UnhiddenValid(h: Heap, n: nat, o: nat)
    requires h.Valid() && h.Apart() && n in h.descr && h.descr[n] > 0 && o in h.descr
    ensures n < |h.mem| && h.Unhidden(n, o).Valid() && h.Unhidden(n, o).Apart()
  {
    hide Heap.Valid;
    assert n + h.descr[n] <= |h.mem| && h.least <= o < h.greatest;
    var h' := h.Unhidden(n, o);
    ApartSame(h, h');
    hide Heap.Apart;
    forall a | a in h'.target ensures h'.Plausible(a) && h'.target[a] in h'.descr { TargetOf(h, a); }
    SameValid(h, h');
  }

  lemma ApartSame(h: Heap, h': Heap)
    requires h.Apart() && SameObjects(h, h')
    ensures h'.Apart()
  {
  }

  lemma TargetOf(h: Heap, a: nat)
    requires h.Valid()
    ensures a in h.target ==> h.Plausible(a) && h.target[a] in h.descr
  {
  }

  lemma HiddenShown(h: Heap, key: map<nat, nat>, n: nat)
    requires h.Valid() && h.Apart() && EntryAt(h, key, n, true)
    ensures n < |h.mem| && Shown(h.Hidden(n), h, key, {n})
    ensures h.Hidden(n).Valid() && h.Hidden(n).Apart()
  {
    hide Heap.Valid;
    assert n < |h.mem|;
    HiddenValid(h, n);
    assert (h.target - {n}).Keys + {n} == h.target.Keys;
  }

  lemma HiddenValid(h: Heap, n: nat)
    requires h.Valid() && h.Apart() && n < |h.mem|
    ensures h.Hidden(n).Valid() && h.Hidden(n).Apart()
  {
    hide Heap.Valid;
    var h' := h.Hidden(n);
    forall a | a in h'.target ensures h'.Plausible(a) && h'.target[a] in h'.descr { TargetOf(h, a); }
    SameValid(h, h');
  }

  /** Other entries stay as they are. */
  lemma ShownOthers(h: Heap, h': Heap, key: map<nat, nat>, ws: set<nat>, n: nat, shown: bool)
    requires Shown(h, h', key, ws) && n !in ws
    ensures EntryAt(h, key, n, shown) <==> EntryAt(h', key, n, shown)
  {
  }

  /** All entries are objects: those of the table, `nodes`, hide the objects they belong to,
      those of the queue show them. */
  ghost predicate Laid(h: Heap, key: map<nat, nat>, nodes: set<nat>, queue: seq<nat>) {
    && h.Apart()
    && (forall n :: n in nodes ==> EntryAt(h, key, n, false))
    && (forall n :: n in queue ==> EntryAt(h, key, n, true))
  }

  /** An entry of the table is queued. */
  lemma LaidShown(h: Heap, key: map<nat, nat>, nodes: set<nat>, queue: seq<nat>, n: nat)
    requires h.Valid() && Laid(h, key, nodes, queue) && n in nodes && n !in queue
    ensures n in key && n < |h.mem|
    ensures var h' := h.Unhidden(n, key[n]);
      h'.Valid() && Shown(h, h', key, {n}) && Laid(h', key, nodes - {n}, [n] + queue)
  {
    UnhiddenShown(h, key, n);
    hide Heap.Valid, Heap.Apart;
    var h' := h.Unhidden(n, key[n]);
    forall m | m in nodes - {n} ensures EntryAt(h', key, m, false) { ShownOthers(h, h', key, {n}, m, false); }
    forall m | m in [n] + queue ensures EntryAt(h', key, m, true) {
      if m != n { ShownOthers(h, h', key, {n}, m, true); }
    }
  }

  lemma HiddenEntry(h: Heap, h': Heap, key: map<nat, nat>, n: nat)
    requires Shown(h, h', key, {n})
    ensures EntryAt(h, key, n, false)
  {
    assert n in {n};
  }

  /** An entry of the queue returns to the table. */
  lemma LaidHidden(h: Heap, key: map<nat, nat>, nodes: set<nat>, queue: seq<nat>, k: nat)
    requires h.Valid() && Laid(h, key, nodes, queue) && k < |queue| && Distinct(queue) && queue[k] !in nodes
    ensures queue[k] in key && queue[k] < |h.mem|
    ensures var n := queue[k]; var h' := h.Hidden(n);
      h'.Valid() && Shown(h', h, key, {n}) && Laid(h', key, nodes + {n}, Without(queue, k))
  {
    hide *;
    var n := queue[k];
    LaidParts(h, key, nodes, queue);
    HiddenShown(h, key, n);
    WithoutMembers(queue, k);
    var h' := h.Hidden(n);
    HiddenEntry(h', h, key, n);
    forall m | m in nodes + {n} ensures EntryAt(h', key, m, false) {
      if m != n { ShownOthers(h', h, key, {n}, m, false); }
    }
    forall m | m in Without(queue, k) ensures EntryAt(h', key, m, true) { ShownOthers(h', h, key, {n}, m, true); }
    LaidFrom(h', key, nodes + {n}, Without(queue, k));
  }

  lemma LaidParts(h: Heap, key: map<nat, nat>, nodes: set<nat>, queue: seq<nat>)
    requires Laid(h, key, nodes, queue)
    ensures h.Apart() && forall n :: n in nodes ==> EntryAt(h, key, n, false)
    ensures forall n :: n in queue ==> EntryAt(h, key, n, true)
    ensures forall k :: 0 <= k < |queue| ==> queue[k] in key && EntryAt(h, key, queue[k], true)
  {
    hide Heap.Apart;
    forall k | 0 <= k < |queue| ensures queue[k] in key && EntryAt(h, key, queue[k], true) { assert queue[k] in queue; }
  }

  lemma LaidFewer(h: Heap, key: map<nat, nat>, nodes: set<nat>, fewer: set<nat>, queue: seq<nat>)
    requires fewer <= nodes
    ensures Laid(h, key, nodes, queue) ==> Laid(h, key, fewer, queue)
  {
  }

  lemma LaidFrom(h: Heap, key: map<nat, nat>, nodes: set<nat>, queue: seq<nat>)
    requires h.Apart() && forall n :: n in nodes ==> EntryAt(h, key, n, false)
    requires forall n :: n in queue ==> EntryAt(h, key, n, true)
    ensures Laid(h, key, nodes, queue)
  {
  }

  /** A new entry is made in object `n`. */
  lemma LaidMore(h: Heap, key: map<nat, nat>, nodes: set<nat>, queue: seq<nat>, n: nat, o: nat)
    requires h.Valid() && Laid(h, key, nodes, queue) && n !in nodes && n !in queue
    requires n in h.descr && h.descr[n] > 0 && o in h.descr
    ensures n < |h.mem|
    ensures var h' := h.Hidden(n); h'.Valid() && Laid(h', key[n := o], nodes + {n}, queue)
  {
    hide Heap.Valid;
    assert n < |h.mem|;
    HiddenValid(h, n);
  }

  // ------------------------------------------------------------ what unhiding means for marks

  /** The first word of an entry belongs to no other object. */
  lemma OwnWords(h: Heap, m: set<nat>, ws: set<nat>)
    requires h.Apart() && ws <= h.descr.Keys && ws <= m
    ensures OnlyMarked(h, m, ws)
  {
    forall x, a | x in h.descr && x !in m && x <= a < x + h.descr[x] ensures a !in ws {}
  }

  lemma ShownBeyond(h: Heap, h': Heap, key: map<nat, nat>, ws: set<nat>)
    requires Shown(h, h', key, ws)
    ensures SameBeyond(h, h', ws)
  {
  }

  /** Whether marking from an unmarked object overruns the stack does not depend on the words
      of marked entries. */
  lemma OverrunsShown(h: Heap, h': Heap, key: map<nat, nat>, ws: set<nat>, size: nat, m: set<nat>, o: nat)
    requires h.Apart() && Shown(h, h', key, ws) && ws <= m && o in h.descr && o !in m && MARK_STACK_DISCARDS <= size
    ensures Overruns(h, size, m, o) <==> Overruns(h', size, m, o)
  {
    hide Run;
    OwnWords(h, m, ws);
    ShownBeyond(h, h', key, ws);
    hide Shown, SameBeyond;
    var c := Conf(m, OwnRange(h, o), false);
    forall k, a | 0 <= k < |c.entries| && c.entries[k].Has(a) ensures a !in ws {
      assert o in h.descr;
    }
    assert h'.descr == h.descr by { ShownDescr(h, h', key, ws); }
    RunSame(h, h', ws, m, size, c);
  }

  lemma ShownDescr(h: Heap, h': Heap, key: map<nat, nat>, ws: set<nat>)
    requires Shown(h, h', key, ws)
    ensures h'.descr == h.descr && h'.roots == h.roots && h'.blocks == h.blocks
  {
  }

  /** Marking from an unmarked object adds its descendants in the heap before. */
  lemma OnwardShown(h: Heap, h': Heap, key: map<nat, nat>, ws: set<nat>, m: set<nat>, o: nat)
    requires h.Valid() && h.Apart() && h'.Valid() && Shown(h, h', key, ws)
    requires h.Closed(m) && ws <= m && o in h.descr && o !in m
    ensures m + h'.Onward(m, o) == m + h.Descendants(o)
  {
    var d, s := m + h.Descendants(o), m + h'.Onward(m, o);
    h.DescendantsClosed(m, o);
    h'.OnwardDone(m, o);
    OwnWords(h, m, ws);
    ShownDescr(h, h', key, ws);
    hide Heap.Valid, Heap.Onward, Heap.Descendants, Heap.Apart;
    forall x | x in d && x !in m ensures h'.Scanned(d, [], x) {
      assert h.Scanned(d, [], x);
      BeyondDone(h, h', key, ws, m, d, x);
    }
    BeyondDone(h, h', key, ws, m, d, o);
    h'.OnwardStaysInside(m, o, d);
    forall x | x in s ensures h.RangeDone(s, [], x, h.descr[x]) {
      if x in m {
        assert h.Scanned(m, [], x);
        h.RangeDoneMore(m, s, x, h.descr[x]);
      } else {
        assert h'.Scanned(s, [], x);
        BeyondDone(h, h', key, ws, m, s, x);
      }
    }
    h.ClosedFromRanges(s);
    BeyondDone(h, h', key, ws, m, s, o);
    h.DescendantsStayInside(s, o);
  }

  /** The words of an unmarked object are the same in both heaps. */
  lemma BeyondDone(h: Heap, h': Heap, key: map<nat, nat>, ws: set<nat>, m: set<nat>, s: set<nat>, x: nat)
    requires Shown(h, h', key, ws) && OnlyMarked(h, m, ws) && x in h.descr && x !in m
    ensures h.RangeDone(s, [], x, h.descr[x]) <==> h'.RangeDone(s, [], x, h'.descr[x])
  {
    forall a | x <= a < x + h.descr[x] ensures h.Done(s, a) <==> h'.Done(s, a) {}
  }

  /** Marks that hold the objects of the entries are closed in both heaps or in neither. */
  lemma ClosedShown(h: Heap, h': Heap, key: map<nat, nat>, ws: set<nat>, m: set<nat>)
    requires Shown(h, h', key, ws) && Keys(key, ws) <= m
    ensures h.Closed(m) <==> h'.Closed(m)
    ensures h.RootsDone(m, []) <==> h'.RootsDone(m, [])
  {
    forall start, len ensures h.RangeDone(m, [], start, len) <==> h'.RangeDone(m, [], start, len) {
      DoneShown(h, h', key, ws, m, start, len);
    }
    forall o | o in h.descr ensures h.Scanned(m, [], o) <==> h'.Scanned(m, [], o) {}
  }

  lemma DoneShown(h: Heap, h': Heap, key: map<nat, nat>, ws: set<nat>, m: set<nat>, start: nat, len: nat)
    requires Shown(h, h', key, ws) && Keys(key, ws) <= m
    ensures h.RangeDone(m, [], start, len) <==> h'.RangeDone(m, [], start, len)
  {
    forall a: nat ensures h.Done(m, a) <==> h'.Done(m, a) {
      if a in ws { assert key[a] in Keys(key, ws); }
    }
  }

  /** Everything that is marked after starting over once an unhidden entry's object has
      overflowed the stack: the objects of all unhidden entries and what they lead to. */
  lemma LiveShown(h: Heap, h': Heap, key: map<nat, nat>, ws: set<nat>, m: set<nat>, o: nat)
    requires h.Valid() && h'.Valid() && Shown(h, h', key, ws) && h.Closed(m) && h.RootsDone(m, []) && ws <= m
    requires o in Keys(key, ws)
    ensures
      var s := m + Keys(key, ws) + Reached(h, Keys(key, ws));
      h'.LiveSet(m + {o}) == s && h.Closed(s) && h.RootsDone(s, [])
  {
    hide *;
    var ks, l := Keys(key, ws), h'.LiveSet(m + {o});
    var s := m + ks + Reached(h, ks);
    ShownDescr(h, h', key, ws);
    KeysObjects(h, h', key, ws);
    Marker.ClosedObjects(h, m);
    AddedClosed(h, m, ks);
    ClosedShown(h, h', key, ws, s);
    h'.LiveSetClosed(m + {o});
    h'.LiveHas(m + {o});
    h'.LiveStaysInside(m + {o}, s);
    ClosedIn(h', l, key, ws, h);
    ClosedShown(h, h', key, ws, l);
    forall k | k in ks ensures h.Descendants(k) <= l {
      Marker.ClosedMember(h, l, k);
      h.DescendantsStayInside(l, k);
    }
    ReachedWithin(h, ks, l);
  }

  lemma KeysObjects(h: Heap, h': Heap, key: map<nat, nat>, ws: set<nat>)
    requires Shown(h, h', key, ws)
    ensures Keys(key, ws) <= h.descr.Keys
  {
  }

  lemma ClosedIn(h': Heap, l: set<nat>, key: map<nat, nat>, ws: set<nat>, h: Heap)
    requires Shown(h, h', key, ws) && h'.Closed(l) && ws <= l
    ensures Keys(key, ws) <= l
  {
    forall k | k in Keys(key, ws) ensures k in l {
      var n :| n in ws && n in key && key[n] == k;
      assert h'.Scanned(l, [], n) && h'.Done(l, n);
    }
  }

  /** Closed marks stay closed when objects are added together with all they lead to. */
  lemma AddedClosed(h: Heap, m: set<nat>, ks: set<nat>)
    requires h.Valid() && h.Closed(m) && h.RootsDone(m, []) && ks <= h.descr.Keys
    ensures var s := m + ks + Reached(h, ks); h.Closed(s) && h.RootsDone(s, [])
  {
    var s := m + ks + Reached(h, ks);
    forall x | x in s ensures h.RangeDone(s, [], x, h.descr[x]) {
      if x in m {
        assert h.Scanned(m, [], x);
        h.RangeDoneMore(m, s, x, h.descr[x]);
      } else {
        forall a | x <= a < x + h.descr[x] ensures h.Done(s, a) {
          var o := if x in ks then x else var o :| o in ks && h.ReachesPlus(o, x); o;
          ReachedHas(h, ks, o);
          h.DescendantWord(s, o, x, a);
          assert s + h.Descendants(o) == s;
        }
      }
    }
    h.ClosedFromRanges(s);
    forall i | 0 <= i < |h.roots| ensures h.RangeDone(s, [], h.roots[i].start, h.roots[i].len) {
      h.RangeDoneMore(m, s, h.roots[i].start, h.roots[i].len);
    }
  }
}
