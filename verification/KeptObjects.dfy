/** What is marked when every finalizable object is kept: the objects one after the other, each
    with what it leads to, in a heap that changes as their entries are queued. */
module KeptObjects {
  import opened MarkHeap
  import opened MarkRun
  import opened Lists
  import opened EntryWords
  import Marker

  /** The words of the objects `objs`, and of everything in `s` beyond `m`, lead into `s`. */
  ghost predicate Spread(h: Heap, m: set<nat>, objs: set<nat>, s: set<nat>) {
    && m <= s <= h.descr.Keys && objs <= s
    && (forall o :: o in objs ==> h.Scanned(s, [], o))
    && (forall o :: o in s && o !in m ==> h.Scanned(s, [], o))
  }

  /** The least such set. */
  ghost predicate Least(h: Heap, m: set<nat>, objs: set<nat>, s: set<nat>) {
    Spread(h, m, objs, s) && forall s' :: Spread(h, m, objs, s') ==> s <= s'
  }

  /** Nothing is in it but `m`, the objects, and what they lead to. */
  lemma LeastReached(h: Heap, m: set<nat>, objs: set<nat>, s: set<nat>)
    requires h.Valid() && Least(h, m, objs, s)
    ensures s <= m + objs + Reached(h, objs)
  {
    var r := m + objs + Reached(h, objs);
    forall o | o in objs || (o in r && o !in m) ensures o in h.descr && h.Scanned(r, [], o) {
      ReachedDone(h, m, objs, o);
    }
    assert Spread(h, m, objs, r);
  }

  lemma ReachedDone(h: Heap, m: set<nat>, objs: set<nat>, x: nat)
    requires h.Valid() && objs <= h.descr.Keys && (x in objs || x in Reached(h, objs))
    ensures x in h.descr && h.Scanned(m + objs + Reached(h, objs), [], x)
  {
    var r := m + objs + Reached(h, objs);
    var o := if x in objs then x else var o :| o in objs && h.ReachesPlus(o, x); o;
    ReachedHas(h, objs, o);
    assert x in h.descr && (x == o || x in h.Descendants(o));
    TargetsObjects(h);
    hide Heap.Valid, Reached, Heap.Descendants, Heap.ReachesPlus;
    forall a | x <= a < x + h.descr[x] ensures h.Done(r, a) {
      h.DescendantWord(r, o, x, a);
      assert r + h.Descendants(o) == r;
    }
  }

  lemma TargetsObjects(h: Heap)
    requires h.Valid()
    ensures h.TargetsAreObjects()
  {
  }

  // ------------------------------------------------------- one object more

  lemma DoneFewer(h: Heap, h': Heap, key: map<nat, nat>, ws: set<nat>, s: set<nat>, o: nat)
    requires Shown(h, h', key, ws) && o in h.descr && h'.Scanned(s, [], o)
    ensures h.Scanned(s, [], o)
  {
    forall a | o <= a < o + h.descr[o] ensures h.Done(s, a) { assert h'.Done(s, a); }
  }

  /** With a word hidden again no more is asked of a set. */
  lemma SpreadFewer(h: Heap, h': Heap, key: map<nat, nat>, ws: set<nat>, m: set<nat>, objs: set<nat>, o: nat,
                    s: set<nat>)
    requires Shown(h, h', key, ws) && Spread(h', m, objs + {o}, s)
    ensures Spread(h, m, objs, s)
  {
    forall x | x in s && (x in objs || x !in m) ensures h.Scanned(s, [], x) { DoneFewer(h, h', key, ws, s, x); }
  }

  lemma DoneMore(h: Heap, h': Heap, key: map<nat, nat>, n: nat, s: set<nat>, s': set<nat>, x: nat)
    requires Shown(h, h', key, {n}) && n in key && key[n] in s' && s <= s' && x in h.descr && h.Scanned(s, [], x)
    ensures h'.Scanned(s', [], x)
  {
    hide Shown;
    assert Keys(key, {n}) == {key[n]};
    h.RangeDoneMore(s, s', x, h.descr[x]);
    ShownDescr(h, h', key, {n});
    DoneShown(h, h', key, {n}, s', x, h.descr[x]);
  }

  /** Keeping one object more without an overflow. */
  lemma LeastNext(h: Heap, h': Heap, key: map<nat, nat>, n: nat, m0: set<nat>, objs: set<nat>, m: set<nat>)
    requires h.Valid() && Shown(h, h', key, {n}) && n in key && key[n] in h.descr && Least(h, m0, objs, m)
    ensures Least(h', m0, objs + {key[n]}, m + h.Onward(m, key[n]) + {key[n]})
  {
    hide Shown, Heap.Valid, Heap.Onward, Heap.Scanned;
    var o := key[n];
    var s, s' := m + h.Onward(m, o), m + h.Onward(m, o) + {o};
    ShownDescr(h, h', key, {n});
    h.OnwardDone(m, o);
    OwnScanned(h, s, o);
    forall x | x in objs + {o} || (x in s' && x !in m0) ensures x in h.descr && h'.Scanned(s', [], x) {
      if x == o {
        DoneMore(h, h', key, n, s, s', x);
      } else if x in m {
        DoneMore(h, h', key, n, m, s', x);
      } else {
        DoneMore(h, h', key, n, s, s', x);
      }
    }
    forall t | Spread(h', m0, objs + {o}, t) ensures s' <= t {
      SpreadFewer(h, h', key, {n}, m0, objs, o, t);
      DoneFewer(h, h', key, {n}, t, o);
      forall x | x in t && x !in m ensures h.Scanned(t, [], x) { DoneFewer(h, h', key, {n}, t, x); }
      OwnRange(h, t, o);
      h.OnwardStaysInside(m, o, t);
    }
  }

  lemma OwnScanned(h: Heap, s: set<nat>, o: nat)
    requires o in h.descr && h.RangeDone(s, [], o, h.descr[o])
    ensures h.Scanned(s, [], o)
  {
  }

  lemma OwnRange(h: Heap, s: set<nat>, o: nat)
    requires o in h.descr && h.Scanned(s, [], o)
    ensures h.RangeDone(s, [], o, h.descr[o])
  {
  }

  lemma LeastStart(h: Heap, m: set<nat>)
    requires m <= h.descr.Keys
    ensures Least(h, m, {}, m)
  {
  }

  /** A set closed after a word has been unhidden was closed before. */
  lemma ClosedFewer(h: Heap, h': Heap, key: map<nat, nat>, ws: set<nat>, s: set<nat>)
    requires Shown(h, h', key, ws) && h'.Closed(s) && h'.RootsDone(s, [])
    ensures h.Closed(s) && h.RootsDone(s, [])
  {
    forall o | o in s ensures h.Scanned(s, [], o) { DoneFewer(h, h', key, ws, s, o); }
    forall i | 0 <= i < |h.roots| ensures h.RangeDone(s, [], h.roots[i].start, h.roots[i].len) {
      assert h'.RangeDone(s, [], h'.roots[i].start, h'.roots[i].len);
      forall a | h.roots[i].start <= a < h.roots[i].start + h.roots[i].len ensures h.Done(s, a) {
        assert h'.Done(s, a);
      }
    }
  }

  lemma ClosedSpread(h: Heap, m: set<nat>, objs: set<nat>, s: set<nat>)
    requires h.Closed(s) && m <= s && objs <= s
    ensures Spread(h, m, objs, s)
  {
  }

  /** The marks so far: as few as can be, or after an overflow all that is live then. */
  ghost predicate KeptSet(h: Heap, m0: set<nat>, objs: set<nat>, overflowed: bool, m: set<nat>) {
    if overflowed then m == h.LiveSet(m0 + objs) else Least(h, m0, objs, m)
  }

  lemma KeptSetWithin(h: Heap, m0: set<nat>, objs: set<nat>, overflowed: bool, m: set<nat>, s: set<nat>)
    requires KeptSet(h, m0, objs, overflowed, m) && h.Closed(s) && h.RootsDone(s, []) && m0 <= s && objs <= s
    ensures m <= s
  {
    hide Heap.LiveSet, Heap.Closed, Heap.RootsDone, Spread;
    if overflowed { h.LiveStaysInside(m0 + objs, s); } else { ClosedSpread(h, m0, objs, s); }
  }

  lemma KeptSetHas(h: Heap, m0: set<nat>, objs: set<nat>, overflowed: bool, m: set<nat>)
    requires KeptSet(h, m0, objs, overflowed, m) && h.Valid() && m0 <= h.descr.Keys && objs <= h.descr.Keys
    ensures m0 + objs <= m <= h.descr.Keys
    ensures overflowed ==> h.Closed(m) && h.RootsDone(m, [])
  {
    hide Heap.LiveSet, Heap.Closed, Heap.RootsDone, Heap.Scanned, Heap.Valid;
    if overflowed {
      h.LiveHas(m0 + objs);
      h.LiveSetClosed(m0 + objs);
      Marker.ClosedObjects(h, m);
    }
  }

  /** Keeping one object more when the stack overflows, or has done so. */
  lemma KeptNext(h: Heap, h': Heap, key: map<nat, nat>, n: nat, m0: set<nat>, objs: set<nat>, overflowed: bool,
                 m: set<nat>, overflow: bool, m': set<nat>)
    requires h.Valid() && h'.Valid() && Shown(h, h', key, {n}) && n in key && key[n] in h.descr
    requires KeptSet(h, m0, objs, overflowed, m) && m0 <= h.descr.Keys && objs <= h.descr.Keys
    requires m' == (if overflow then h.LiveSet(m + {key[n]}) else m + h.Onward(m, key[n])) + {key[n]}
    ensures KeptSet(h', m0, objs + {key[n]}, overflowed || overflow, m')
  {
    hide *;
    var o := key[n];
    KeptSetHas(h, m0, objs, overflowed, m);
    KeptSetIs(h, m0, objs, overflowed, m);
    KeptSetIs(h', m0, objs + {o}, overflowed || overflow, m');
    if !overflowed && !overflow {
      LeastNext(h, h', key, n, m0, objs, m);
    } else {
      KeptLive(h, h', key, n, m0, objs, overflowed, m, overflow, m');
    }
  }

  lemma KeptSetIs(h: Heap, m0: set<nat>, objs: set<nat>, overflowed: bool, m: set<nat>)
    ensures KeptSet(h, m0, objs, overflowed, m) <==>
      if overflowed then m == h.LiveSet(m0 + objs) else Least(h, m0, objs, m)
  {
  }

  lemma KeptLive(h: Heap, h': Heap, key: map<nat, nat>, n: nat, m0: set<nat>, objs: set<nat>, overflowed: bool,
                 m: set<nat>, overflow: bool, m': set<nat>)
    requires h.Valid() && h'.Valid() && Shown(h, h', key, {n}) && n in key && key[n] in h.descr
    requires KeptSet(h, m0, objs, overflowed, m) && m0 <= h.descr.Keys && objs <= h.descr.Keys
    requires overflowed || overflow
    requires m' == (if overflow then h.LiveSet(m + {key[n]}) else m + h.Onward(m, key[n])) + {key[n]}
    ensures m' == h'.LiveSet(m0 + (objs + {key[n]}))
  {
    hide *;
    var o, from := key[n], m0 + (objs + {key[n]});
    var l := h'.LiveSet(from);
    ShownDescr(h, h', key, {n});
    KeptSetHas(h, m0, objs, overflowed, m);
    // the set the marker arrives at lies within the live objects
    h'.LiveHas(from);
    h'.LiveSetClosed(from);
    Marker.ClosedObjects(h', l);
    ClosedFewer(h, h', key, {n}, l);
    KeptSetWithin(h, m0, objs, overflowed, m, l);
    Marker.ClosedMember(h, l, o);
    if overflow { h.LiveStaysInside(m + {o}, l); } else { StaysInClosed(h, m, o, l); }
    // and is closed
    KeptClosed(h, m, o, overflowed, overflow, m');
    AfterShown(h, h', key, n, m');
    h'.LiveStaysInside(from, m');
  }

  lemma StaysInClosed(h: Heap, m: set<nat>, o: nat, s: set<nat>)
    requires h.Closed(s) && m <= s && o in s
    ensures h.Onward(m, o) <= s
  {
    hide Heap.Onward;
    h.OnwardStaysInside(m, o, s);
  }

  lemma KeptClosed(h: Heap, m: set<nat>, o: nat, overflowed: bool, overflow: bool, m': set<nat>)
    requires h.Valid() && m <= h.descr.Keys && o in h.descr && (overflowed || overflow)
    requires overflowed ==> h.Closed(m) && h.RootsDone(m, [])
    requires m' == (if overflow then h.LiveSet(m + {o}) else m + h.Onward(m, o)) + {o}
    ensures m <= m' && o in m' && h.Closed(m') && h.RootsDone(m', [])
  {
    hide *;
    h.LiveHas(m + {o});
    h.LiveSetClosed(m + {o});
    if overflow {
      assert m' == h.LiveSet(m + {o});
    } else {
      Marker.FromClosed(h, m, o);
      AddedClosed(h, m, {o});
      assert Reached(h, {o}) == h.Descendants(o) by { ReachedOne(h, o); }
      assert m' == m + {o} + Reached(h, {o});
    }
  }

  lemma ReachedOne(h: Heap, o: nat)
    ensures Reached(h, {o}) == h.Descendants(o)
  {
    ReachedHas(h, {o}, o);
    ReachedWithin(h, {o}, h.Descendants(o));
  }

  lemma AfterShown(h: Heap, h': Heap, key: map<nat, nat>, n: nat, m: set<nat>)
    requires Shown(h, h', key, {n}) && n in key && key[n] in m && h.Closed(m) && h.RootsDone(m, [])
    ensures h'.Closed(m) && h'.RootsDone(m, [])
  {
    assert Keys(key, {n}) == {key[n]};
    hide *;
    ClosedShown(h, h', key, {n}, m);
  }

  // ------------------------------------------------------- all of them, the last in front

  /** The heap after the entries of the list have been queued. */
  ghost function KeptHeap(h: Heap, key: map<nat, nat>, list: seq<nat>): Heap {
    if list == [] then h
    else
      var h' := KeptHeap(h, key, list[1..]);
      if list[0] in key && list[0] < |h'.mem| then h'.Unhidden(list[0], key[list[0]]) else h'
  }

  /** The marks then, as long as the mark stack is large enough. */
  ghost function KeptMarks(h: Heap, key: map<nat, nat>, m: set<nat>, list: seq<nat>): set<nat> {
    if list == [] then m
    else
      var m' := KeptMarks(h, key, m, list[1..]);
      if list[0] in key then m' + KeptHeap(h, key, list[1..]).Onward(m', key[list[0]]) + {key[list[0]]} else m'
  }

  /** Marking from the object of one of them overruns the mark stack. */
  ghost predicate KeptOverruns(h: Heap, size: nat, key: map<nat, nat>, m: set<nat>, list: seq<nat>) {
    list != [] &&
    (KeptOverruns(h, size, key, m, list[1..]) ||
     var h', m' := KeptHeap(h, key, list[1..]), KeptMarks(h, key, m, list[1..]);
     list[0] in key && key[list[0]] in h'.descr && MARK_STACK_DISCARDS <= size
     && Overruns(h', size, m', key[list[0]]))
  }

  /** What has been marked for the entries `ready`, and whether the mark stack has overflowed. */
  ghost predicate KeptOutcome(h0: Heap, size: nat, key: map<nat, nat>, m0: set<nat>, ready: seq<nat>, overflowed: bool,
                              h: Heap, now: nat, m: set<nat>)
  {
    && Shown(h0, h, key, Members(ready)) && m0 <= h0.descr.Keys
    && (overflowed <==> KeptOverruns(h0, size, key, m0, ready))
    && KeptSet(h, m0, Keys(key, Members(ready)), overflowed, m)
    && (!overflowed ==> now == size && h == KeptHeap(h0, key, ready) && m == KeptMarks(h0, key, m0, ready))
  }

  lemma OutcomeStart(h: Heap, size: nat, key: map<nat, nat>, m: set<nat>)
    requires m <= h.descr.Keys
    ensures KeptOutcome(h, size, key, m, [], false, h, size, m)
  {
    ShownNone(h, key);
    assert Members([]) == {} && Keys(key, {}) == {};
    LeastStart(h, m);
  }

  lemma KeysMore(key: map<nat, nat>, n: nat, ready: seq<nat>)
    requires n in key
    ensures Keys(key, Members([n] + ready)) == Keys(key, Members(ready)) + {key[n]}
    ensures Members([n] + ready) == Members(ready) + {n}
  {
  }

  lemma OutcomeNext(h0: Heap, size: nat, key: map<nat, nat>, m0: set<nat>, ready: seq<nat>, overflowed: bool,
                    h: Heap, now: nat, m: set<nat>, n: nat, overflow: bool, h': Heap, now': nat, m': set<nat>)
    requires KeptOutcome(h0, size, key, m0, ready, overflowed, h, now, m)
    requires h.Valid() && h'.Valid() && Shown(h, h', key, {n}) && MARK_STACK_DISCARDS <= now
    requires n in key && key[n] in h.descr && n < |h.mem| && h' == h.Unhidden(n, key[n])
    requires overflow <==> Overruns(h, now, m, key[n])
    requires m' == (if overflow then h.LiveSet(m + {key[n]}) else m + h.Onward(m, key[n])) + {key[n]}
    requires !overflow ==> now' == now
    ensures KeptOutcome(h0, size, key, m0, [n] + ready, overflowed || overflow, h', now', m')
  {
    hide *;
    OutcomeIs(h0, size, key, m0, ready, overflowed, h, now, m);
    OutcomeIs(h0, size, key, m0, [n] + ready, overflowed || overflow, h', now', m');
    KeptStep(h0, size, key, m0, n, ready);
    KeysMore(key, n, ready);
    ShownTrans(h0, h, h', key, Members(ready), {n});
    ShownDescr(h0, h, key, Members(ready));
    KeysObjects(h0, h, key, Members(ready));
    KeptNext(h, h', key, n, m0, Keys(key, Members(ready)), overflowed, m, overflow, m');
  }

  lemma OutcomeIs(h0: Heap, size: nat, key: map<nat, nat>, m0: set<nat>, ready: seq<nat>, overflowed: bool,
                  h: Heap, now: nat, m: set<nat>)
    ensures KeptOutcome(h0, size, key, m0, ready, overflowed, h, now, m) <==>
      && Shown(h0, h, key, Members(ready)) && m0 <= h0.descr.Keys
      && (overflowed <==> KeptOverruns(h0, size, key, m0, ready))
      && KeptSet(h, m0, Keys(key, Members(ready)), overflowed, m)
      && (!overflowed ==> now == size && h == KeptHeap(h0, key, ready) && m == KeptMarks(h0, key, m0, ready))
  {
  }

  lemma KeptStep(h: Heap, size: nat, key: map<nat, nat>, m: set<nat>, n: nat, ready: seq<nat>)
    ensures
      var h', m', o := KeptHeap(h, key, ready), KeptMarks(h, key, m, ready), if n in key then key[n] else 0;
      && (n in key && n < |h'.mem| ==> KeptHeap(h, key, [n] + ready) == h'.Unhidden(n, o))
      && (n in key ==> KeptMarks(h, key, m, [n] + ready) == m' + h'.Onward(m', o) + {o})
      && (KeptOverruns(h, size, key, m, [n] + ready) <==>
          KeptOverruns(h, size, key, m, ready)
          || (n in key && o in h'.descr && MARK_STACK_DISCARDS <= size && Overruns(h', size, m', o)))
  {
    hide Heap.Onward, Overruns, Heap.Unhidden;
    assert ([n] + ready)[1..] == ready;
  }
}
