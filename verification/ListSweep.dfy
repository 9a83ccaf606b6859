/** A request is tried on one free list after the other: what has been refused so far, and how
    far the search for a larger block may go. */
module ListSweep {
  import opened MarkHeap
  import opened Tiles
  import opened Lists
  import opened FreeList
  import opened FreeBlocks
  import opened HeapLayout
  import opened BlockSearch

  /** No free block of the exact length, or of a list before `e`, will do. */
  ghost predicate RefusedBelow(m: Hdrs, q: Request, mode: SplitMode, e: nat) {
    forall h :: IsFree(m, h) && (m[h].len == Needed(q) || FlIndex(m[h].len) < e) ==> !Accepts(h, m[h], q, mode)
  }

  /** The lists are what is still free of `lists0`. */
  ghost predicate Sifted(lists0: seq<seq<nat>>, m: Hdrs, lists: seq<seq<nat>>) {
    |lists| == |lists0| && forall j :: 0 <= j < |lists| ==> lists[j] == StillFree(lists0[j], m)
  }

  /** The last list whose blocks may be split, and how: all of them when more of the heap is to
      be used, none when finalization has just freed much, and else those without which the
      free blocks could no longer make up for the largest total of large objects so far. */
  ghost predicate LimitSet(bytes: seq<nat>, useMore: bool, finalizersFreed: nat, heapSize: nat, largeAllocd: nat,
                           maxLargeAllocd: nat, munmap: bool, limit: nat, mode: SplitMode)
    requires |bytes| == N_HBLK_FLS + 1
  {
    if useMore then limit == N_HBLK_FLS && mode == Always
    else if finalizersFreed > heapSize * HBLKSIZE / 16 then limit == 0 && mode == Always
    else
      && limit <= N_HBLK_FLS && (limit > 0 ==> largeAllocd + TotalFrom(bytes, limit) >= maxLargeAllocd)
      && (forall n :: limit < n <= N_HBLK_FLS ==> largeAllocd + TotalFrom(bytes, n) < maxLargeAllocd)
      && mode == if munmap && limit > 0 then AvoidRemapped else Always
  }

  /** The byte counts are as before but for list `n`, which has lost no more than was dropped. */
  ghost predicate BytesLeft(bytes0: seq<nat>, bytes: seq<nat>, n: nat, dropped: nat) {
    && n < |bytes| == |bytes0| && bytes == bytes0[n := bytes[n]]
    && bytes[n] <= bytes0[n] <= bytes[n] + dropped
  }

  lemma ShortRefused(h: nat, hd: Hdr, q: Request, mode: SplitMode)
    requires hd.Free? && hd.len < Needed(q)
    ensures !Accepts(h, hd, q, mode)
  {
  }

  /** After the first pass, for an exact match, splitting can start with the next list. */
  lemma ExactRefused(m: Hdrs, lists: seq<seq<nat>>, bytes: seq<nat>, q: Request, mode: SplitMode)
    requires Listed(m, lists, bytes, {}) && FlIndex(Needed(q)) < |lists|
    requires NothingOn(m, lists[FlIndex(Needed(q))], q, Never)
    ensures
      var i := FlIndex(Needed(q));
      RefusedBelow(m, q, mode, if i < UNIQUE_THRESHOLD then i + 1 else i)
  {
    hide Accepts, FlIndex;
    var i := FlIndex(Needed(q));
    var e := if i < UNIQUE_THRESHOLD then i + 1 else i;
    forall h | IsFree(m, h) && (m[h].len == Needed(q) || FlIndex(m[h].len) < e) ensures !Accepts(h, m[h], q, mode) {
      if m[h].len == Needed(q) {
        assert Home(m, lists, h);
        ExactSize(h, m[h], q, mode);
      } else {
        ShorterList(m[h].len, Needed(q));
        ShortRefused(h, m[h], q, mode);
      }
    }
  }

  lemma ShorterList(a: nat, b: nat)
    requires a != b && FlIndex(a) < if FlIndex(b) < UNIQUE_THRESHOLD then FlIndex(b) + 1 else FlIndex(b)
    ensures a < b
  {
  }

  /** One more list without anything suitable. */
  lemma SweptList(m0: Hdrs, lists0: seq<seq<nat>>, bytes0: seq<nat>, q: Request, mode: SplitMode,
                  m: Hdrs, lists: seq<seq<nat>>, n: nat)
    requires Listed(m0, lists0, bytes0, {}) && Remains(m0, m, q) && Sifted(lists0, m, lists) && n < |lists|
    requires RefusedBelow(m0, q, mode, n) && NothingOn(m, lists[n], q, mode)
    ensures RefusedBelow(m0, q, mode, n + 1)
  {
    hide Accepts, FlIndex, Hopeless, StillFree;
    forall h | IsFree(m0, h) && FlIndex(m0[h].len) == n ensures !Accepts(h, m0[h], q, mode) {
      assert Home(m0, lists0, h);
      StillFreeMembers(lists0[n], m);
      if !IsFree(m, h) { HopelessRefused(h, m0[h], q, mode); }
    }
  }

  lemma SiftedStart(m: Hdrs, lists: seq<seq<nat>>, bytes: seq<nat>)
    requires Listed(m, lists, bytes, {})
    ensures Sifted(lists, m, lists)
  {
    hide StillFree;
    forall j | 0 <= j < |lists| ensures lists[j] == StillFree(lists[j], m) {
      forall h | h in lists[j] ensures IsFree(m, h) { assert Home(m, lists, h); }
      AllStillFree(lists[j], m);
    }
  }

  /** A search of list `n` has sorted out what is no longer free. */
  lemma SiftedNext(lists0: seq<seq<nat>>, m: Hdrs, lists: seq<seq<nat>>, n: nat, m': Hdrs, bytes': seq<nat>, q: Request)
    requires Sifted(lists0, m, lists) && Remains(m, m', q) && n < |lists|
    requires Listed(m', lists[n := StillFree(lists[n], m')], bytes', {})
    ensures Sifted(lists0, m', lists[n := StillFree(lists[n], m')])
  {
    hide StillFree, Hopeless;
    var lists' := lists[n := StillFree(lists[n], m')];
    forall j | 0 <= j < |lists| ensures lists'[j] == StillFree(lists0[j], m') {
      StillFreeTwice(lists0[j], m, m');
      if j != n {
        forall h | h in lists[j] ensures IsFree(m', h) { assert h in lists'[j] && Home(m', lists', h); }
        AllStillFree(lists[j], m');
      }
    }
  }

  /** What is left of a list is found from the list at the start, too. */
  lemma SiftedAgain(lists0: seq<seq<nat>>, m: Hdrs, lists: seq<seq<nat>>, n: nat, m': Hdrs, q: Request)
    requires Sifted(lists0, m, lists) && Remains(m, m', q) && n < |lists|
    ensures StillFree(lists[n], m') == StillFree(lists0[n], m')
  {
    StillFreeTwice(lists0[n], m, m');
  }

  lemma DropsTrans(free0: nat, dropped0: nat, count0: nat, free1: nat, dropped1: nat, count1: nat,
                   free: nat, dropped: nat, count: nat)
    requires DropsCounted(free0, dropped0, count0, free1, dropped1, count1)
    requires DropsCounted(free1, dropped1, count1, free, dropped, count)
    ensures DropsCounted(free0, dropped0, count0, free, dropped, count)
  {
  }

  /** With the whole heap open to splitting, every free block is black listed wherever the
      request could start, and none is so large that it is taken in spite of that. */
  lemma NothingLeft(m: Hdrs, q: Request)
    requires RefusedBelow(m, q, Always, N_HBLK_FLS + 1)
    ensures forall h :: IsFree(m, h) ==> AllListed(h, m[h].len, q) && !Punts(m[h].len, q)
    ensures !Searched(q) ==> forall h :: IsFree(m, h) ==> m[h].len < Needed(q)
  {
    hide Blacklisted, Searched, FlIndex;
    forall h | IsFree(m, h)
      ensures AllListed(h, m[h].len, q) && !Punts(m[h].len, q) && (!Searched(q) ==> m[h].len < Needed(q))
    {
      LastList(m[h].len);
      assert !Accepts(h, m[h], q, Always);
    }
  }

  lemma NothingLeftParts(m: Hdrs, q: Request)
    requires RefusedBelow(m, q, Always, N_HBLK_FLS + 1)
    ensures forall h: nat, u: nat :: IsFree(m, h) && h <= u && u + Needed(q) <= End(m, h) ==> Blacklisted(q, u)
    ensures
      Needed(q) * HBLKSIZE > q.spacing ==>
        forall h :: IsFree(m, h) ==> m[h].len * HBLKSIZE <= Needed(q) * HBLKSIZE + q.spacing
    ensures !Searched(q) ==> forall h :: IsFree(m, h) ==> m[h].len < Needed(q)
  {
    hide Blacklisted, Searched, RefusedBelow;
    NothingLeft(m, q);
  }

  lemma RefusedLess(m: Hdrs, q: Request, mode: SplitMode, e: nat, e': nat)
    requires RefusedBelow(m, q, mode, e) && e' <= e
    ensures RefusedBelow(m, q, mode, e')
  {
  }

  lemma LimitOpen(bytes: seq<nat>, finalizersFreed: nat, heapSize: nat, largeAllocd: nat, maxLargeAllocd: nat,
                  munmap: bool, limit: nat, mode: SplitMode)
    requires |bytes| == N_HBLK_FLS + 1
    requires LimitSet(bytes, true, finalizersFreed, heapSize, largeAllocd, maxLargeAllocd, munmap, limit, mode)
    ensures limit == N_HBLK_FLS && mode == Always
  {
  }

  lemma BytesMore(bytes0: seq<nat>, bytes: seq<nat>, n: nat, dropped: nat, dropped': nat)
    requires BytesLeft(bytes0, bytes, n, dropped) && dropped <= dropped'
    ensures BytesLeft(bytes0, bytes, n, dropped')
  {
  }

  lemma LastList(len: nat)
    ensures FlIndex(len) <= N_HBLK_FLS
  {
  }

  /** What was dropped from one list is what its byte count has lost. */
  lemma BytesDropped(m0: Hdrs, lists0: seq<seq<nat>>, bytes0: seq<nat>, n: nat, m: Hdrs, bytes: seq<nat>, q: Request,
                     dropped: nat)
    requires Listed(m0, lists0, bytes0, {}) && n < |lists0| && Remains(m0, m, q)
    requires Listed(m, lists0[n := StillFree(lists0[n], m)], bytes, {})
    requires Total(bytes0) == Total(bytes) + dropped
    ensures BytesLeft(bytes0, bytes, n, dropped)
  {
    hide StillFree, Hopeless, Total;
    var lists := lists0[n := StillFree(lists0[n], m)];
    forall j | 0 <= j < |lists| && j != n ensures bytes[j] == bytes0[j] {
      forall h | h in lists0[j] ensures BlockLen(m0, h) == BlockLen(m, h) {
        assert h in lists[j] && Home(m, lists, h);
      }
      ListLenFrame(m0, m, lists0[j]);
    }
    assert bytes == bytes0[n := bytes[n]];
    TotalUpdate(bytes0, n, bytes[n]);
  }

  lemma {:induction false} TotalUpdate(bytes: seq<nat>, n: nat, b: nat)
    requires n < |bytes|
    ensures Total(bytes[n := b]) + bytes[n] == Total(bytes) + b
  {
    if n == 0 {
      assert bytes[n := b][1..] == bytes[1..];
    } else {
      assert bytes[n := b][1..] == bytes[1..][n - 1 := b];
      TotalUpdate(bytes[1..], n - 1, b);
    }
  }
}
