/** What a search for a heap block looks for: which free blocks it accepts, where in them the
    result starts, which it passes over for a better one, and which it gives up. */
module BlockSearch {
  import opened MarkHeap
  import opened Tiles
  import opened Lists
  import opened HeapLayout
  import BlackList

  /** May larger blocks be split?  GC_allochblk_nth's may_split. */
  datatype SplitMode = Never | Always | AvoidRemapped

  /** What one search may do besides splitting. */
  datatype Request = Request(
    sz: nat,
    kind: Kind,
    ignoreOffPage: bool,
    tables: BlackList.Tables,
    spacing: nat,
    findLeak: bool)

  const MAX_BLACK_LIST_ALLOC := 2 * HBLKSIZE

  function Needed(q: Request): nat {
    SizeToBlocks(q.sz)
  }

  /** Must the block start clear of the black lists? */
  predicate Searched(q: Request) {
    !IsUncollectable(q.kind) && (q.kind != PtrFree || Needed(q) * HBLKSIZE > MAX_BLACK_LIST_ALLOC)
  }

  /** How many blocks from the start must be clear. */
  function EffNeeded(q: Request): nat {
    if q.ignoreOffPage then 1 else Needed(q)
  }

  ghost predicate Blacklisted(q: Request, start: nat) {
    BlackList.Listed(q.tables, start, EffNeeded(q))
  }

  // ------------------------------------------------------- one free block

  predicate Suitable(hd: Hdr, q: Request, mode: SplitMode) {
    hd.Free? && if mode == Never then hd.len == Needed(q) else hd.len >= Needed(q)
  }

  /** No start in the free block `h` of that length is clear of the black lists. */
  ghost predicate AllListed(h: nat, len: nat, q: Request) {
    forall u: nat :: h <= u && u + Needed(q) <= h + len ==> Blacklisted(q, u)
  }

  /** So large a request that a block with as much to spare is taken in spite of that. */
  predicate Punts(len: nat, q: Request) {
    Needed(q) * HBLKSIZE > q.spacing && len >= Needed(q) && (len - Needed(q)) * HBLKSIZE > q.spacing
  }

  /** The free block `h` with header `hd` will do. */
  ghost predicate Accepts(h: nat, hd: Hdr, q: Request, mode: SplitMode) {
    Suitable(hd, q, mode) &&
    (!Searched(q) || !Blacklisted(q, h) ||
     if AllListed(h, hd.len, q) then Punts(hd.len, q) else !(mode == AvoidRemapped && hd.unmapped))
  }

  /** The result starts at the first clear place, if that matters and there is one. */
  ghost predicate StartsAt(h: nat, len: nat, q: Request, u: nat) {
    && h <= u && u + Needed(q) <= h + len
    && if !Searched(q) || AllListed(h, len, q) then u == h
       else !Blacklisted(q, u) && forall s: nat :: h <= s < u ==> Blacklisted(q, s)
  }

  /** A mapped block that is black listed all over, for a request of one block. */
  ghost predicate Hopeless(h: nat, hd: Hdr, q: Request) {
    && hd.Free? && !hd.unmapped && Searched(q) && Needed(q) == 1 && !q.findLeak && hd.len > 0
    && AllListed(h, hd.len, q) && !Punts(hd.len, q)
  }

  /** The search comes to see that the block is hopeless. */
  ghost predicate Counts(h: nat, hd: Hdr, q: Request, mode: SplitMode) {
    Suitable(hd, q, mode) && Hopeless(h, hd, q)
  }

  /** With exactly the length asked for there is only one place to start. */
  lemma ExactSize(h: nat, hd: Hdr, q: Request, mode: SplitMode)
    requires hd.Free? && hd.len == Needed(q)
    ensures Accepts(h, hd, q, mode) <==> Accepts(h, hd, q, Never)
  {
    hide Blacklisted, Searched;
    if !Blacklisted(q, h) {
    } else {
      forall u: nat | h <= u && u + Needed(q) <= h + hd.len ensures Blacklisted(q, u) { assert u == h; }
    }
  }

  lemma HopelessRefused(h: nat, hd: Hdr, q: Request, mode: SplitMode)
    requires Hopeless(h, hd, q)
    ensures !Accepts(h, hd, q, mode)
  {
    hide Blacklisted, Searched;
    assert h + Needed(q) <= h + hd.len;
  }

  // ------------------------------------------------------- one list of free blocks

  /** The block behind the one at `k` is smaller, still large enough and clear, so that the
      one at `k` need not be split. */
  ghost predicate Better(m: Hdrs, list: seq<nat>, k: nat, q: Request) {
    && k + 1 < |list| && IsFree(m, list[k]) && IsFree(m, list[k + 1])
    && Needed(q) <= m[list[k + 1]].len < m[list[k]].len
    && !BlackList.Listed(q.tables, list[k + 1], Needed(q))
  }

  ghost predicate Skipped(m: Hdrs, list: seq<nat>, k: nat, q: Request, mode: SplitMode) {
    mode != Never && Better(m, list, k, q)
  }

  /** The first `k` blocks of the list were refused or passed over for the next one. */
  ghost predicate PassedTo(m: Hdrs, list: seq<nat>, k: nat, q: Request, mode: SplitMode) {
    && k <= |list|
    && forall j: nat :: j < k ==>
         IsFree(m, list[j]) && (!Accepts(list[j], m[list[j]], q, mode) || Skipped(m, list, j, q, mode))
  }

  /** The block at `k` is the one taken, and the result starts at `r`. */
  ghost predicate Picked(m: Hdrs, list: seq<nat>, k: nat, q: Request, mode: SplitMode, r: nat) {
    && k < |list| && PassedTo(m, list, k, q, mode)
    && IsFree(m, list[k]) && Accepts(list[k], m[list[k]], q, mode) && !Skipped(m, list, k, q, mode)
    && StartsAt(list[k], m[list[k]].len, q, r)
  }

  lemma ListedMore(t: BlackList.Tables, h: nat, n: nat, n': nat)
    requires n <= n' && BlackList.Listed(t, h, n)
    ensures BlackList.Listed(t, h, n')
  {
  }

  /** What is passed over for a better block leads to one that is accepted. */
  lemma BetterAccepted(m: Hdrs, list: seq<nat>, k: nat, q: Request, mode: SplitMode)
    requires Skipped(m, list, k, q, mode) && Needed(q) > 0
    ensures Accepts(list[k + 1], m[list[k + 1]], q, mode)
  {
    if Blacklisted(q, list[k + 1]) { ListedMore(q.tables, list[k + 1], EffNeeded(q), Needed(q)); }
  }

  /** So when a whole list has been passed, every block of it was refused. */
  lemma {:induction false} AllRefused(m: Hdrs, list: seq<nat>, j: nat, q: Request, mode: SplitMode)
    requires PassedTo(m, list, |list|, q, mode) && j < |list| && Needed(q) > 0
    ensures IsFree(m, list[j]) && !Accepts(list[j], m[list[j]], q, mode)
    decreases |list| - j
  {
    hide Accepts;
    if Accepts(list[j], m[list[j]], q, mode) {
      BetterAccepted(m, list, j, q, mode);
      AllRefused(m, list, j + 1, q, mode);
    }
  }

  lemma PassedNext(m: Hdrs, list: seq<nat>, k: nat, q: Request, mode: SplitMode)
    requires PassedTo(m, list, k, q, mode) && k < |list| && IsFree(m, list[k])
    requires !Accepts(list[k], m[list[k]], q, mode) || Skipped(m, list, k, q, mode)
    ensures PassedTo(m, list, k + 1, q, mode)
  {
    hide Accepts, Better;
  }

  // ------------------------------------------------------- giving blocks up

  /** Of the free blocks only hopeless ones are gone, and the others are as before. */
  ghost predicate Remains(m: Hdrs, m': Hdrs, q: Request) {
    && (forall h :: IsFree(m', h) ==> IsFree(m, h) && m'[h] == m[h])
    && (forall h :: IsFree(m, h) && !IsFree(m', h) ==> Hopeless(h, m[h], q))
  }

  lemma RemainsTrans(a: Hdrs, b: Hdrs, c: Hdrs, q: Request)
    requires Remains(a, b, q) && Remains(b, c, q)
    ensures Remains(a, c, q)
  {
    hide Hopeless;
  }

  lemma RemainsRefl(m: Hdrs, q: Request)
    ensures Remains(m, m, q)
  {
  }

  lemma RemainsDropped(m: Hdrs, h: nat, q: Request)
    requires Tiling(m) && IsFree(m, h) && Hopeless(h, m[h], q)
    ensures Remains(m, Chopped(m, h, m[h].len), q)
    ensures !IsFree(Chopped(m, h, m[h].len), h)
    ensures forall g :: IsFree(m, g) && g != h ==> IsFree(Chopped(m, h, m[h].len), g)
  {
    hide SameCover, Chopped;
    ChopTiling(m, h);
    var m' := Chopped(m, h, m[h].len);
    assert h in m' && m'[h] == SINGLE by { ChoppedAt(m, h, m[h].len); }
  }

  /** The blocks of the list that are still free. */
  ghost function StillFree(list: seq<nat>, m: Hdrs): seq<nat> {
    if list == [] then []
    else (if IsFree(m, list[0]) then [list[0]] else []) + StillFree(list[1..], m)
  }

  lemma {:induction false} AllStillFree(list: seq<nat>, m: Hdrs)
    requires forall h :: h in list ==> IsFree(m, h)
    ensures StillFree(list, m) == list
  {
    if list != [] {
      assert list[0] in list && forall h :: h in list[1..] ==> h in list;
      AllStillFree(list[1..], m);
    }
  }

  lemma {:induction false} StillFreeMembers(list: seq<nat>, m: Hdrs)
    ensures forall h :: h in StillFree(list, m) <==> h in list && IsFree(m, h)
  {
    if list != [] {
      StillFreeMembers(list[1..], m);
      assert forall h :: h in list <==> h == list[0] || h in list[1..];
    }
  }

  /** Sorting out twice is sorting out once. */
  lemma {:induction false} StillFreeTwice(list: seq<nat>, m: Hdrs, m': Hdrs)
    requires forall h :: IsFree(m', h) ==> IsFree(m, h)
    ensures StillFree(StillFree(list, m), m') == StillFree(list, m')
  {
    if list != [] {
      StillFreeTwice(list[1..], m, m');
      var rest := StillFree(list[1..], m);
      if IsFree(m, list[0]) {
        assert ([list[0]] + rest)[1..] == rest;
      } else {
        assert [] + rest == rest;
      }
    }
  }

  /** One block that is no longer free leaves the list. */
  lemma {:induction false} StillFreeWithout(list: seq<nat>, k: nat, m: Hdrs)
    requires k < |list| && Distinct(list) && !IsFree(m, list[k])
    requires forall h :: h in list && h != list[k] ==> IsFree(m, h)
    ensures StillFree(list, m) == Without(list, k)
    decreases k
  {
    assert forall h :: h in list[1..] ==> h in list;
    if k == 0 {
      AllStillFree(list[1..], m);
    } else {
      assert list[0] in list;
      StillFreeWithout(list[1..], k - 1, m);
      assert Without(list, k) == [list[0]] + Without(list[1..], k - 1);
    }
  }

  /** Dropping the block at `k` leaves the search where it is. */
  lemma PassedDropped(m: Hdrs, m': Hdrs, list: seq<nat>, k: nat, q: Request, mode: SplitMode)
    requires PassedTo(m, list, k, q, mode) && k < |list| && Distinct(list) && Needed(q) > 0
    requires IsFree(m, list[k]) && Hopeless(list[k], m[list[k]], q)
    requires forall g :: IsFree(m, g) && g != list[k] ==> IsFree(m', g) && m'[g] == m[g]
    ensures PassedTo(m', Without(list, k), k, q, mode)
  {
    HopelessRefused(list[k], m[list[k]], q, mode);
    hide Accepts, Hopeless;
    var list' := Without(list, k);
    forall j: nat | j < k
      ensures IsFree(m', list'[j])
      ensures !Accepts(list'[j], m'[list'[j]], q, mode) || Skipped(m', list', j, q, mode)
    {
      assert list'[j] == list[j] != list[k];
      if Accepts(list[j], m[list[j]], q, mode) {
        BetterAccepted(m, list, j, q, mode);
        assert list'[j + 1] == list[j + 1];
      }
    }
  }

  // ------------------------------------------------------- a whole search

  /** What has been dropped is accounted for, and something has been dropped exactly if the
      count of hopeless blocks has passed a multiple of four. */
  predicate DropsCounted(free0: nat, dropped0: nat, count0: nat, free: nat, dropped: nat, count: nat) {
    && free + dropped == free0 + dropped0 && dropped0 <= dropped && count0 <= count
    && (count / 4 == count0 / 4 <==> dropped == dropped0)
  }

  /** The search of a list has come to position `k`; what it started with has the index 0. */
  ghost predicate SearchState(m0: Hdrs, list0: seq<nat>, free0: nat, dropped0: nat, count0: nat, q: Request,
                              mode: SplitMode, m: Hdrs, list: seq<nat>, k: nat, free: nat, dropped: nat, count: nat)
  {
    && Distinct(list) && PassedTo(m, list, k, q, mode)
    && (forall h :: h in list0 ==> IsFree(m0, h)) && Remains(m0, m, q) && list == StillFree(list0, m)
    && DropsCounted(free0, dropped0, count0, free, dropped, count) && (dropped == dropped0 ==> m == m0)
    && (count == count0 ==> forall j: nat :: j < k ==>
          !Counts(list[j], m[list[j]], q, mode) || Skipped(m, list, j, q, mode))
    && (!Searched(q) ==> count == count0)
  }

  /** No block of the list will do. */
  ghost predicate NothingOn(m: Hdrs, list: seq<nat>, q: Request, mode: SplitMode) {
    forall h :: h in list ==> IsFree(m, h) && !Accepts(h, m[h], q, mode)
  }

  ghost predicate NoneHopeless(m: Hdrs, list: seq<nat>, q: Request, mode: SplitMode) {
    forall h :: h in list ==> IsFree(m, h) && !Counts(h, m[h], q, mode)
  }

  /** The result `r` was taken out of the block at position `k`, with nothing else changed. */
  ghost predicate TakenFrom(m: Hdrs, list: seq<nat>, k: nat, q: Request, mode: SplitMode, r: nat, age: nat, m': Hdrs) {
    && Picked(m, list, k, q, mode, r) && 0 < Needed(q)
    && m' == CarvedAt(m, list[k], r, Used(q.sz, q.kind), age)
  }

  /** The outcome of a search of the list `list0`, of which hopeless blocks may have been
      dropped; the headers were `m` before something was taken and are `m'` now. */
  ghost predicate SearchDone(m0: Hdrs, list0: seq<nat>, free0: nat, dropped0: nat, count0: nat, q: Request,
                             mode: SplitMode, r: nat, m: Hdrs, k: nat, age: nat, m': Hdrs, free: nat, dropped: nat,
                             count: nat)
  {
    && Remains(m0, m, q)
    && (if r == 0 then m' == m && NothingOn(m0, list0, q, mode)
        else TakenFrom(m, StillFree(list0, m), k, q, mode, r, age, m'))
    && DropsCounted(free0, dropped0, count0, free + if r == 0 then 0 else Needed(q), dropped, count)
    && (dropped == dropped0 ==> m == m0)
    && (r == 0 && count == count0 ==> NoneHopeless(m0, list0, q, mode))
    && (!Searched(q) ==> count == count0)
  }

  lemma StateStart(m: Hdrs, list: seq<nat>, free: nat, dropped: nat, count: nat, q: Request, mode: SplitMode)
    requires Distinct(list) && forall h :: h in list ==> IsFree(m, h)
    ensures SearchState(m, list, free, dropped, count, q, mode, m, list, 0, free, dropped, count)
  {
    AllStillFree(list, m);
  }

  lemma StateFacts(m0: Hdrs, list0: seq<nat>, free0: nat, dropped0: nat, count0: nat, q: Request, mode: SplitMode,
                   m: Hdrs, list: seq<nat>, k: nat, free: nat, dropped: nat, count: nat)
    requires SearchState(m0, list0, free0, dropped0, count0, q, mode, m, list, k, free, dropped, count)
    ensures k <= |list| && list == StillFree(list0, m) && dropped0 <= dropped
  {
    hide StillFree, Remains, Accepts, Hopeless;
  }

  /** Where it starts, the result is clear of the black lists, unless the request is large. */
  lemma TakenClear(m: Hdrs, list: seq<nat>, k: nat, q: Request, mode: SplitMode, r: nat, age: nat, m': Hdrs)
    requires TakenFrom(m, list, k, q, mode, r, age, m') && Searched(q)
    ensures Needed(q) * HBLKSIZE <= q.spacing ==> !Blacklisted(q, r)
  {
    hide Blacklisted, Searched, PassedTo, Skipped;
    var h := list[k];
    if AllListed(h, m[h].len, q) { assert h + Needed(q) <= h + m[h].len; }
  }

  lemma DoneFacts(m0: Hdrs, list0: seq<nat>, free0: nat, dropped0: nat, count0: nat, q: Request, mode: SplitMode,
                  r: nat, m: Hdrs, k: nat, age: nat, m': Hdrs, free: nat, dropped: nat, count: nat)
    requires SearchDone(m0, list0, free0, dropped0, count0, q, mode, r, m, k, age, m', free, dropped, count)
    ensures Remains(m0, m, q) && (dropped == dropped0 ==> m == m0) && dropped0 <= dropped
    ensures DropsCounted(free0, dropped0, count0, free + if r == 0 then 0 else Needed(q), dropped, count)
    ensures
      if r == 0 then m' == m && NothingOn(m0, list0, q, mode) && free + dropped == free0 + dropped0
      else TakenFrom(m, StillFree(list0, m), k, q, mode, r, age, m')
    ensures !Searched(q) ==> dropped == dropped0
    ensures r != 0 && Searched(q) && Needed(q) * HBLKSIZE <= q.spacing ==> !Blacklisted(q, r)
  {
    if r != 0 && Searched(q) { TakenClear(m, StillFree(list0, m), k, q, mode, r, age, m'); }
    hide Remains, NothingOn, TakenFrom, StillFree, Searched, Blacklisted;
  }

  lemma DropsRefl(free: nat, dropped: nat, count: nat)
    ensures DropsCounted(free, dropped, count, free, dropped, count)
  {
  }

  lemma CountsFacts(h: nat, hd: Hdr, q: Request, mode: SplitMode)
    requires Counts(h, hd, q, mode)
    ensures Hopeless(h, hd, q) && hd.Free? && !hd.unmapped && hd.len > 0
  {
  }

  lemma TakenFacts(m: Hdrs, h: nat, q: Request, u: nat)
    requires IsFree(m, h) && StartsAt(h, m[h].len, q, u)
    ensures h in m && m[h].Free? && End(m, h) == h + m[h].len && h <= u && u + Needed(q) <= End(m, h)
    ensures Used(q.sz, q.kind).Used? && Len(Used(q.sz, q.kind)) == Needed(q)
  {
  }

  /** The block at `k` is refused, or passed over for the next one. */
  lemma StateOn(m0: Hdrs, list0: seq<nat>, free0: nat, dropped0: nat, count0: nat, q: Request, mode: SplitMode,
                m: Hdrs, list: seq<nat>, k: nat, free: nat, dropped: nat, count: nat)
    requires SearchState(m0, list0, free0, dropped0, count0, q, mode, m, list, k, free, dropped, count)
    requires k < |list| && IsFree(m, list[k])
    requires if Accepts(list[k], m[list[k]], q, mode) then Skipped(m, list, k, q, mode)
             else !Counts(list[k], m[list[k]], q, mode) || Skipped(m, list, k, q, mode)
    ensures SearchState(m0, list0, free0, dropped0, count0, q, mode, m, list, k + 1, free, dropped, count)
  {
    hide Accepts, Better, Hopeless, Counts, Remains;
  }

  /** The block at `k` is hopeless and counted, but stays. */
  lemma StateCounted(m0: Hdrs, list0: seq<nat>, free0: nat, dropped0: nat, count0: nat, q: Request, mode: SplitMode,
                     m: Hdrs, list: seq<nat>, k: nat, free: nat, dropped: nat, count: nat)
    requires SearchState(m0, list0, free0, dropped0, count0, q, mode, m, list, k, free, dropped, count)
    requires k < |list| && IsFree(m, list[k]) && Hopeless(list[k], m[list[k]], q) && (count + 1) % 4 != 0
    ensures SearchState(m0, list0, free0, dropped0, count0, q, mode, m, list, k + 1, free, dropped, count + 1)
  {
    HopelessRefused(list[k], m[list[k]], q, mode);
    assert Searched(q);
    hide Accepts, Better, Hopeless, Counts, Remains, Searched;
  }

  /** The block at `k` is hopeless and dropped. */
  lemma StateDropped(m0: Hdrs, list0: seq<nat>, free0: nat, dropped0: nat, count0: nat, q: Request, mode: SplitMode,
                     m: Hdrs, list: seq<nat>, k: nat, free: nat, dropped: nat, count: nat)
    requires SearchState(m0, list0, free0, dropped0, count0, q, mode, m, list, k, free, dropped, count)
    requires Tiling(m) && k < |list| && IsFree(m, list[k]) && Hopeless(list[k], m[list[k]], q)
    requires (count + 1) % 4 == 0 && m[list[k]].len <= free && Needed(q) > 0
    requires forall h :: h in list ==> IsFree(m, h)
    ensures
      var h := list[k];
      SearchState(m0, list0, free0, dropped0, count0, q, mode, Chopped(m, h, m[h].len), Without(list, k), k,
                  free - m[h].len, dropped + m[h].len, count + 1)
  {
    var h, m' := list[k], Chopped(m, list[k], m[list[k]].len);
    RemainsDropped(m, h, q);
    StillFreeWithout(list, k, m');
    StillFreeTwice(list0, m, m');
    RemainsTrans(m0, m, m', q);
    PassedDropped(m, m', list, k, q, mode);
    WithoutDistinct(list, k);
    assert Searched(q) && m[h].len > 0;
    hide Hopeless, Counts, PassedTo, Remains, Chopped, Tiling, Searched, StillFree;
  }

  /** The list has been passed. */
  lemma StateEnds(m0: Hdrs, list0: seq<nat>, free0: nat, dropped0: nat, count0: nat, q: Request, mode: SplitMode,
                  m: Hdrs, list: seq<nat>, free: nat, dropped: nat, count: nat, k: nat, age: nat)
    requires SearchState(m0, list0, free0, dropped0, count0, q, mode, m, list, |list|, free, dropped, count)
    requires Needed(q) > 0
    ensures SearchDone(m0, list0, free0, dropped0, count0, q, mode, 0, m, k, age, m, free, dropped, count)
  {
    StillFreeMembers(list0, m);
    forall h | h in list0 ensures IsFree(m0, h) && !Accepts(h, m0[h], q, mode) {
      if IsFree(m, h) {
        var j :| 0 <= j < |list| && list[j] == h;
        AllRefused(m, list, j, q, mode);
      } else {
        HopelessRefused(h, m0[h], q, mode);
      }
    }
    if count == count0 {
      forall h | h in list0 ensures !Counts(h, m0[h], q, mode) {
        var j :| 0 <= j < |list| && list[j] == h;
        NoneSkipped(m, list, j, q, mode);
      }
    }
    hide Accepts, Hopeless, StillFree, PassedTo, Skipped;
  }

  lemma NoneSkipped(m: Hdrs, list: seq<nat>, j: nat, q: Request, mode: SplitMode)
    requires PassedTo(m, list, |list|, q, mode) && j < |list| && Needed(q) > 0
    ensures !Skipped(m, list, j, q, mode)
  {
    if Skipped(m, list, j, q, mode) {
      BetterAccepted(m, list, j, q, mode);
      AllRefused(m, list, j + 1, q, mode);
    }
  }

  /** The block at `k` is taken. */
  lemma StatePicks(m0: Hdrs, list0: seq<nat>, free0: nat, dropped0: nat, count0: nat, q: Request, mode: SplitMode,
                   m: Hdrs, list: seq<nat>, k: nat, free: nat, dropped: nat, count: nat, r: nat, age: nat)
    requires SearchState(m0, list0, free0, dropped0, count0, q, mode, m, list, k, free, dropped, count)
    requires k < |list| && IsFree(m, list[k]) && Accepts(list[k], m[list[k]], q, mode)
    requires !Skipped(m, list, k, q, mode) && StartsAt(list[k], m[list[k]].len, q, r)
    requires 0 < Needed(q) <= free && r != 0
    ensures
      SearchDone(m0, list0, free0, dropped0, count0, q, mode, r, m, k, age,
                 CarvedAt(m, list[k], r, Used(q.sz, q.kind), age), free - Needed(q), dropped, count)
  {
    hide Accepts, Better, Hopeless, Remains, StillFree, AllListed;
  }

  /** A search that goes on where another one has dropped a block. */
  lemma StateAgain(m0: Hdrs, list0: seq<nat>, free0: nat, dropped0: nat, count0: nat, q: Request, mode: SplitMode,
                   m1: Hdrs, list1: seq<nat>, k1: nat, free1: nat, dropped1: nat, count1: nat,
                   r: nat, m: Hdrs, k: nat, age: nat, m': Hdrs, free: nat, dropped: nat, count: nat)
    requires SearchState(m0, list0, free0, dropped0, count0, q, mode, m1, list1, k1, free1, dropped1, count1)
    requires SearchDone(m1, list1, free1, dropped1, count1, q, mode, r, m, k, age, m', free, dropped, count)
    requires dropped0 < dropped1
    ensures SearchDone(m0, list0, free0, dropped0, count0, q, mode, r, m, k, age, m', free, dropped, count)
    ensures StillFree(list1, m) == StillFree(list0, m)
  {
    RemainsTrans(m0, m1, m, q);
    StillFreeTwice(list0, m1, m);
    StillFreeMembers(list0, m1);
    forall h | h in list0 && r == 0 ensures !Accepts(h, m0[h], q, mode) {
      if !IsFree(m1, h) { HopelessRefused(h, m0[h], q, mode); }
    }
    hide Accepts, Hopeless, StillFree, PassedTo, TakenFrom;
  }
}
