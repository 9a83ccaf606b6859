/** The heap block allocator: block headers, size-class free lists and byte counters,
    updated in place by growing, allocating, freeing, unmapping and merging.  Sizes of free
    blocks and all counters are in heap blocks. */
module Allocator {
  import opened MarkHeap
  import opened Tiles
  import opened FreeList
  import opened FreeBlocks
  import opened Lists
  import opened Pages
  import opened HeapLayout
  import opened BlockSearch
  import opened ListSweep
  import opened Merging
  import BlackList

  ghost predicate InSects(sects: seq<(nat, nat)>, b: nat) {
    exists i :: 0 <= i < |sects| && sects[i].0 <= b < sects[i].0 + sects[i].1
  }

  /** The extents cover exactly the heap sections. */
  ghost predicate Covers(m: Hdrs, sects: seq<(nat, nat)>) {
    forall b: nat :: Owned(m, b) <==> InSects(sects, b)
  }

  lemma SectsExtended(sects: seq<(nat, nat)>, p: nat, n: nat)
    ensures forall b: nat :: InSects(sects + [(p, n)], b) <==> InSects(sects, b) || p <= b < p + n
  {
    var sects' := sects + [(p, n)];
    forall b: nat ensures InSects(sects', b) <==> InSects(sects, b) || p <= b < p + n {
      if i :| 0 <= i < |sects| && sects[i].0 <= b < sects[i].0 + sects[i].1 { assert sects'[i] == sects[i]; }
      if p <= b < p + n { assert sects'[|sects|] == (p, n); }
    }
  }

  lemma CoversExtended(m: Hdrs, hd: Hdr, m': Hdrs, sects: seq<(nat, nat)>, p: nat)
    requires Tiling(m) && Covers(m, sects) && p > 0 && Len(hd) > 0 && SameCover(m[p := hd], m')
    requires forall b: nat :: p <= b < p + Len(hd) ==> !InSects(sects, b)
    ensures Covers(m', sects + [(p, Len(hd))])
    ensures forall b: nat :: InSects(sects + [(p, Len(hd))], b) <==> InSects(sects, b) || p <= b < p + Len(hd)
  {
    hide InSects, Tiling;
    Extend(m, p, hd);
    SectsExtended(sects, p, Len(hd));
    var sects' := sects + [(p, Len(hd))];
    forall b: nat ensures Owned(m', b) <==> InSects(sects', b) {
      assert Owned(m', b) <==> Owned(m[p := hd], b);
      assert InSects(sects', b) <==> InSects(sects, b) || p <= b < p + Len(hd);
    }
  }

  lemma CoverRefl(m: Hdrs)
    ensures SameCover(m, m)
  {
  }

  // ------------------------------------------------------- what a search does

  /** Blocks in use stay; the only new ones are the result and, for searches that mind the
      black lists, single black-listed blocks that were dropped. */
  ghost predicate AllocEffect(m: Hdrs, m': Hdrs, r: nat, q: Request) {
    && SameCover(m, m') && 0 !in m'
    && (forall g :: g in m && m[g].Used? ==> g in m' && m'[g] == m[g])
    && (r != 0 ==> r in m' && m'[r] == Used(q.sz, q.kind) && !(r in m && m[r].Used?))
    && (forall g :: g in m' && m'[g].Used? && !(g in m && m[g].Used?) && g != r ==>
          m'[g] == SINGLE && Searched(q) && Blacklisted(q, g))
  }

  lemma CarvedEffect(m: Hdrs, m': Hdrs, r: nat, q: Request)
    requires SameCover(m, m') && 0 !in m' && !(r in m && m[r].Used?) &&
      UsedPart(m') == UsedPart(m)[r := Used(q.sz, q.kind)]
    ensures AllocEffect(m, m', r, q)
  {
    forall g | g in m && m[g].Used? ensures g in m' && m'[g] == m[g] {
      assert g in UsedPart(m) && g in UsedPart(m');
    }
    assert r in UsedPart(m');
    forall g | g in m' && m'[g].Used? && g != r ensures g in m && m[g].Used? {
      assert g in UsedPart(m');
    }
  }

  lemma DroppedEffect(m: Hdrs, h: nat, q: Request)
    requires Tiling(m) && IsFree(m, h) && Hopeless(h, m[h], q)
    ensures AllocEffect(m, Chopped(m, h, m[h].len), 0, q)
  {
    hide Blacklisted, SameCover, Chopped;
    ChopTiling(m, h);
    forall s | h <= s < End(m, h) ensures Blacklisted(q, s) { assert s + Needed(q) <= h + m[h].len; }
  }

  lemma NothingDone(m: Hdrs, q: Request)
    requires 0 !in m
    ensures AllocEffect(m, m, 0, q)
  {
  }

  lemma EffectTrans(a: Hdrs, b: Hdrs, c: Hdrs, r: nat, q: Request)
    requires AllocEffect(a, b, 0, q) && AllocEffect(b, c, r, q)
    ensures AllocEffect(a, c, r, q)
  {
    hide SameCover, Blacklisted;
    CoverTrans(a, b, c);
  }

  const ADDRESS_LIMIT := 0x10_0000_0000_0000

  class Heap {
    const munmap: bool
    const page: nat
    const fl: FreeLists
    var hdrs: Hdrs
    var sects: seq<(nat, nat)>
    var largeFree: nat
    var heapSize: nat
    var unmapped: nat
    var dropped: nat
    var dropCount: nat
    var gcNo: nat

    /** Headers and lists agree except for `odd`, which are on no list. */
    ghost predicate Mid(odd: set<nat>)
      reads this, fl, fl.heads, fl.bytes
    {
      && fl.Valid()
      && Listed(hdrs, fl.lists, fl.bytes[..], odd)
      && forall h :: h in odd ==> !OnList(fl.lists, h)
    }

    ghost predicate Core()
      reads this, fl, fl.heads, fl.bytes
    {
      && page > 0 && Mid({}) && Layout(hdrs, munmap)
      && largeFree == Sum(hdrs, FreeWeight)
      && unmapped == Sum(hdrs, UnmappedWeight(page))
    }

    ghost predicate Valid()
      reads this, fl, fl.heads, fl.bytes
    {
      && Core() && heapSize == Sum(hdrs, AllWeight) && Covers(hdrs, sects)
    }

    constructor (munmap: bool, page: nat)
      requires page > 0
      ensures Valid() && fresh(fl) && fresh(fl.heads) && fresh(fl.bytes)
      ensures this.munmap == munmap && this.page == page && hdrs == map[] && sects == []
      ensures heapSize == unmapped == dropped == dropCount == gcNo == 0
    {
      this.munmap := munmap;
      this.page := page;
      fl := new FreeLists();
      hdrs, sects := map[], [];
      largeFree, heapSize, unmapped, dropped, dropCount, gcNo := 0, 0, 0, 0, 0, 0;
      new;
      forall b: nat ensures !Owned(hdrs, b) && !InSects(sects, b) {
      }
    }

    /** Rearranging the blocks of a valid heap keeps it valid. */
    lemma StillValid(m: Hdrs)
      requires Core() && heapSize == Sum(m, AllWeight) == Sum(hdrs, AllWeight)
      requires Covers(m, sects) && SameCover(m, hdrs)
      ensures Valid()
    {
      hide Owned, InSects;
    }

    // ---------------------------------------------------------------- lists

    /** GC_remove_from_fl */
    method Take(h: nat, ghost odd: set<nat>)
      requires Mid(odd) && h !in odd && IsFree(hdrs, h)
      modifies fl, fl.heads, fl.bytes
      ensures Mid(odd + {h})
    {
      ghost var k := Find(hdrs, fl.lists, fl.bytes[..], odd, h);
      var i := FlIndex(hdrs[h].len);
      TakeAt(h, i, k, odd);
    }

    /** GC_remove_from_fl_at */
    method TakeAt(h: nat, i: nat, ghost k: nat, ghost odd: set<nat>)
      requires Mid(odd) && IsFree(hdrs, h)
      requires i <= N_HBLK_FLS && k < |fl.lists[i]| && fl.lists[i][k] == h && hdrs[h].len <= fl.bytes[i]
      modifies fl, fl.heads, fl.bytes
      ensures Mid(odd + {h})
      ensures fl.lists == old(fl.lists)[i := Without(old(fl.lists)[i], k)]
    {
      hide Listed, Linked;
      DistinctList(i);
      TakeListed(hdrs, fl.lists, fl.bytes[..], odd, h, i, k);
      fl.RemoveAt(h, hdrs[h].len, i, k);
    }

    lemma DistinctList(i: nat)
      requires fl.Valid() && i <= N_HBLK_FLS
      ensures Distinct(fl.lists[i])
    {
    }

    /** GC_add_to_fl */
    method Give(h: nat, ghost odd: set<nat>)
      requires Mid(odd) && h in odd && IsFree(hdrs, h) && h != 0
      modifies fl, fl.heads, fl.bytes
      ensures Mid(odd - {h})
      ensures fl.lists == old(fl.lists)[FlIndex(hdrs[h].len) := [h] + old(fl.lists)[FlIndex(hdrs[h].len)]]
    {
      hide Listed, Linked;
      GiveListed(hdrs, fl.lists, fl.bytes[..], odd, h);
      fl.AddFront(h, hdrs[h].len, FlIndex(hdrs[h].len));
    }

    // ---------------------------------------------------------------- freeing

    /** GC_free_block_ending_at: the free block that ends where `h` begins, or 0. */
    method FreeBlockEndingAt(h: nat) returns (p: nat)
      requires Tiling(hdrs)
      ensures p != 0 ==> IsFree(hdrs, p) && End(hdrs, p) == h
      ensures p == 0 ==> forall g :: IsFree(hdrs, g) ==> End(hdrs, g) != h
    {
      if g :| g in hdrs && IsFree(hdrs, g) && End(hdrs, g) == h {
        p := g;
      } else {
        p := 0;
      }
    }

    /** The neighbours `a` and its successor become one free block; the one of them that is
        still listed is taken from its list. */
    method Join(a: nat, listed: nat, ghost off: nat)
      requires Tiling(hdrs) && AdjacentFree(hdrs, a) && listed != off && {listed, off} == {a, End(hdrs, a)}
      requires Mid({off})
      modifies this`hdrs, fl, fl.heads, fl.bytes
      ensures hdrs == Joined(old(hdrs), a, gcNo) && Mid({a})
    {
      hide Listed, FreeLists.Valid, Tiling;
      ghost var b := End(hdrs, a);
      Take(listed, {off});
      assert {off} + {listed} == {a, b};
      ChangeListed(hdrs, Joined(hdrs, a, gcNo), fl.lists, fl.bytes[..], {a, b}, {a});
      hdrs := Joined(hdrs, a, gcNo);
    }

    /** GC_freehblk: the block becomes free and is merged with its free neighbours, `p` being
        the one before it. */
    method FreeHblk(hbp: nat) returns (ghost p: nat)
      requires Core() && hbp in hdrs && hdrs[hbp].Used?
      modifies this`hdrs, this`largeFree, fl, fl.heads, fl.bytes
      ensures Core() && (old(Valid()) ==> Valid())
      ensures UsedPart(hdrs) == UsedPart(old(hdrs)) - {hbp} && SameCover(old(hdrs), hdrs)
      ensures Sum(hdrs, AllWeight) == Sum(old(hdrs), AllWeight)
      ensures largeFree == old(largeFree) + Len(old(hdrs)[hbp])
      ensures hdrs == FreedAt(old(hdrs), hbp, p, gcNo)
      ensures
        if p == 0 then forall g :: IsFree(old(hdrs), g) ==> End(old(hdrs), g) != hbp
        else IsFree(old(hdrs), p) && End(old(hdrs), p) == hbp
    {
      hide Listed, FreeLists.Valid, Layout, Loose, Tiling, Sum, AdjacentFree, Home, OnList, SameCover, JoinedBoth;
      var h := hbp;
      var size := Len(hdrs[h]);
      FreedLoose(hdrs, h, gcNo, munmap);
      LayoutParts(hdrs, munmap);
      FreedKeeps(hdrs, h, gcNo, page);
      OffList(hdrs, fl.lists, fl.bytes[..], {}, h);
      ChangeListed(hdrs, hdrs[h := Free(size, false, gcNo)], fl.lists, fl.bytes[..], {}, {h});
      hdrs := hdrs[h := Free(size, false, gcNo)];
      ghost var m1 := hdrs;
      var prev := FreeBlockEndingAt(h);
      p := prev;
      BeforeFreed(old(hdrs), h, p, gcNo);
      h := Coalesce(h, prev);
      CoverTrans(old(hdrs), m1, hdrs);
      largeFree := largeFree + size;
      LayoutParts(hdrs, munmap);
      Give(h, {h});
      assert {h} - {h} == {};
      if old(Valid()) { StillValid(old(hdrs)); }
    }

    /** Merging the freed block with its successor, then with its predecessor. */
    method Coalesce(h: nat, prev: nat) returns (r: nat)
      requires page > 0 && Mid({h}) && Loose(hdrs, munmap, h, true, true)
      requires prev != 0 ==> IsFree(hdrs, prev) && End(hdrs, prev) == h
      requires prev == 0 ==> forall g :: IsFree(hdrs, g) ==> End(hdrs, g) != h
      modifies this`hdrs, fl, fl.heads, fl.bytes
      ensures Mid({r}) && IsFree(hdrs, r) && Layout(hdrs, munmap) && Rearranged(old(hdrs), hdrs, page)
      ensures h in old(hdrs) && hdrs == JoinedBoth(old(hdrs), h, prev, gcNo)
    {
      hide Listed, FreeLists.Valid, Layout, Loose, Rearranged, Tiling, Sum;
      r := h;
      LooseParts(hdrs, munmap, h, true, true);
      NextJoined(hdrs, h, gcNo, munmap);
      RearrangedRefl(hdrs, page);
      if CanJoin(hdrs, h) {
        JoinKeeps(hdrs, h, gcNo, page);
        PrevStays(hdrs, h, prev, gcNo);
        Join(h, End(hdrs, h), h);
      }
      LooseParts(hdrs, munmap, h, true, false);
      if prev != 0 {
        PrevJoined(hdrs, prev, h, gcNo, munmap);
        if CanJoin(hdrs, prev) {
          JoinKeeps(hdrs, prev, gcNo, page);
          RearrangedTrans(old(hdrs), hdrs, Joined(hdrs, prev, gcNo), page);
          Join(prev, prev, h);
          r := prev;
        }
      } else {
        NoPrev(hdrs, h, munmap);
      }
    }

    // ---------------------------------------------------------------- growing

    /** GC_add_to_heap: new memory becomes one free block, merged with its neighbours.  The
        lowest two blocks and the highest of the address space are left out. */
    method AddToHeap(start: nat, blocks: nat) returns (ghost before: nat)
      requires Valid() && 0 < blocks < SIGNED_LIMIT && start + blocks <= ADDRESS_LIMIT
      requires forall b: nat :: start <= b < start + blocks ==> !InSects(sects, b)
      modifies this`hdrs, this`sects, this`largeFree, this`heapSize, fl, fl.heads, fl.bytes
      ensures Valid()
      ensures UsedPart(hdrs) == UsedPart(old(hdrs))
      ensures forall b: nat :: InSects(sects, b) <==>
        InSects(old(sects), b) || (start <= b < start + blocks && 1 < b < ADDRESS_LIMIT - 1)
      ensures
        var p := if start <= 1 then 2 else start;
        var end := if start + blocks == ADDRESS_LIMIT then ADDRESS_LIMIT - 1 else start + blocks;
        if p >= end then hdrs == old(hdrs) && sects == old(sects)
        else
          && sects == old(sects) + [(p, end - p)] && heapSize == old(heapSize) + (end - p)
          && hdrs == FreedAt(old(hdrs)[p := Used((end - p) * HBLKSIZE, PtrFree)], p, before, gcNo)
    {
      hide Listed, FreeLists.Valid, Layout, Tiling, Sum, InSects, Owned, SameCover, JoinedBoth;
      before := 0;
      var p, n := start, blocks;
      while p <= 1
        invariant start <= p && p + n == start + blocks && 0 < n <= blocks
        invariant p > start ==> p <= 2
        modifies {}
      {
        p := p + 1;
        n := n - 1;
        if n == 0 { return; }
      }
      if p + n == ADDRESS_LIMIT {
        n := n - 1;
        if n == 0 { return; }
      }
      var hd := Used(n * HBLKSIZE, PtrFree);
      WholeBlocks(n);
      LayoutParts(hdrs, munmap);
      NewMemory(p, n);
      ExtendedKeeps(hdrs, p, hd, munmap, page);
      ghost var m := hdrs;
      OffList(m, fl.lists, fl.bytes[..], {}, p);
      ChangeListed(m, m[p := hd], fl.lists, fl.bytes[..], {}, {});
      sects := sects + [(p, n)];
      hdrs := hdrs[p := hd];
      before := FreeHblk(p);
      heapSize := heapSize + n;
      CoversExtended(m, hd, hdrs, old(sects), p);
    }

    lemma NewMemory(p: nat, n: nat)
      requires Covers(hdrs, sects)
      requires forall b: nat :: p <= b < p + n ==> !InSects(sects, b)
      ensures forall b: nat :: p <= b < p + n ==> !Owned(hdrs, b)
    {
    }

    // ---------------------------------------------------------------- mapping

    /** GC_remap */
    method Remap(h: nat)
      requires Core() && IsFree(hdrs, h) && hdrs[h].unmapped
      modifies this`hdrs, this`unmapped
      ensures Core() && hdrs == old(hdrs)[h := old(hdrs)[h].(unmapped := false)]
    {
      hide Listed, FreeLists.Valid, Layout, Tiling, Sum;
      LayoutParts(hdrs, munmap);
      RemappedKeeps(hdrs, h, hdrs[h].(unmapped := false), munmap, page);
      var bytes := ExtentOf(page, h, hdrs[h].len);
      ChangeListed(hdrs, hdrs[h := hdrs[h].(unmapped := false)], fl.lists, fl.bytes[..], {}, {});
      unmapped := unmapped - bytes;
      hdrs := hdrs[h := hdrs[h].(unmapped := false)];
    }

    // ---------------------------------------------------------------- carving

    /** `h`, possibly of the wrong length for it, is on list `n` only. */
    ghost predicate MovingOn(h: nat, n: nat)
      reads this, fl, fl.heads, fl.bytes
    {
      && fl.Valid() && Listed(hdrs, fl.lists, fl.bytes[..], {h})
      && n <= N_HBLK_FLS && h in fl.lists[n]
      && forall j :: 0 <= j < |fl.lists| && h in fl.lists[j] ==> j == n
    }

    /** GC_split_block: `u` takes over the tail of `h` and its place on list `n`. */
    method SplitBlock(h: nat, u: nat, n: nat, ghost k: nat)
      requires Mid({}) && IsFree(hdrs, h) && h != 0 && h < u < End(hdrs, h) && u !in hdrs
      requires n <= N_HBLK_FLS && k < |fl.lists[n]| && fl.lists[n][k] == h
      modifies this`hdrs, fl, fl.heads, fl.bytes
      ensures hdrs == SplitAt(old(hdrs), h, u, gcNo) && MovingOn(u, n)
    {
      hide Listed, Linked;
      var total := hdrs[h].len;
      ghost var m, m' := hdrs, SplitAt(hdrs, h, u, gcNo);
      DistinctList(n);
      PutListed(m, m', fl.lists, fl.bytes[..], h, u, n, k);
      fl.ReplaceAt(h, u, u - h, n, k);
      hdrs := hdrs[h := Free(u - h, hdrs[h].unmapped, gcNo)];
      hdrs := hdrs[u := Free(total - (u - h), false, gcNo)];
      assert hdrs == m';
      GiveListed(hdrs, fl.lists, fl.bytes[..], {h, u}, h);
      assert {h, u} - {h} == {u};
      assert fl.lists[n][k] in fl.lists[n];
      fl.AddFront(h, u - h, FlIndex(u - h));
    }

    /** GC_get_first_part: `h` leaves list `n` and what it has beyond `needed` goes to the
        list for its length. */
    method GetFirstPart(h: nat, needed: nat, n: nat)
      requires MovingOn(h, n) && IsFree(hdrs, h) && 0 < needed <= hdrs[h].len
      requires needed < hdrs[h].len ==> h + needed !in hdrs
      modifies this`hdrs, fl, fl.heads, fl.bytes
      ensures Mid({h})
      ensures hdrs == if old(hdrs)[h].len == needed then old(hdrs)
                      else old(hdrs)[h + needed := Free(old(hdrs)[h].len - needed, false, gcNo)]
    {
      hide Listed, Linked;
      var total := hdrs[h].len;
      ghost var k :| 0 <= k < |fl.lists[n]| && fl.lists[n][k] == h;
      DistinctList(n);
      LenOnList(hdrs, fl.lists, fl.bytes[..], {h}, n, k);
      TakeListed(hdrs, fl.lists, fl.bytes[..], {h}, h, n, k);
      assert {h} + {h} == {h};
      fl.RemoveAt(h, total, n, k);
      if total == needed { return; }
      var rest := h + needed;
      OffList(hdrs, fl.lists, fl.bytes[..], {h}, rest);
      ChangeListed(hdrs, hdrs[rest := Free(total - needed, false, gcNo)], fl.lists, fl.bytes[..], {h}, {h, rest});
      hdrs := hdrs[rest := Free(total - needed, false, gcNo)];
      Give(rest, {h, rest});
      assert {h, rest} - {rest} == {h};
    }

    lemma HomeOf(h: nat, n: nat, k: nat)
      requires Mid({}) && n <= N_HBLK_FLS && k < |fl.lists[n]| && fl.lists[n][k] == h
      ensures MovingOn(h, n)
    {
      assert h in fl.lists[n];
      assert Home(hdrs, fl.lists, h);
    }

    /** The mapped block `h` is split at `u`, and its first part gets the header `hd`. */
    method CutOut(h: nat, u: nat, hd: Hdr, n: nat, ghost k: nat)
      requires Core() && IsFree(hdrs, h) && hd.Used? && 0 < Len(hd) && h <= u && u + Len(hd) <= End(hdrs, h)
      requires !hdrs[h].unmapped && n <= N_HBLK_FLS && k < |fl.lists[n]| && fl.lists[n][k] == h
      modifies this`hdrs, this`largeFree, fl, fl.heads, fl.bytes
      ensures Core() && GivenOut(old(hdrs), hdrs, u, hd, page)
      ensures hdrs == FirstPart(SplitAt(old(hdrs), h, u, gcNo), u, hd, gcNo) && largeFree == old(largeFree) - Len(hd)
    {
      hide Listed, FreeLists.Valid, Layout, Tiling, Sum, SameCover, UsedPart, SizeToBlocks;
      LayoutParts(hdrs, munmap);
      ghost var m := hdrs;
      CutLayout(m, h, u, hd, gcNo, munmap, page);
      FreeFits(m, h);
      HomeOf(h, n, k);
      if u != h {
        SplitBlock(h, u, n, k);
      }
      GetFirstPart(u, Len(hd), n);
      ChangeListed(hdrs, hdrs[u := hd], fl.lists, fl.bytes[..], {u}, {});
      hdrs := hdrs[u := hd];
      largeFree := largeFree - Len(hd);
      assert hdrs == FirstPart(SplitAt(m, h, u, gcNo), u, hd, gcNo);
    }

    /** The end of a successful search: `h` is mapped, split at `u`, and its first part gets
        the header `hd`. */
    method Carve(h: nat, u: nat, hd: Hdr, n: nat, ghost k: nat)
      requires Core() && IsFree(hdrs, h) && hd.Used? && 0 < Len(hd) && h <= u && u + Len(hd) <= End(hdrs, h)
      requires n <= N_HBLK_FLS && k < |fl.lists[n]| && fl.lists[n][k] == h
      modifies this`hdrs, this`largeFree, this`unmapped, fl, fl.heads, fl.bytes
      ensures Core()
      ensures SameCover(old(hdrs), hdrs) && !(u in old(hdrs) && old(hdrs)[u].Used?)
      ensures UsedPart(hdrs) == UsedPart(old(hdrs))[u := hd]
      ensures Sum(hdrs, AllWeight) == Sum(old(hdrs), AllWeight)
      ensures hdrs == CarvedAt(old(hdrs), h, u, hd, gcNo) && largeFree == old(largeFree) - Len(hd)
    {
      hide Mid, Layout, Tiling, Sum, SameCover, UsedPart, SizeToBlocks, FirstPart, SplitAt;
      LayoutParts(hdrs, munmap);
      CoverRefl(hdrs);
      if hdrs[h].unmapped {
        RemappedKeeps(hdrs, h, hdrs[h].(unmapped := false), munmap, page);
        Remap(h);
      }
      ghost var m := hdrs;
      assert m == old(hdrs)[h := old(hdrs)[h].(unmapped := false)];
      CutOut(h, u, hd, n, k);
      CoverTrans(old(hdrs), m, hdrs);
    }

    // ---------------------------------------------------------------- searching

    /** The links and the header walk along a list. */
    lemma Walk(i: nat, k: nat)
      requires fl.Valid() && i <= N_HBLK_FLS
      ensures fl.heads[i] == Item(fl.lists[i], 0)
      ensures k < |fl.lists[i]| ==>
        var h := fl.lists[i][k];
        h != 0 && h in fl.next && h in fl.prev
        && fl.next[h] == Item(fl.lists[i], k + 1) && fl.prev[h] == Item(fl.lists[i], k - 1)
    {
      if k < |fl.lists[i]| { assert At(fl.next, fl.prev, fl.lists[i], k); }
    }

    lemma ListCount()
      requires Mid({})
      ensures |fl.lists| == fl.heads.Length == fl.bytes.Length == N_HBLK_FLS + 1
    {
    }

    lemma OnListIsFree(i: nat, k: nat)
      requires Mid({}) && i <= N_HBLK_FLS && k < |fl.lists[i]|
      ensures IsFree(hdrs, fl.lists[i][k]) && i == FlIndex(hdrs[fl.lists[i][k]].len)
    {
      assert fl.lists[i][k] in fl.lists[i];
      assert Home(hdrs, fl.lists, fl.lists[i][k]);
    }

    /** The next block on the list is smaller, still large enough and not black listed. */
    method NextIsBetter(hbp: nat, q: Request, n: nat, ghost k: nat) returns (better: bool)
      requires Mid({}) && n <= N_HBLK_FLS && k < |fl.lists[n]| && fl.lists[n][k] == hbp && 0 < Needed(q)
      ensures better <==> Better(hdrs, fl.lists[n], k, q)
    {
      Walk(n, k);
      Walk(n, k + 1);
      OnListIsFree(n, k);
      var h := fl.next[hbp];
      better := false;
      if h != 0 {
        OnListIsFree(n, k + 1);
        if hdrs[h].len < hdrs[hbp].len && hdrs[h].len >= Needed(q) {
          var r := BlackList.IsBlackListed(q.tables, h, Needed(q) * HBLKSIZE);
          better := r == 0;
        }
      }
    }

    /** Stepping over starts that are black listed. */
    method SkipBlackListed(hbp: nat, avail: nat, q: Request) returns (start: nat)
      requires 0 < Needed(q) <= avail
      ensures hbp <= start <= hbp + avail
      ensures forall s :: hbp <= s < start ==> Blacklisted(q, s)
      ensures start + Needed(q) <= hbp + avail ==> !Blacklisted(q, start)
    {
      var searchEnd := hbp + avail - Needed(q);
      start := hbp;
      while start <= searchEnd
        invariant hbp <= start <= hbp + avail
        invariant forall s :: hbp <= s < start ==> Blacklisted(q, s)
        decreases hbp + avail - start
      {
        var later := BlackList.IsBlackListed(q.tables, start, EffNeeded(q) * HBLKSIZE);
        if later == 0 { return; }
        start := later;
      }
    }

    lemma BytesCover(i: nat, k: nat)
      requires Mid({}) && i <= N_HBLK_FLS && k < |fl.lists[i]|
      ensures BlockLen(hdrs, fl.lists[i][k]) <= fl.bytes[i]
    {
      LenOnList(hdrs, fl.lists, fl.bytes[..], {}, i, k);
    }

    /** A black-listed block is given up: its parts become pointer-free blocks in use. */
    method Drop(hbp: nat, n: nat, ghost k: nat)
      requires Core() && n <= N_HBLK_FLS && k < |fl.lists[n]| && fl.lists[n][k] == hbp
      requires IsFree(hdrs, hbp) && !hdrs[hbp].unmapped
      modifies this`hdrs, this`largeFree, this`dropped, fl, fl.heads, fl.bytes
      ensures Core()
      ensures hdrs == Chopped(old(hdrs), hbp, old(hdrs)[hbp].len)
      ensures fl.lists == old(fl.lists)[n := Without(old(fl.lists)[n], k)]
      ensures dropped == old(dropped) + old(hdrs)[hbp].len
      ensures largeFree == old(largeFree) - old(hdrs)[hbp].len
    {
      hide Listed, FreeLists.Valid, Layout, Tiling, Sum, SameCover, Chopped;
      var total := hdrs[hbp].len;
      ghost var m := hdrs;
      FreeFits(m, hbp);
      LayoutParts(m, munmap);
      ChopKeeps(m, hbp, munmap, page);
      InnerFree(m, hbp);
      BytesCover(n, k);
      largeFree := largeFree - total;
      dropped := dropped + total;
      TakeAt(hbp, n, k, {});
      ghost var lists, bytes := fl.lists, fl.bytes[..];
      assert Listed(m, lists, bytes, {hbp}) by { assert {} + {hbp} == {hbp}; }
      ChoppedNone(m, hbp);
      var i := 0;
      while i < total
        invariant 0 <= i <= total && hdrs == Chopped(m, hbp, i)
        modifies this`hdrs
      {
        ChoppedStep(m, hbp, i);
        hdrs := hdrs[hbp + i := SINGLE];
        i := i + 1;
      }
      ChoppedAt(m, hbp, total);
      ChangeListed(m, hdrs, lists, bytes, {hbp}, {});
      assert fl.lists == lists && fl.bytes[..] == bytes;
    }

    /** Where in the free block `hbp` the result can start; `hopeless` when every block of it
        is black listed for a one-block request. */
    method ChooseStart(hbp: nat, q: Request, mode: SplitMode) returns (ok: bool, start: nat, hopeless: bool)
      requires IsFree(hdrs, hbp) && Suitable(hdrs[hbp], q, mode) && 0 < Needed(q)
      ensures ok <==> Accepts(hbp, hdrs[hbp], q, mode)
      ensures ok ==> StartsAt(hbp, hdrs[hbp].len, q, start)
      ensures hopeless <==> Hopeless(hbp, hdrs[hbp], q)
    {
      hide Blacklisted;
      var avail := hdrs[hbp].len;
      ok, start, hopeless := true, hbp, false;
      if Searched(q) {
        start := SkipBlackListed(hbp, avail, q);
        if start + Needed(q) <= hbp + avail {
          assert !AllListed(hbp, avail, q);
          ok := !(start != hbp && mode == AvoidRemapped && hdrs[hbp].unmapped);
        } else {
          assert Blacklisted(q, hbp);
          if Needed(q) * HBLKSIZE > q.spacing && (avail - Needed(q)) * HBLKSIZE > q.spacing {
            start := hbp;
          } else {
            ok := false;
            hopeless := start == hbp + avail && Needed(q) == 1 && !hdrs[hbp].unmapped && !q.findLeak;
          }
        }
      }
    }

    /** A hopeless block is passed over three times and dropped the fourth; dropping the
        first block of a list restarts the search. */
    method GiveUp(hbp: nat, q: Request, n: nat, ghost k: nat) returns (next: nat, ghost k': nat, restart: bool)
      requires Core() && n <= N_HBLK_FLS && k < |fl.lists[n]| && fl.lists[n][k] == hbp
      requires IsFree(hdrs, hbp) && Hopeless(hbp, hdrs[hbp], q)
      modifies this`hdrs, this`largeFree, this`dropped, this`dropCount, fl, fl.heads, fl.bytes
      ensures Core() && |fl.lists| == N_HBLK_FLS + 1
      ensures AllocEffect(old(hdrs), hdrs, 0, q) && Sum(hdrs, AllWeight) == Sum(old(hdrs), AllWeight)
      ensures dropCount == old(dropCount) + 1
      ensures
        if dropCount % 4 == 0 then
          && hdrs == Chopped(old(hdrs), hbp, old(hdrs)[hbp].len)
          && fl.lists == old(fl.lists)[n := Without(old(fl.lists)[n], k)]
          && dropped == old(dropped) + old(hdrs)[hbp].len && largeFree == old(largeFree) - old(hdrs)[hbp].len
          && (restart <==> k == 0) && k' == k
        else
          && hdrs == old(hdrs) && fl.lists == old(fl.lists) && dropped == old(dropped) && largeFree == old(largeFree)
          && !restart && k' == k + 1
      ensures !restart ==> next == Item(fl.lists[n], k')
    {
      hide Listed, FreeLists.Valid, Layout, Tiling, Sum, SameCover, AllocEffect, Chopped, Blacklisted;
      Walk(n, k);
      if k > 0 { Walk(n, k - 1); }
      ListCount();
      LayoutParts(hdrs, munmap);
      NothingDone(hdrs, q);
      k', restart := k, false;
      dropCount := dropCount + 1;
      if dropCount % 4 == 0 {
        var prev := fl.prev[hbp];
        DroppedEffect(hdrs, hbp, q);
        ChopKeeps(hdrs, hbp, munmap, page);
        Drop(hbp, n, k);
        ListCount();
        if prev == 0 {
          next, restart := 0, true;
          return;
        }
        Walk(n, k - 1);
        next := fl.next[prev];
      } else {
        next, k' := fl.next[hbp], k + 1;
      }
    }

    /** What a search does at the block in position `k`: take it from `start` on if it is `ok`,
        and else go on, after counting it if it is hopeless. */
    method Consider(hbp: nat, q: Request, mode: SplitMode, n: nat, ghost k: nat)
      returns (ok: bool, start: nat, hopeless: bool)
      requires Mid({}) && n <= N_HBLK_FLS && k < |fl.lists[n]| && fl.lists[n][k] == hbp && 0 < Needed(q)
      ensures IsFree(hdrs, hbp)
      ensures ok <==> Accepts(hbp, hdrs[hbp], q, mode) && !Skipped(hdrs, fl.lists[n], k, q, mode)
      ensures ok ==> StartsAt(hbp, hdrs[hbp].len, q, start)
      ensures hopeless <==> Counts(hbp, hdrs[hbp], q, mode) && !Skipped(hdrs, fl.lists[n], k, q, mode)
    {
      hide Mid, Blacklisted, Searched, AllListed, StartsAt, Hopeless, Punts;
      OnListIsFree(n, k);
      var avail := hdrs[hbp].len;
      if avail < Needed(q) { return false, 0, false; }
      if avail != Needed(q) {
        if mode == Never { return false, 0, false; }
        var better := NextIsBetter(hbp, q, n, k);
        if better { return false, 0, false; }
      }
      ok, start, hopeless := ChooseStart(hbp, q, mode);
    }

    /** The block at position `k`, and where its link leads. */
    lemma PlaceFacts(n: nat, k: nat)
      requires Core() && n <= N_HBLK_FLS
      ensures Mid({}) && fl.Valid() && |fl.lists| == fl.heads.Length == N_HBLK_FLS + 1 && Distinct(fl.lists[n])
      ensures forall h :: h in fl.lists[n] ==> IsFree(hdrs, h)
      ensures fl.heads[n] == Item(fl.lists[n], 0)
      ensures Item(fl.lists[n], k) == if k < |fl.lists[n]| then fl.lists[n][k] else 0
      ensures
        k < |fl.lists[n]| ==>
          var h := fl.lists[n][k];
          h != 0 && IsFree(hdrs, h) && h in hdrs && hdrs[h].Free? && hdrs[h].len <= largeFree
          && h in fl.next && fl.next[h] == Item(fl.lists[n], k + 1)
    {
      hide Listed, Layout, Linked, Sum;
      DistinctList(n);
      forall h | h in fl.lists[n] ensures IsFree(hdrs, h) {
        var j :| 0 <= j < |fl.lists[n]| && fl.lists[n][j] == h;
        OnListIsFree(n, j);
      }
      Walk(n, k);
      if k < |fl.lists[n]| {
        OnListIsFree(n, k);
        SumRemove(hdrs, FreeWeight, fl.lists[n][k]);
      }
    }

    /** GC_allochblk_nth: the first good enough block on list `n`.  Before something is taken the
        headers are `m`, and what is taken from is the block at position `k` of what is left of
        the list by then. */
    method AllocHblkNth(q: Request, n: nat, mode: SplitMode) returns (r: nat, ghost m: Hdrs, ghost k: nat)
      requires Core() && n <= N_HBLK_FLS && 0 < Needed(q)
      modifies this`hdrs, this`largeFree, this`unmapped, this`dropped, this`dropCount, fl, fl.heads, fl.bytes
      ensures Core()
      ensures AllocEffect(old(hdrs), hdrs, r, q) && Sum(hdrs, AllWeight) == Sum(old(hdrs), AllWeight)
      ensures
        SearchDone(old(hdrs), old(fl.lists[n]), old(largeFree), old(dropped), old(dropCount), q, mode, r, m, k, gcNo,
                   hdrs, largeFree, dropped, dropCount)
      ensures r == 0 ==> fl.lists == old(fl.lists)[n := StillFree(old(fl.lists[n]), hdrs)]
      decreases |fl.lists[n]|
    {
      hide *;
      ghost var m0, lists0, free0, dropped0, count0 := hdrs, fl.lists, largeFree, dropped, dropCount;
      k := 0;
      PlaceFacts(n, 0);
      CoreMid();
      NothingDone(hdrs, q);
      StateStart(m0, lists0[n], free0, dropped0, count0, q, mode);
      var hbp := fl.heads[n];
      while true
        invariant Core() && |fl.lists| == N_HBLK_FLS + 1 && hbp == Item(fl.lists[n], k)
        invariant AllocEffect(m0, hdrs, 0, q) && Sum(hdrs, AllWeight) == Sum(m0, AllWeight)
        invariant fl.lists == lists0[n := fl.lists[n]] && |fl.lists[n]| <= |lists0[n]|
        invariant SearchState(m0, lists0[n], free0, dropped0, count0, q, mode, hdrs, fl.lists[n], k, largeFree,
                              dropped, dropCount)
        decreases |fl.lists[n]| - k
      {
        PlaceFacts(n, k);
        StateFacts(m0, lists0[n], free0, dropped0, count0, q, mode, hdrs, fl.lists[n], k, largeFree, dropped,
                   dropCount);
        if hbp == 0 {
          StateEnds(m0, lists0[n], free0, dropped0, count0, q, mode, hdrs, fl.lists[n], largeFree, dropped, dropCount,
                    k, gcNo);
          return 0, hdrs, k;
        }
        var ok, start, hopeless := Consider(hbp, q, mode, n, k);
        if ok {
          m := hdrs;
          TakenFacts(m, hbp, q, start);
          StatePicks(m0, lists0[n], free0, dropped0, count0, q, mode, m, fl.lists[n], k, largeFree, dropped, dropCount,
                     start, gcNo);
          Carve(hbp, start, Used(q.sz, q.kind), n, k);
          CoreMid();
          CarvedEffect(m, hdrs, start, q);
          EffectTrans(m0, m, hdrs, start, q);
          return start, m, k;
        }
        if !hopeless {
          StateOn(m0, lists0[n], free0, dropped0, count0, q, mode, hdrs, fl.lists[n], k, largeFree, dropped, dropCount);
          hbp, k := fl.next[hbp], k + 1;
          continue;
        }
        CountsFacts(hbp, hdrs[hbp], q, mode);
        WithoutShorter(fl.lists[n], k);
        CoreTiling();
        if (dropCount + 1) % 4 == 0 {
          StateDropped(m0, lists0[n], free0, dropped0, count0, q, mode, hdrs, fl.lists[n], k, largeFree, dropped,
                       dropCount);
        } else {
          StateCounted(m0, lists0[n], free0, dropped0, count0, q, mode, hdrs, fl.lists[n], k, largeFree, dropped,
                       dropCount);
        }
        ghost var m1 := hdrs;
        var restart;
        hbp, k, restart := GiveUp(hbp, q, n, k);
        EffectTrans(m0, m1, hdrs, 0, q);
        if restart {
          ghost var m2, lists2, free2, dropped2, count2 := hdrs, fl.lists, largeFree, dropped, dropCount;
          r, m, k := AllocHblkNth(q, n, mode);
          EffectTrans(m0, m2, hdrs, r, q);
          StateAgain(m0, lists0[n], free0, dropped0, count0, q, mode, m2, lists2[n], 0, free2, dropped2, count2,
                     r, m, k, gcNo, hdrs, largeFree, dropped, dropCount);
          DoneFacts(m2, lists2[n], free2, dropped2, count2, q, mode, r, m, k, gcNo, hdrs, largeFree, dropped,
                    dropCount);
          return;
        }
      }
    }

    /** GC_enough_large_bytes_left: the largest list index from which on the free lists make
        up for the large objects that could still come back, or 0. */
    method EnoughLargeBytesLeft(largeAllocd: nat, maxLargeAllocd: nat) returns (r: nat)
      requires fl.bytes.Length == N_HBLK_FLS + 1
      ensures r <= N_HBLK_FLS
      ensures r > 0 ==> largeAllocd + TotalFrom(fl.bytes[..], r) >= maxLargeAllocd
      ensures forall n :: r < n <= N_HBLK_FLS ==> largeAllocd + TotalFrom(fl.bytes[..], n) < maxLargeAllocd
    {
      hide TotalFrom;
      var n: int := N_HBLK_FLS;
      var bytes := largeAllocd;
      ghost var all := fl.bytes[..];
      TotalFromEnd(all);
      while n >= 0
        invariant -1 <= n <= N_HBLK_FLS && bytes == largeAllocd + TotalFrom(all, n + 1)
        invariant forall i :: n < i <= N_HBLK_FLS ==> largeAllocd + TotalFrom(all, i) < maxLargeAllocd
      {
        TotalFromStep(all, n);
        bytes := bytes + fl.bytes[n];
        if bytes >= maxLargeAllocd { return n; }
        n := n - 1;
      }
      return 0;
    }

    /** GC_allochblk: an exact match first, then the larger lists up to a split limit that the
        state of the collector sets.  What is taken was found on list `n`, in the first pass if
        it is `exact`, else in the `mode` that goes with the `limit`. */
    method AllocHblk(q: Request, useMore: bool, finalizersFreed: nat, largeAllocd: nat, maxLargeAllocd: nat)
      returns (r: nat, ghost m: Hdrs, ghost k: nat, ghost n: nat, ghost exact: bool, ghost mode: SplitMode,
               ghost limit: nat, ghost bytes: seq<nat>)
      requires Valid() && 0 < Needed(q)
      modifies this`hdrs, this`largeFree, this`unmapped, this`dropped, this`dropCount, fl, fl.heads, fl.bytes
      ensures Valid()
      ensures AllocEffect(old(hdrs), hdrs, r, q)
      ensures
        DropsCounted(old(largeFree), old(dropped), old(dropCount), largeFree + if r == 0 then 0 else Needed(q),
                     dropped, dropCount)
      ensures Remains(old(hdrs), m, q) && (dropped == old(dropped) ==> m == old(hdrs)) && (r == 0 ==> hdrs == m)
      ensures
        r != 0 ==>
          && n <= N_HBLK_FLS && TakenFrom(m, StillFree(old(fl.lists[n]), m), k, q, if exact then Never else mode, r,
                                          gcNo, hdrs)
          && if exact then n == FlIndex(Needed(q)) else n <= limit && RefusedBelow(old(hdrs), q, mode, n)
      ensures r == 0 ==> RefusedBelow(old(hdrs), q, mode, limit + 1)
      ensures
        (r == 0 || !exact) && Needed(q) < SIGNED_LIMIT ==>
          && BytesLeft(old(fl.bytes[..]), bytes, FlIndex(Needed(q)), dropped - old(dropped))
          && |bytes| == N_HBLK_FLS + 1
          && LimitSet(bytes, useMore, finalizersFreed, heapSize, largeAllocd, maxLargeAllocd, munmap, limit, mode)
      ensures r != 0 && Searched(q) && Needed(q) * HBLKSIZE <= q.spacing ==> !Blacklisted(q, r)
      ensures !Searched(q) ==> dropped == old(dropped)
      ensures
        r == 0 && useMore ==> forall h: nat, u: nat ::
          IsFree(old(hdrs), h) && h <= u && u + Needed(q) <= End(old(hdrs), h) ==> Blacklisted(q, u)
      ensures
        r == 0 && useMore && Needed(q) * HBLKSIZE > q.spacing ==> forall h ::
          IsFree(old(hdrs), h) ==> old(hdrs)[h].len * HBLKSIZE <= Needed(q) * HBLKSIZE + q.spacing
      ensures r == 0 && useMore && !Searched(q) ==> forall h :: IsFree(old(hdrs), h) ==> old(hdrs)[h].len < Needed(q)
    {
      hide *;
      ghost var m0, lists0, bytes0 := hdrs, fl.lists, fl.bytes[..];
      ghost var free0, dropped0, count0 := largeFree, dropped, dropCount;
      ValidParts();
      NothingDone(hdrs, q);
      RemainsRefl(hdrs, q);
      LastList(Needed(q));
      r, m, k, n, exact, mode, limit, bytes := 0, hdrs, 0, 0, false, Always, N_HBLK_FLS, [];
      var blocks := Needed(q);
      if blocks >= SIGNED_LIMIT {
        TooLarge(hdrs, munmap, q);
        NothingLeftParts(m0, q);
        DropsRefl(free0, dropped0, count0);
        return;
      }
      var startList := FlIndex(blocks);
      SiftedStart(m0, lists0, bytes0);
      n, exact := startList, true;
      r, m, k := AllocHblkNth(q, startList, Never);
      DoneFacts(m0, lists0[n], free0, dropped0, count0, q, Never, r, m, k, gcNo, hdrs, largeFree, dropped, dropCount);
      CoversKept(m0, hdrs, r, q, sects);
      ValidAgain();
      if r != 0 { return; }
      ValidParts();
      exact, bytes := false, fl.bytes[..];
      ghost var gone := dropped - dropped0;
      BytesDropped(m0, lists0, bytes0, n, hdrs, bytes, q, gone);
      SiftedNext(lists0, m0, lists0, n, hdrs, bytes, q);
      var splitLimit, splitMode := SplitLimit(useMore, finalizersFreed, largeAllocd, maxLargeAllocd);
      mode, limit := splitMode, splitLimit;
      ExactRefused(m0, lists0, bytes0, q, mode);
      if startList < UNIQUE_THRESHOLD { startList := startList + 1; }
      while startList <= splitLimit
        invariant Valid() && r == 0 && AllocEffect(m0, hdrs, 0, q) && |fl.lists| == N_HBLK_FLS + 1
        invariant Remains(m0, hdrs, q) && Sifted(lists0, hdrs, fl.lists) && RefusedBelow(m0, q, mode, startList)
        invariant mode == splitMode && limit == splitLimit <= N_HBLK_FLS
        invariant DropsCounted(free0, dropped0, count0, largeFree, dropped, dropCount) && dropped0 + gone <= dropped
        invariant (dropped == dropped0 ==> hdrs == m0) && (!Searched(q) ==> dropped == dropped0)
        decreases splitLimit - startList
      {
        ghost var m1, lists1, free1, dropped1, count1 := hdrs, fl.lists, largeFree, dropped, dropCount;
        n := startList;
        ValidParts();
        r, m, k := AllocHblkNth(q, startList, splitMode);
        DoneFacts(m1, lists1[n], free1, dropped1, count1, q, mode, r, m, k, gcNo, hdrs, largeFree, dropped, dropCount);
        DropsTrans(free0, dropped0, count0, free1, dropped1, count1, largeFree + if r == 0 then 0 else blocks,
                   dropped, dropCount);
        RemainsTrans(m0, m1, m, q);
        EffectTrans(m0, m1, hdrs, r, q);
        CoversKept(m1, hdrs, r, q, sects);
        ValidAgain();
        SiftedAgain(lists0, m1, lists1, n, m, q);
        if r != 0 {
          BytesMore(bytes0, bytes, FlIndex(blocks), gone, dropped - dropped0);
          return;
        }
        ValidParts();
        SiftedNext(lists0, m1, lists1, n, hdrs, fl.bytes[..], q);
        SweptList(m0, lists0, bytes0, q, mode, m1, lists1, n);
        startList := startList + 1;
      }
      m := hdrs;
      BytesMore(bytes0, bytes, FlIndex(blocks), gone, dropped - dropped0);
      RefusedLess(m0, q, mode, startList, limit + 1);
      if useMore {
        LimitOpen(bytes, finalizersFreed, heapSize, largeAllocd, maxLargeAllocd, munmap, limit, mode);
        NothingLeftParts(m0, q);
      }
    }

    lemma ValidParts()
      requires Valid()
      ensures Core() && Layout(hdrs, munmap) && 0 !in hdrs && Covers(hdrs, sects)
      ensures |fl.lists| == fl.bytes.Length == N_HBLK_FLS + 1 && Listed(hdrs, fl.lists, fl.bytes[..], {})
      ensures heapSize == Sum(hdrs, AllWeight) && Total(fl.bytes[..]) == largeFree
    {
      hide Sum, Total, Linked, Covers;
      Conservation();
    }

    lemma ValidAgain()
      requires Core() && heapSize == Sum(hdrs, AllWeight) && Covers(hdrs, sects)
      ensures Valid()
    {
    }

    /** How far blocks may be split, and which. */
    method SplitLimit(useMore: bool, finalizersFreed: nat, largeAllocd: nat, maxLargeAllocd: nat)
      returns (limit: nat, mode: SplitMode)
      requires fl.bytes.Length == N_HBLK_FLS + 1
      ensures
        LimitSet(fl.bytes[..], useMore, finalizersFreed, heapSize, largeAllocd, maxLargeAllocd, munmap, limit, mode)
      ensures limit <= N_HBLK_FLS
    {
      hide TotalFrom;
      mode, limit := Always, N_HBLK_FLS;
      if !useMore {
        if finalizersFreed > heapSize * HBLKSIZE / 16 {
          limit := 0;
        } else {
          limit := EnoughLargeBytesLeft(largeAllocd, maxLargeAllocd);
          if munmap && limit > 0 { mode := AvoidRemapped; }
        }
      }
    }

    // ---------------------------------------------------------------- accounting

    /** GC_compute_large_free_bytes returns what GC_large_free_bytes says. */
    method ComputeLargeFree() returns (total: nat)
      requires Core()
      ensures total == largeFree
    {
      hide Listed, Layout, Sum, FreeLists.Valid;
      ListCount();
      ListsComplete();
      ListsHoldAllFree(hdrs, fl.lists);
      total := 0;
      var i := 0;
      assert fl.lists[0..] == fl.lists;
      while i <= N_HBLK_FLS
        invariant 0 <= i <= N_HBLK_FLS + 1 && total + ListTotal(hdrs, fl.lists[i..]) == largeFree
      {
        Walk(i, 0);
        var h := fl.heads[i];
        ghost var k := 0;
        assert fl.lists[i..][1..] == fl.lists[i + 1..] && fl.lists[i][0..] == fl.lists[i];
        while h != 0
          invariant k <= |fl.lists[i]| && h == Item(fl.lists[i], k)
          invariant total + ListLen(hdrs, fl.lists[i][k..]) + ListTotal(hdrs, fl.lists[i + 1..]) == largeFree
          decreases |fl.lists[i]| - k
        {
          Walk(i, k);
          OnListIsFree(i, k);
          assert fl.lists[i][k..][1..] == fl.lists[i][k + 1..];
          total := total + hdrs[h].len;
          h, k := fl.next[h], k + 1;
        }
        Walk(i, k);
        i := i + 1;
      }
    }

    lemma ListsComplete()
      requires Mid({})
      ensures Complete(hdrs, fl.lists)
    {
      forall i | 0 <= i < |fl.lists| ensures Distinct(fl.lists[i]) { DistinctList(i); }
    }

    /** Used blocks, free blocks and counters account for the whole heap. */
    lemma Conservation()
      requires Valid()
      ensures Sum(hdrs, UsedWeight) + largeFree == heapSize
      ensures Total(fl.bytes[..]) == largeFree
      ensures forall i :: 0 <= i <= N_HBLK_FLS ==> fl.bytes[i] == ListLen(hdrs, fl.lists[i])
    {
      UsedPlusFree(hdrs);
      ListsComplete();
      ListsHoldAllFree(hdrs, fl.lists);
      TotalIsListTotal(hdrs, fl.lists, fl.bytes[..]);
      assert forall i :: 0 <= i <= N_HBLK_FLS ==> fl.bytes[i] == fl.bytes[..][i];
    }

    /** Without unmapping, no free block of a heap below the limit has a free neighbour, and
        each is on the list for its length and on no other. */
    lemma Coalesced(h: nat)
      requires Valid() && IsFree(hdrs, h)
      ensures !munmap && heapSize < SIGNED_LIMIT ==> !IsFree(hdrs, End(hdrs, h))
      ensures forall i :: 0 <= i <= N_HBLK_FLS ==> (h in fl.lists[i] <==> i == FlIndex(hdrs[h].len))
    {
      assert Home(hdrs, fl.lists, h);
      if !munmap && heapSize < SIGNED_LIMIT { assert !AdjacentFree(hdrs, h); }
    }

    // ---------------------------------------------------------------- unmapping

    /** The age test of GC_unmap_old, with the counters truncated to 16 bits. */
    static predicate Stale(hd: Hdr, gcNo: nat, threshold: nat) {
      hd.Free? && (gcNo - hd.age) % 0x1_0000 > threshold % 0x1_0000
    }

    static function Aged(hd: Hdr, gcNo: nat, threshold: nat): Hdr {
      if Stale(hd, gcNo, threshold) then hd.(unmapped := true) else hd
    }

    /** GC_unmap of a whole free block. */
    method Unmap(h: nat)
      requires Core() && munmap && IsFree(hdrs, h) && !hdrs[h].unmapped && h != 0
      modifies this`hdrs, this`unmapped
      ensures Core() && hdrs == old(hdrs)[h := old(hdrs)[h].(unmapped := true)]
      ensures SameCover(old(hdrs), hdrs) && Sum(hdrs, AllWeight) == Sum(old(hdrs), AllWeight)
    {
      hide Listed, FreeLists.Valid, Layout, Tiling, Sum, SameCover;
      RemappedKeeps(hdrs, h, hdrs[h].(unmapped := true), munmap, page);
      var bytes := ExtentOf(page, h, hdrs[h].len);
      ChangeListed(hdrs, hdrs[h := hdrs[h].(unmapped := true)], fl.lists, fl.bytes[..], {}, {});
      unmapped := unmapped + bytes;
      hdrs := hdrs[h := hdrs[h].(unmapped := true)];
    }

    /** GC_unmap_old: exactly the free blocks that are old enough become unmapped. */
    method UnmapOld(threshold: nat)
      requires Core() && munmap
      modifies this`hdrs, this`unmapped
      ensures Core() && (old(Valid()) ==> Valid())
      ensures threshold == 0 ==> hdrs == old(hdrs)
      ensures hdrs.Keys == old(hdrs).Keys
      ensures threshold != 0 ==> forall h :: h in hdrs ==> hdrs[h] == Aged(old(hdrs)[h], gcNo, threshold)
    {
      hide Listed, Layout, Sum, FreeLists.Valid, Core, Mid, Stale, FlIndex, SameCover, Covers;
      if threshold == 0 { return; }
      CoreMid();
      ListCount();
      CoverRefl(hdrs);
      ghost var seen: set<nat> := {};
      var i := 0;
      while i <= N_HBLK_FLS
        invariant 0 <= i <= N_HBLK_FLS + 1 && Core() && fl.heads.Length == N_HBLK_FLS + 1
        invariant AgedUpTo(old(hdrs), hdrs, seen, gcNo, threshold)
        invariant SameCover(old(hdrs), hdrs) && Sum(hdrs, AllWeight) == Sum(old(hdrs), AllWeight)
        invariant forall j, x :: 0 <= j < i && x in fl.lists[j] ==> x in seen
        modifies this`hdrs, this`unmapped
      {
        CoreMid();
        Walk(i, 0);
        var h := fl.heads[i];
        ghost var k := 0;
        while h != 0
          invariant Core() && k <= |fl.lists[i]| && h == Item(fl.lists[i], k)
          invariant AgedUpTo(old(hdrs), hdrs, seen, gcNo, threshold)
          invariant SameCover(old(hdrs), hdrs) && Sum(hdrs, AllWeight) == Sum(old(hdrs), AllWeight)
          invariant forall j, x :: 0 <= j < i && x in fl.lists[j] ==> x in seen
          invariant forall j :: 0 <= j < k ==> fl.lists[i][j] in seen
          modifies this`hdrs, this`unmapped
          decreases |fl.lists[i]| - k
        {
          CoreMid();
          Walk(i, k);
          OnListIsFree(i, k);
          if !hdrs[h].unmapped && (gcNo - hdrs[h].age) % 0x1_0000 > threshold % 0x1_0000 {
            AgedStep(old(hdrs), hdrs, seen, h, gcNo, threshold, true);
            ghost var m := hdrs;
            Unmap(h);
            CoverTrans(old(hdrs), m, hdrs);
          } else {
            AgedStep(old(hdrs), hdrs, seen, h, gcNo, threshold, false);
          }
          seen := seen + {h};
          h, k := fl.next[h], k + 1;
        }
        CoreMid();
        Walk(i, k);
        assert k == |fl.lists[i]|;
        i := i + 1;
      }
      CoreMid();
      AllSeen(old(hdrs), hdrs, seen, gcNo, threshold);
      if old(Valid()) { StillValid(old(hdrs)); }
    }

    lemma CoreMid()
      requires Core()
      ensures Mid({}) && fl.Valid() && page > 0 && 0 !in hdrs
      ensures |fl.lists| == fl.heads.Length == N_HBLK_FLS + 1
    {
    }

    /** Blocks seen so far have had their turn, the others are as before. */
    static ghost predicate AgedUpTo(m: Hdrs, m': Hdrs, seen: set<nat>, gcNo: nat, threshold: nat) {
      && m'.Keys == m.Keys
      && forall h :: h in m ==> m'[h] == if h in seen then Aged(m[h], gcNo, threshold) else m[h]
    }

    static lemma AgedStep(m: Hdrs, m': Hdrs, seen: set<nat>, h: nat, gcNo: nat, threshold: nat, unmap: bool)
      requires AgedUpTo(m, m', seen, gcNo, threshold) && IsFree(m', h)
      requires unmap <==> !m'[h].unmapped && (gcNo - m'[h].age) % 0x1_0000 > threshold % 0x1_0000
      ensures AgedUpTo(m, if unmap then m'[h := m'[h].(unmapped := true)] else m', seen + {h}, gcNo, threshold)
    {
    }

    lemma AllSeen(m: Hdrs, m': Hdrs, seen: set<nat>, gcNo: nat, threshold: nat)
      requires Mid({}) && m' == hdrs && AgedUpTo(m, m', seen, gcNo, threshold)
      requires forall j, x :: 0 <= j <= N_HBLK_FLS && x in fl.lists[j] ==> x in seen
      ensures forall h :: h in m ==> m'[h] == Aged(m[h], gcNo, threshold)
    {
      forall h | h in m ensures m'[h] == Aged(m[h], gcNo, threshold) {
        assert Home(hdrs, fl.lists, h);
        if IsFree(hdrs, h) { assert h in fl.lists[FlIndex(hdrs[h].len)]; }
      }
    }

    // ---------------------------------------------------------------- merging unmapped blocks

    /** Making two neighbours equally mapped or unmapped before they are merged; returns the
        header of the merged block. */
    method Harmonize(h: nat, next: nat) returns (hd: Hdr)
      requires page > 0 && h > 0 && AdjacentFree(hdrs, h) && next == End(hdrs, h)
      requires UnmappedWeight(page)(h, hdrs[h]) + UnmappedWeight(page)(next, hdrs[next]) <= unmapped
      modifies this`unmapped
      ensures Harmonized(hdrs[h], hdrs[next], hd)
      ensures var w := UnmappedWeight(page);
        unmapped == old(unmapped) - w(h, hdrs[h]) - w(next, hdrs[next]) + w(h, hd)
    {
      var size, nextSize := hdrs[h].len, hdrs[next].len;
      var ext := ExtentOf(page, h, size);
      var nextExt := ExtentOf(page, next, nextSize);
      var gap := GapOf(page, h, size, next, nextSize);
      hd := Free(size + nextSize, hdrs[h].unmapped, hdrs[h].age);
      if !hdrs[h].unmapped && hdrs[next].unmapped {
        if size > nextSize {
          unmapped := unmapped - nextExt;
        } else {
          unmapped := unmapped + ext;
          unmapped := unmapped + gap;
          hd := hd.(unmapped := true);
        }
      } else if !hdrs[next].unmapped && hdrs[h].unmapped {
        if size > nextSize {
          unmapped := unmapped + nextExt;
          unmapped := unmapped + gap;
        } else {
          unmapped := unmapped - ext;
          hd := hd.(unmapped := false, age := hdrs[next].age);
        }
      } else if hdrs[h].unmapped && hdrs[next].unmapped {
        unmapped := unmapped + gap;
      }
    }

    /** One merge of GC_merge_unmapped: `h`, at position `k` of list `i`, takes in its
        successor. */
    method MergeNext(h: nat, i: nat, ghost k: nat)
      requires Core() && munmap && AdjacentFree(hdrs, h) && Mergeable(hdrs[h].len, hdrs[End(hdrs, h)].len)
      requires i <= N_HBLK_FLS && k < |fl.lists[i]| && fl.lists[i][k] == h
      modifies this`hdrs, this`unmapped, fl, fl.heads, fl.bytes
      ensures Core() && SameCover(old(hdrs), hdrs) && UsedPart(hdrs) == UsedPart(old(hdrs))
      ensures Sum(hdrs, AllWeight) == Sum(old(hdrs), AllWeight) && |hdrs| < |old(hdrs)|
      ensures Fused(old(hdrs), h, hdrs)
    {
      hide Listed, FreeLists.Valid, Layout, Tiling, Sum, SameCover, AdjacentFree, FlIndex;
      ghost var m := hdrs;
      PairAdjacent(m, h);
      LayoutParts(m, munmap);
      CoreMid();
      var next := h + hdrs[h].len;
      PairUnmapped(m, h, next, page);
      BytesCover(i, k);
      var merged := Harmonize(h, next);
      MergedKeeps(m, h, merged, page);
      TakeAt(h, i, k, {});
      Take(next, {} + {h});
      assert {} + {h} + {next} == {h, next};
      ChangeListed(m, m[h := merged] - {next}, fl.lists, fl.bytes[..], {h, next}, {h});
      hdrs := hdrs[h := merged] - {next};
      Give(h, {h});
      assert {h} - {h} == {};
      FusedIs(m, h, merged, hdrs);
    }

    /** GC_merge_unmapped ends, and no two neighbours that could be merged are left.  It merges
        the blocks `hs` with their successors, which takes the headers through `ms`. */
    method MergeUnmapped() returns (ghost ms: seq<Hdrs>, ghost hs: seq<nat>)
      requires Core() && munmap
      modifies this`hdrs, this`unmapped, fl, fl.heads, fl.bytes
      ensures Core() && (old(Valid()) ==> Valid())
      ensures SameCover(old(hdrs), hdrs) && UsedPart(hdrs) == UsedPart(old(hdrs))
      ensures Sum(hdrs, AllWeight) == Sum(old(hdrs), AllWeight)
      ensures forall h :: IsFree(hdrs, h) ==> Stuck(hdrs, h)
      ensures Merges(ms, hs) && ms[0] == old(hdrs) && ms[|hs|] == hdrs
      ensures Flipped(ms, hs, |hs|) <= largeFree * Halvings(largeFree)
    {
      hide Listed, FreeLists.Valid, Layout, Tiling, Sum, SameCover, Core, Mid, FlIndex, Stuck, AdjacentFree, Merges,
        Fused, Flipped, Halvings;
      CoverRefl(hdrs);
      CoreTiling();
      ms, hs := [hdrs], [];
      MergesStart(hdrs);
      var i := 0;
      while i <= N_HBLK_FLS
        invariant 0 <= i <= N_HBLK_FLS + 1 && Core()
        invariant SameCover(old(hdrs), hdrs) && UsedPart(hdrs) == UsedPart(old(hdrs))
        invariant Sum(hdrs, AllWeight) == Sum(old(hdrs), AllWeight)
        invariant StuckBelow(hdrs, i)
        invariant |ms| == |hs| + 1 && Merges(ms, hs) && ms[0] == old(hdrs) && ms[|hs|] == hdrs
      {
        CoreMid();
        Walk(i, 0);
        var h := fl.heads[i];
        ghost var k := 0;
        while h != 0
          invariant Core() && |fl.lists| == fl.heads.Length == N_HBLK_FLS + 1 && k <= |fl.lists[i]| &&
            h == Item(fl.lists[i], k)
          invariant SameCover(old(hdrs), hdrs) && UsedPart(hdrs) == UsedPart(old(hdrs))
          invariant Sum(hdrs, AllWeight) == Sum(old(hdrs), AllWeight)
          invariant StuckBelow(hdrs, i)
          invariant |ms| == |hs| + 1 && Merges(ms, hs) && ms[0] == old(hdrs) && ms[|hs|] == hdrs
          invariant forall j :: 0 <= j < k ==> IsFree(hdrs, fl.lists[i][j]) && Stuck(hdrs, fl.lists[i][j])
          decreases |hdrs|, |fl.lists[i]| - k
        {
          CoreMid();
          Walk(i, k);
          OnListIsFree(i, k);
          if CanMerge(hdrs, h) {
            ghost var m := hdrs;
            CanMergeParts(m, h);
            CoreTiling();
            MergeNext(h, i, k);
            FusedParts(m, h, hdrs);
            StuckBelowMerged(m, h, hdrs[h], i);
            MergesNext(ms, hs, h, hdrs);
            ms, hs := ms + [hdrs], hs + [h];
            CoverTrans(old(hdrs), m, hdrs);
            CoreMid();
            Walk(i, 0);
            h, k := fl.heads[i], 0;
          } else {
            CanMergeParts(hdrs, h);
            h, k := fl.next[h], k + 1;
          }
        }
        CoreMid();
        Walk(i, k);
        ListDone(i);
        i := i + 1;
      }
      forall h | IsFree(hdrs, h) ensures Stuck(hdrs, h) { StuckAll(hdrs, i, h); }
      if old(Valid()) { StillValid(old(hdrs)); }
      FlippedFew(ms, hs);
    }

    lemma CoreTiling()
      requires Core()
      ensures Tiling(hdrs) && largeFree == Sum(hdrs, FreeWeight)
    {
    }

    lemma ListDone(i: nat)
      requires Mid({}) && i <= N_HBLK_FLS && StuckBelow(hdrs, i)
      requires forall j :: 0 <= j < |fl.lists[i]| ==> IsFree(hdrs, fl.lists[i][j]) && Stuck(hdrs, fl.lists[i][j])
      ensures StuckBelow(hdrs, i + 1)
    {
      hide Stuck;
      forall h | IsFree(hdrs, h) && FlIndex(hdrs[h].len) < i + 1 ensures Stuck(hdrs, h) {
        assert Home(hdrs, fl.lists, h);
        if FlIndex(hdrs[h].len) == i { assert h in fl.lists[i]; }
      }
    }
  }

  ghost predicate StuckBelow(m: Hdrs, i: nat) {
    forall h :: IsFree(m, h) && FlIndex(m[h].len) < i ==> Stuck(m, h)
  }

  lemma StuckAll(m: Hdrs, i: nat, h: nat)
    requires StuckBelow(m, i) && i == N_HBLK_FLS + 1 && IsFree(m, h)
    ensures Stuck(m, h)
  {
  }

  /** A merge in list `i` leaves the shorter lists stuck, since the merged block is longer. */
  lemma StuckBelowMerged(m: Hdrs, h: nat, hd: Hdr, i: nat)
    requires Tiling(m) && AdjacentFree(m, h) && hd.Free? && hd.len == m[h].len + m[End(m, h)].len
    requires StuckBelow(m, i) && FlIndex(m[h].len) == i
    ensures StuckBelow(m[h := hd] - {End(m, h)}, i)
  {
    var m' := m[h := hd] - {End(m, h)};
    FlIndexMonotone(m[h].len, hd.len);
    forall g | IsFree(m', g) && FlIndex(m'[g].len) < i ensures Stuck(m', g) {
      StaysStuck(m, h, hd, g);
    }
  }

  lemma PairAdjacent(m: Hdrs, h: nat)
    requires AdjacentFree(m, h)
    ensures IsFree(m, h) && IsFree(m, End(m, h))
  {
  }

  lemma PairUnmapped(m: Hdrs, a: nat, b: nat, page: nat)
    requires page > 0 && a in m && b in m && a != b
    ensures UnmappedWeight(page)(a, m[a]) + UnmappedWeight(page)(b, m[b]) <= Sum(m, UnmappedWeight(page))
  {
    SumRemove(m, UnmappedWeight(page), a);
    SumRemove(m - {a}, UnmappedWeight(page), b);
  }

  /** The blocks handed out belonged to the heap and to no block in use. */
  lemma FreshMemory(m: Hdrs, m': Hdrs, r: nat, q: Request, b: nat)
    requires Tiling(m) && Tiling(m') && AllocEffect(m, m', r, q) && r != 0 && r <= b < r + Needed(q)
    ensures Owned(m, b) && forall g :: g in m && m[g].Used? ==> !Owns(m, g, b)
  {
    hide Blacklisted;
    assert Owns(m', r, b);
    assert Owned(m', b);
    forall g | g in m && m[g].Used? ensures !Owns(m, g, b) {
      assert g in m' && m'[g] == m[g];
    }
  }

  lemma CoversKept(m: Hdrs, m': Hdrs, r: nat, q: Request, sects: seq<(nat, nat)>)
    requires AllocEffect(m, m', r, q) && Covers(m, sects)
    ensures Covers(m', sects)
  {
    hide Owned, Blacklisted;
  }

  lemma TooLarge(m: Hdrs, munmap: bool, q: Request)
    requires Layout(m, munmap) && Needed(q) >= SIGNED_LIMIT
    ensures RefusedBelow(m, q, Always, N_HBLK_FLS + 1)
  {
    hide Sum, FlIndex, Blacklisted;
  }

  lemma ChoppedNone(m: Hdrs, h: nat)
    ensures Chopped(m, h, 0) == m
  {
  }

  lemma ChoppedStep(m: Hdrs, h: nat, i: nat)
    ensures Chopped(m, h, i + 1) == Chopped(m, h, i)[h + i := SINGLE]
  {
  }
}
