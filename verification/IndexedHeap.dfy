/** The header index together with the layout it describes: every change to the layout makes
    the index calls that keep the two in agreement, so that the searches through the index
    answer for the layout. */
module IndexedHeap {
  import opened MarkHeap
  import opened Tiles
  import opened HeaderIndex
  import opened HeapLayout
  import opened Lists

  lemma AgreesEmpty()
    ensures Tiling(map[]) && Agrees(map[], map[])
  {
    forall b: nat ensures CellOk(map[], b, Cell(map[], b)) {
      assert !Inside(map[], b);
    }
  }

  lemma InnerOwned(m: Hdrs, b: nat)
    ensures Inside(m, b) ==> Owned(m, b)
  {
    if Inside(m, b) {
      var g: nat :| Inner(m, g, b);
      assert Owns(m, g, b);
    }
  }

  /** No used extent reaches into a free one. */
  lemma FreeOutside(m: Hdrs, h: nat, b: nat)
    requires Tiling(m) && IsFree(m, h) && h < b < End(m, h)
    ensures b !in m && !Inside(m, b)
  {
    if Inside(m, b) {
      var g: nat :| Inner(m, g, b);
      InnerUnique(m, g, h, b);
    }
  }

  class IndexedHeap {
    const index: Index
    var hdrs: Hdrs

    ghost predicate Valid()
      reads this, index, index.top
    {
      index.Valid() && Tiling(hdrs) && Agrees(index.cells, hdrs)
    }

    constructor ()
      ensures Valid() && hdrs == map[] && fresh(index) && fresh(index.top)
    {
      index := new Index();
      hdrs := map[];
      new;
      AgreesEmpty();
    }

    // ------------------------------------------------------- changes to the layout

    /** GC_add_to_heap: new memory becomes a free extent. */
    method Add(h: nat, hd: Hdr)
      requires Valid() && h > 0 && hd.Free? && hd.len > 0
      requires forall b: nat :: h <= b < h + hd.len ==> !Owned(hdrs, b)
      modifies this, index, index.top
      ensures Valid() && hdrs == old(hdrs)[h := hd]
    {
      hide Owned, Agrees, Index.Valid, Wrote;
      Extend(hdrs, h, hd);
      InnerOwned(hdrs, h);
      index.InstallHeader(h);
      AgreesInstalled(old(index.cells), index.cells, hdrs, hdrs[h := hd], h);
      hdrs := hdrs[h := hd];
    }

    /** A free extent is put to use as a whole. */
    method PutToUse(h: nat, hd: Hdr)
      requires Valid() && IsFree(hdrs, h) && hd.Used? && Len(hd) == hdrs[h].len
      modifies this, index, index.top
      ensures Valid() && hdrs == old(hdrs)[h := hd]
    {
      hide Agrees, Index.Valid;
      Relabel(hdrs, h, hd);
      index.InstallCounts(h, Len(hd));
      AgreesUsed(old(index.cells), index.cells, hdrs, h, hd);
      hdrs := hdrs[h := hd];
    }

    /** A used extent becomes free. */
    method Release(h: nat, hd: Hdr)
      requires Valid() && h in hdrs && hdrs[h].Used? && hd.Free? && hd.len == Len(hdrs[h])
      modifies this, index, index.top
      ensures Valid() && hdrs == old(hdrs)[h := hd]
    {
      hide Agrees, Index.Valid;
      Relabel(hdrs, h, hd);
      index.RemoveCounts(h, hd.len);
      AgreesFreed(old(index.cells), index.cells, hdrs, h, hd);
      hdrs := hdrs[h := hd];
    }

    /** A free extent is cut in two. */
    method Cut(h: nat, x: Hdr, y: Hdr)
      requires Valid() && IsFree(hdrs, h) && x.Free? && y.Free? && 0 < x.len && 0 < y.len &&
        x.len + y.len == hdrs[h].len
      modifies this, index, index.top
      ensures Valid() && hdrs == old(hdrs)[h := x][h + x.len := y]
    {
      hide Agrees, Index.Valid, Wrote;
      var n := h + x.len;
      Split(hdrs, h, x, y);
      FreeOutside(hdrs, h, n);
      index.InstallHeader(n);
      AgreesInstalled(old(index.cells), index.cells, hdrs, hdrs[h := x][n := y], n);
      hdrs := hdrs[h := x][n := y];
    }

    /** GC_split_block: the part from `u` on becomes an extent of its own. */
    method SplitBlock(h: nat, u: nat, age: nat)
      requires Valid() && IsFree(hdrs, h) && h <= u < End(hdrs, h)
      modifies this, index, index.top
      ensures Valid() && hdrs == SplitAt(old(hdrs), h, u, age)
    {
      if u > h {
        Cut(h, Free(u - h, hdrs[h].unmapped, age), Free(End(hdrs, h) - u, false, age));
      }
    }

    /** GC_get_first_part, and putting that part to use. */
    method TakeFirst(u: nat, hd: Hdr, age: nat)
      requires Valid() && IsFree(hdrs, u) && hd.Used? && 0 < Len(hd) <= hdrs[u].len
      modifies this, index, index.top
      ensures Valid() && hdrs == FirstPart(old(hdrs), u, hd, age)
    {
      hide SizeToBlocks, Tiling, Agrees, Index.Valid;
      if Len(hd) < hdrs[u].len {
        Cut(u, Free(Len(hd), false, age), Free(hdrs[u].len - Len(hd), false, age));
      }
      PutToUse(u, hd);
    }

    /** A free extent swallows the free extent behind it. */
    method Join(a: nat, age: nat)
      requires Valid() && AdjacentFree(hdrs, a)
      modifies this, index, index.top
      ensures Valid() && hdrs == Joined(old(hdrs), a, age)
    {
      hide Agrees, Index.Valid, Wrote;
      var n := End(hdrs, a);
      Merge(hdrs, a, Free(hdrs[a].len + hdrs[n].len, hdrs[a].unmapped, age));
      index.RemoveHeader(n);
      AgreesRemoved(old(index.cells), index.cells, hdrs, Joined(hdrs, a, age), n);
      hdrs := Joined(hdrs, a, age);
    }

    /** A free extent is dropped: each of its blocks becomes a used block of its own. */
    method Chop(h: nat)
      requires Valid() && IsFree(hdrs, h)
      modifies this, index, index.top
      ensures Valid() && hdrs == Chopped(old(hdrs), h, old(hdrs)[h].len)
    {
      hide Tiling, Agrees, Index.Valid;
      var n := hdrs[h].len;
      ghost var m := hdrs;
      StartChop(h);
      SingleLen();
      var k := 0;
      while k < n
        invariant Valid() && k <= n
        invariant if k < n then IsFree(hdrs, h + k) && hdrs[h + k].len == n - k &&
                                hdrs == Chopped(m, h, k)[h + k := hdrs[h + k]]
                  else hdrs == Chopped(m, h, n)
      {
        if k + 1 < n {
          Cut(h + k, Free(1, false, 0), Free(n - k - 1, false, 0));
        }
        PutToUse(h + k, SINGLE);
        k := k + 1;
      }
    }

    lemma StartChop(h: nat)
      requires Valid() && IsFree(hdrs, h)
      ensures hdrs[h].len > 0 && hdrs == Chopped(hdrs, h, 0)[h := hdrs[h]]
    {
    }

    /** GC_freehblk as far as the layout goes: the block becomes free and is merged with the
        free neighbours that the index finds. */
    method FreeHblk(hbp: nat, age: nat, munmap: bool) returns (ghost p: nat)
      requires Valid() && Layout(hdrs, munmap) && hbp in hdrs && hdrs[hbp].Used?
      modifies this, index, index.top
      ensures Valid() && Layout(hdrs, munmap)
      ensures UsedPart(hdrs) == UsedPart(old(hdrs)) - {hbp} && SameCover(old(hdrs), hdrs)
      ensures hdrs == FreedAt(old(hdrs), hbp, p, age)
      ensures
        if p == 0 then forall g :: IsFree(old(hdrs), g) ==> End(old(hdrs), g) != hbp
        else IsFree(old(hdrs), p) && End(old(hdrs), p) == hbp
    {
      hide Agrees, Index.Valid, SameCover, Tiling, Layout, Loose, CanJoin, Joined;
      FreedKeeps(hdrs, hbp, age, 1);
      FreedLoose(hdrs, hbp, age, munmap);
      Release(hbp, Free(Len(hdrs[hbp]), false, age));
      ghost var m1 := hdrs;
      PredecessorsEnd(hbp);
      var prev := index.FreeBlockEndingAt(hbp, hdrs);
      p := prev;
      BeforeFreed(old(hdrs), hbp, p, age);
      LooseParts(hdrs, munmap, hbp, true, true);
      NextJoined(hdrs, hbp, age, munmap);
      PrevStaysIf(hdrs, hbp, prev, age);
      JoinIfPossible(hbp, age);
      ghost var m2 := hdrs;
      CoverTrans(old(hdrs), m1, m2);
      LooseParts(hdrs, munmap, hbp, true, false);
      if prev != 0 {
        PrevJoined(hdrs, prev, hbp, age, munmap);
        JoinIfPossible(prev, age);
        CoverTrans(old(hdrs), m2, hdrs);
      } else {
        NoPrev(hdrs, hbp, munmap);
      }
    }

    lemma PrevStaysIf(m: Hdrs, h: nat, p: nat, age: nat)
      requires Tiling(m) && h in m
      requires p != 0 ==> IsFree(m, p) && End(m, p) == h
      requires p == 0 ==> forall g :: IsFree(m, g) ==> End(m, g) != h
      ensures CanJoin(m, h) ==>
        var m' := Joined(m, h, age);
        (p != 0 ==> IsFree(m', p) && End(m', p) == h) && (p == 0 ==> forall g :: IsFree(m', g) ==> End(m', g) != h)
    {
      if CanJoin(m, h) { PrevStays(m, h, p, age); }
    }

    lemma PredecessorsEnd(h: nat)
      requires Tiling(hdrs) && h in hdrs
      ensures h > 0 && forall g :: g in hdrs && g < h ==> End(hdrs, g) <= h
    {
    }

    method JoinIfPossible(a: nat, age: nat)
      requires Valid() && a in hdrs
      modifies this, index, index.top
      ensures Valid() && UsedPart(hdrs) == UsedPart(old(hdrs)) && SameCover(old(hdrs), hdrs)
      ensures hdrs == if CanJoin(old(hdrs), a) then Joined(old(hdrs), a, age) else old(hdrs)
    {
      hide Agrees, Index.Valid;
      if CanJoin(hdrs, a) {
        JoinKeeps(hdrs, a, age, 1);
        Join(a, age);
      }
    }

    // ------------------------------------------------------- what the index answers

    /** GC_free_block_ending_at finds the one free neighbour before a block, if there is one. */
    method FreeNeighbour(h: nat) returns (p: nat)
      requires Valid() && h in hdrs
      ensures p != 0 <==> exists g :: IsFree(hdrs, g) && End(hdrs, g) == h
      ensures forall g :: IsFree(hdrs, g) && End(hdrs, g) == h ==> g == p
    {
      p := index.FreeBlockEndingAt(h, hdrs);
      forall g | IsFree(hdrs, g) && End(hdrs, g) == h ensures g == p {
        if g != p { EndsDiffer(hdrs, g, p); }
      }
    }

    /** GC_base on the current layout. */
    method Base(a: nat) returns (r: nat)
      requires Valid() && forall h :: IsUsed(hdrs, h) ==> hdrs[h].sz % WORD_BYTES == 0
      ensures r != 0 ==> exists h: nat :: Slot(hdrs, h, r, a)
      ensures r == 0 ==> forall h: nat, s: nat :: !Slot(hdrs, h, s, a)
    {
      r := index.Base(a, hdrs);
    }

    /** GC_apply_to_all_blocks on the current layout. */
    method UsedBlocks() returns (visited: seq<nat>)
      requires Valid()
      ensures (forall h: nat :: h in visited <==> IsUsed(hdrs, h)) && Distinct(visited)
    {
      visited := index.ApplyToAll(hdrs);
    }
  }
}
