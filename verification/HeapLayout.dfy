/** What a heap made of used and free blocks promises, and how the single steps of freeing,
    merging and carving keep it. */
module HeapLayout {
  import opened MarkHeap
  import opened Tiles
  import opened Pages

  ghost predicate Small(m: Hdrs) {
    forall h :: h in m ==> Len(m[h]) < SIGNED_LIMIT
  }

  ghost predicate AllMapped(m: Hdrs) {
    forall h :: h in m && m[h].Free? ==> !m[h].unmapped
  }

  /** Used and free blocks tile the heap; without unmapping no two neighbours are both free,
      unless the heap is so large that a merged size could overflow. */
  ghost predicate Layout(m: Hdrs, munmap: bool) {
    && Tiling(m) && Small(m)
    && (!munmap ==> AllMapped(m))
    && (!munmap && Sum(m, AllWeight) < SIGNED_LIMIT ==> NoAdjacentFree(m))
  }

  ghost function UnmappedWeight(page: nat): (nat, Hdr) -> nat
    requires page > 0
  {
    (h: nat, hd: Hdr) => if hd.Free? && hd.unmapped then Extent(page, h, hd.len) else 0
  }

  ghost function UsedPart(m: Hdrs): Hdrs {
    map h | h in m && m[h].Used? :: m[h]
  }

  /** Steps between two layouts of the same memory that only rearrange its free part. */
  ghost predicate Rearranged(m: Hdrs, m': Hdrs, page: nat)
    requires page > 0
  {
    && SameCover(m, m') && UsedPart(m') == UsedPart(m)
    && Sum(m', AllWeight) == Sum(m, AllWeight)
    && Sum(m', FreeWeight) == Sum(m, FreeWeight)
    && Sum(m', UnmappedWeight(page)) == Sum(m, UnmappedWeight(page))
  }

  function Joined(m: Hdrs, a: nat, age: nat): Hdrs
    requires AdjacentFree(m, a)
  {
    m[a := Free(m[a].len + m[End(m, a)].len, m[a].unmapped, age)] - {End(m, a)}
  }

  lemma JoinKeeps(m: Hdrs, a: nat, age: nat, page: nat)
    requires page > 0 && Tiling(m) && AdjacentFree(m, a) && !m[a].unmapped && !m[End(m, a)].unmapped
    ensures Tiling(Joined(m, a, age)) && Rearranged(m, Joined(m, a, age), page)
  {
    hide Sum, SameCover;
    var b := End(m, a);
    var hd := Free(m[a].len + m[b].len, m[a].unmapped, age);
    Merge(m, a, hd);
    SumMerge(m, AllWeight, a, b, hd);
    SumMerge(m, FreeWeight, a, b, hd);
    SumMerge(m, UnmappedWeight(page), a, b, hd);
    assert UsedPart(Joined(m, a, age)) == UsedPart(m);
  }

  lemma RearrangedTrans(a: Hdrs, b: Hdrs, c: Hdrs, page: nat)
    requires page > 0 && Rearranged(a, b, page) && Rearranged(b, c, page)
    ensures Rearranged(a, c, page)
  {
  }

  /** Two blocks together are no larger than the heap. */
  lemma PairFits(m: Hdrs, a: nat, b: nat)
    requires a in m && b in m && a != b
    ensures Len(m[a]) + Len(m[b]) <= Sum(m, AllWeight)
  {
    SumRemove(m, AllWeight, a);
    SumRemove(m - {a}, AllWeight, b);
  }

  /** Marking the used block `h` free. */
  lemma FreedKeeps(m: Hdrs, h: nat, age: nat, page: nat)
    requires page > 0 && Tiling(m) && h in m && m[h].Used?
    ensures var m' := m[h := Free(Len(m[h]), false, age)];
      && Tiling(m') && SameCover(m, m') && UsedPart(m') == UsedPart(m) - {h}
      && Sum(m', AllWeight) == Sum(m, AllWeight)
      && Sum(m', FreeWeight) == Sum(m, FreeWeight) + Len(m[h])
      && Sum(m', UnmappedWeight(page)) == Sum(m, UnmappedWeight(page))
  {
    var hd := Free(Len(m[h]), false, age);
    Relabel(m, h, hd);
    SumUpdate(m, AllWeight, h, hd);
    SumUpdate(m, FreeWeight, h, hd);
    SumUpdate(m, UnmappedWeight(page), h, hd);
    assert UsedPart(m[h := hd]) == UsedPart(m) - {h};
  }

  // ------------------------------------------------ coalescing leaves no neighbours

  /** The successor of `h` is taken in unless it is used, unmapped or too large. */
  predicate CanJoin(m: Hdrs, a: nat)
    requires a in m
  {
    AdjacentFree(m, a) && !m[a].unmapped && !m[End(m, a)].unmapped && Mergeable(m[a].len, m[End(m, a)].len)
  }

  /** The free block `h` merged with its successor and then with the free block `p` before it,
      where that can be done; no free block ends at `h` if `p` is 0. */
  function JoinedBoth(m: Hdrs, h: nat, p: nat, age: nat): Hdrs
    requires h in m
  {
    var m1 := if CanJoin(m, h) then Joined(m, h, age) else m;
    if p in m1 && CanJoin(m1, p) then Joined(m1, p, age) else m1
  }

  /** What freeing the block at `h` leaves. */
  function FreedAt(m: Hdrs, h: nat, p: nat, age: nat): Hdrs
    requires h in m
  {
    JoinedBoth(m[h := Free(Len(m[h]), false, age)], h, p, age)
  }

  lemma BeforeFreed(m: Hdrs, h: nat, p: nat, age: nat)
    requires Tiling(m) && h in m && m[h].Used?
    requires
      var m' := m[h := Free(Len(m[h]), false, age)];
      if p == 0 then forall g :: IsFree(m', g) ==> End(m', g) != h else IsFree(m', p) && End(m', p) == h
    ensures if p == 0 then forall g :: IsFree(m, g) ==> End(m, g) != h else IsFree(m, p) && End(m, p) == h
  {
    var m' := m[h := Free(Len(m[h]), false, age)];
    forall g | IsFree(m, g) && p == 0 ensures End(m, g) != h { assert IsFree(m', g); }
  }

  /** The freed block ends up in a mapped one of the current age, and the neighbours that are
      not part of it are in use, unmapped, or too large. */
  lemma FreedCoalesced(m: Hdrs, h: nat, p: nat, age: nat)
    requires Tiling(m) && h in m && m[h].Used?
    requires if p == 0 then forall g :: IsFree(m, g) ==> End(m, g) != h else IsFree(m, p) && End(m, p) == h
    ensures
      var m', n := FreedAt(m, h, p, age), End(m, h);
      var r := if p != 0 && p in m' && End(m', p) > h then p else h;
      && IsFree(m', r) && r <= h < n <= End(m', r) && !m'[r].unmapped && m'[r].age == age
      && (IsFree(m', n) && !m'[n].unmapped ==> !Mergeable(Len(m[h]), m'[n].len))
      && (r == h && p != 0 && IsFree(m', p) && !m'[p].unmapped ==> !Mergeable(m'[p].len, m'[h].len))
      && forall g :: g in m && g != h && g != p && g != n ==> g in m' && m'[g] == m[g]
  {
    var m0 := m[h := Free(Len(m[h]), false, age)];
    var n := End(m, h);
    assert n == End(m0, h) && h < n && (p != 0 ==> p < h);
  }

  /** In a mapped heap below the limit all that keeps two free neighbours apart is gone. */
  lemma AlwaysJoins(m: Hdrs, a: nat)
    requires Tiling(m) && AllMapped(m) && Sum(m, AllWeight) < SIGNED_LIMIT && a in m
    ensures CanJoin(m, a) <==> AdjacentFree(m, a)
  {
    if AdjacentFree(m, a) { PairFits(m, a, End(m, a)); }
  }

  /** Layout of a heap in which only `h` may still have free neighbours. */
  ghost predicate Loose(m: Hdrs, munmap: bool, h: nat, before: bool, after: bool) {
    && Tiling(m) && Small(m) && IsFree(m, h) && !m[h].unmapped
    && (!munmap ==> AllMapped(m))
    && (!munmap && Sum(m, AllWeight) < SIGNED_LIMIT ==> AdjacentOnlyAt(m, h, before, after))
  }

  lemma FreedLoose(m: Hdrs, h: nat, age: nat, munmap: bool)
    requires Layout(m, munmap) && h in m && m[h].Used?
    ensures Loose(m[h := Free(Len(m[h]), false, age)], munmap, h, true, true)
  {
    var hd := Free(Len(m[h]), false, age);
    Relabel(m, h, hd);
    SumUpdate(m, AllWeight, h, hd);
    if !munmap && Sum(m, AllWeight) < SIGNED_LIMIT { FreedAdjacent(m, h, hd); }
  }

  lemma NextJoined(m: Hdrs, h: nat, age: nat, munmap: bool)
    requires Loose(m, munmap, h, true, true)
    ensures CanJoin(m, h) ==> Loose(Joined(m, h, age), munmap, h, true, false)
    ensures !CanJoin(m, h) ==> Loose(m, munmap, h, true, false)
  {
    if !munmap && Sum(m, AllWeight) < SIGNED_LIMIT {
      AlwaysJoins(m, h);
      if AdjacentFree(m, h) { MergedNextAdjacent(m, h, Joined(m, h, age)[h]); }
    }
    if CanJoin(m, h) {
      JoinKeeps(m, h, age, 1);
    }
  }

  lemma PrevJoined(m: Hdrs, p: nat, h: nat, age: nat, munmap: bool)
    requires Loose(m, munmap, h, true, false) && IsFree(m, p) && End(m, p) == h
    ensures CanJoin(m, p) ==> Layout(Joined(m, p, age), munmap)
    ensures !CanJoin(m, p) ==> Layout(m, munmap)
  {
    if !munmap && Sum(m, AllWeight) < SIGNED_LIMIT {
      AlwaysJoins(m, p);
      MergedPrevAdjacent(m, p, Joined(m, p, age)[p]);
    }
    if CanJoin(m, p) {
      JoinKeeps(m, p, age, 1);
    }
  }

  lemma NoPrev(m: Hdrs, h: nat, munmap: bool)
    requires Loose(m, munmap, h, true, false)
    requires forall p :: IsFree(m, p) ==> End(m, p) != h
    ensures Layout(m, munmap)
  {
  }

  lemma LayoutParts(m: Hdrs, munmap: bool)
    requires Layout(m, munmap)
    ensures Tiling(m) && Small(m)
    ensures !munmap ==> AllMapped(m)
    ensures 0 !in m
  {
  }

  lemma LooseParts(m: Hdrs, munmap: bool, h: nat, before: bool, after: bool)
    requires Loose(m, munmap, h, before, after)
    ensures Tiling(m) && IsFree(m, h) && !m[h].unmapped && 0 !in m
  {
  }

  lemma RearrangedRefl(m: Hdrs, page: nat)
    requires page > 0
    ensures Rearranged(m, m, page)
  {
  }

  /** Joining `h` with its successor does not change which free block ends at `h`. */
  lemma PrevStays(m: Hdrs, h: nat, p: nat, age: nat)
    requires Tiling(m) && AdjacentFree(m, h)
    requires p != 0 ==> IsFree(m, p) && End(m, p) == h
    requires p == 0 ==> forall g :: IsFree(m, g) ==> End(m, g) != h
    ensures var m' := Joined(m, h, age);
      && (p != 0 ==> IsFree(m', p) && End(m', p) == h && m'[p] == m[p])
      && (p == 0 ==> forall g :: IsFree(m', g) ==> End(m', g) != h)
  {
    assert p != 0 ==> p < h < End(m, h);
  }

  lemma WholeBlocks(n: nat)
    ensures SizeToBlocks(n * HBLKSIZE) == n
  {
  }

  /** Adding a used extent of new memory. */
  lemma ExtendedKeeps(m: Hdrs, p: nat, hd: Hdr, munmap: bool, page: nat)
    requires page > 0 && Layout(m, munmap) && p > 0 && hd.Used? && 0 < Len(hd) < SIGNED_LIMIT
    requires forall b: nat :: p <= b < p + Len(hd) ==> !Owned(m, b)
    ensures p !in m && Layout(m[p := hd], munmap)
    ensures var m' := m[p := hd];
      && UsedPart(m') - {p} == UsedPart(m)
      && Sum(m', AllWeight) == Sum(m, AllWeight) + Len(hd)
      && Sum(m', FreeWeight) == Sum(m, FreeWeight)
      && Sum(m', UnmappedWeight(page)) == Sum(m, UnmappedWeight(page))
  {
    hide Sum, Owned, Owns;
    Extend(m, p, hd);
    SumAdd(m, AllWeight, p, hd);
    SumAdd(m, FreeWeight, p, hd);
    SumAdd(m, UnmappedWeight(page), p, hd);
    assert forall g :: g in m[p := hd] ==> (AdjacentFree(m[p := hd], g) ==> AdjacentFree(m, g));
    assert UsedPart(m[p := hd]) - {p} == UsedPart(m);
  }

  // ------------------------------------------------ carving

  /** The free block `h` after its first blocks up to `u` have been split off. */
  function SplitAt(m: Hdrs, h: nat, u: nat, age: nat): Hdrs
    requires IsFree(m, h) && h <= u < End(m, h)
  {
    if u == h then m
    else m[h := Free(u - h, m[h].unmapped, age)][u := Free(End(m, h) - u, false, age)]
  }

  /** The first blocks of the free block `u` in use, the rest free. */
  function FirstPart(m: Hdrs, u: nat, hd: Hdr, age: nat): Hdrs
    requires IsFree(m, u) && hd.Used? && 0 < Len(hd) <= m[u].len
  {
    if Len(hd) == m[u].len then m[u := hd]
    else m[u + Len(hd) := Free(m[u].len - Len(hd), false, age)][u := hd]
  }

  /** What is left when `hd` is put to use at `u` in the free block `h`, mapped if need be. */
  function CarvedAt(m: Hdrs, h: nat, u: nat, hd: Hdr, age: nat): Hdrs
    requires IsFree(m, h) && hd.Used? && 0 < Len(hd) && h <= u && u + Len(hd) <= End(m, h)
  {
    FirstPart(SplitAt(m[h := m[h].(unmapped := false)], h, u, age), u, hd, age)
  }

  lemma SplitAtKeeps(m: Hdrs, h: nat, u: nat, age: nat, page: nat)
    requires page > 0 && Tiling(m) && IsFree(m, h) && h <= u < End(m, h) && !m[h].unmapped
    ensures u != h ==> u !in m
    ensures Tiling(SplitAt(m, h, u, age)) && Rearranged(m, SplitAt(m, h, u, age), page)
  {
    hide Sum, Tiling, SameCover;
    if u != h {
      var x, y := Free(u - h, m[h].unmapped, age), Free(End(m, h) - u, false, age);
      Split(m, h, x, y);
      SumUpdate(m, AllWeight, h, x);
      SumUpdate(m, FreeWeight, h, x);
      SumUpdate(m, UnmappedWeight(page), h, x);
      SumAdd(m[h := x], AllWeight, u, y);
      SumAdd(m[h := x], FreeWeight, u, y);
      SumAdd(m[h := x], UnmappedWeight(page), u, y);
      assert UsedPart(SplitAt(m, h, u, age)) == UsedPart(m);
    } else {
      RearrangedRefl(m, page);
    }
  }

  /** The effect of giving out blocks: they leave the free part, nothing else moves. */
  ghost predicate GivenOut(m: Hdrs, m': Hdrs, u: nat, hd: Hdr, page: nat)
    requires page > 0
  {
    && SameCover(m, m') && !(u in m && m[u].Used?) && UsedPart(m') == UsedPart(m)[u := hd]
    && Sum(m', AllWeight) == Sum(m, AllWeight)
    && Sum(m', FreeWeight) == Sum(m, FreeWeight) - Len(hd)
    && Sum(m', UnmappedWeight(page)) == Sum(m, UnmappedWeight(page))
  }

  lemma FirstPartKeeps(m: Hdrs, u: nat, hd: Hdr, age: nat, page: nat)
    requires page > 0 && Tiling(m) && IsFree(m, u) && !m[u].unmapped && hd.Used? && 0 < Len(hd) <= m[u].len
    ensures Len(hd) < m[u].len ==> u + Len(hd) !in m
    ensures Tiling(FirstPart(m, u, hd, age)) && GivenOut(m, FirstPart(m, u, hd, age), u, hd, page)
  {
    hide Sum, Tiling, SameCover;
    var m1 := m[u := hd];
    SumUpdate(m, AllWeight, u, hd);
    SumUpdate(m, FreeWeight, u, hd);
    SumUpdate(m, UnmappedWeight(page), u, hd);
    if Len(hd) == m[u].len {
      Relabel(m, u, hd);
    } else {
      var r, rest := u + Len(hd), Free(m[u].len - Len(hd), false, age);
      Split(m, u, hd, rest);
      assert m[u := hd][r := rest] == m[r := rest][u := hd];
      SumAdd(m1, AllWeight, r, rest);
      SumAdd(m1, FreeWeight, r, rest);
      SumAdd(m1, UnmappedWeight(page), r, rest);
    }
    assert UsedPart(FirstPart(m, u, hd, age)) == UsedPart(m)[u := hd];
  }

  /** Splitting and giving out the first part keeps the layout. */
  lemma CutLayout(m: Hdrs, h: nat, u: nat, hd: Hdr, age: nat, munmap: bool, page: nat)
    requires page > 0 && Layout(m, munmap) && IsFree(m, h) && !m[h].unmapped
    requires h <= u < End(m, h) && hd.Used? && 0 < Len(hd) <= End(m, h) - u
    ensures u != h ==> u !in m
    ensures var m1 := SplitAt(m, h, u, age);
      && IsFree(m1, u) && m1[u].len == End(m, h) - u && !m1[u].unmapped
      && (Len(hd) < m1[u].len ==> u + Len(hd) !in m1)
    ensures var m2 := FirstPart(SplitAt(m, h, u, age), u, hd, age); Layout(m2, munmap) && GivenOut(m, m2, u, hd, page)
  {
    var m1 := SplitAt(m, h, u, age);
    SplitAtKeeps(m, h, u, age, page);
    var m2 := FirstPart(m1, u, hd, age);
    FirstPartKeeps(m1, u, hd, age, page);
    CutSmall(m, h, u, hd, age, munmap);
    CutUsed(m, h, u);
    if !munmap && Sum(m, AllWeight) < SIGNED_LIMIT {
      CutCarved(m, h, u, hd, age);
      CarvedAdjacent(m, m2, h, u);
    }
  }

  lemma CutUsed(m: Hdrs, h: nat, u: nat)
    requires Tiling(m) && IsFree(m, h) && h <= u < End(m, h)
    ensures !(u in m && m[u].Used?)
  {
  }

  lemma CutSmall(m: Hdrs, h: nat, u: nat, hd: Hdr, age: nat, munmap: bool)
    requires Layout(m, munmap) && IsFree(m, h) && !m[h].unmapped
    requires h <= u < End(m, h) && hd.Used? && 0 < Len(hd) <= End(m, h) - u
    ensures var m2 := FirstPart(SplitAt(m, h, u, age), u, hd, age); Small(m2) && (!munmap ==> AllMapped(m2))
  {
    hide Sum;
  }

  lemma CutCarved(m: Hdrs, h: nat, u: nat, hd: Hdr, age: nat)
    requires Tiling(m) && IsFree(m, h) && !m[h].unmapped
    requires h <= u < End(m, h) && hd.Used? && 0 < Len(hd) <= End(m, h) - u
    ensures Carved(m, FirstPart(SplitAt(m, h, u, age), u, hd, age), h, u)
  {
  }

  // ------------------------------------------------ dropping

  const SINGLE := Used(HBLKSIZE, PtrFree)

  /** The first `n` blocks of the extent at `h` as used blocks of their own. */
  function Chopped(m: Hdrs, h: nat, n: nat): Hdrs {
    if n == 0 then m else Chopped(m, h, n - 1)[h + n - 1 := SINGLE]
  }

  lemma {:induction false} ChoppedAt(m: Hdrs, h: nat, n: nat)
    ensures forall g :: h <= g < h + n ==> g in Chopped(m, h, n) && Chopped(m, h, n)[g] == SINGLE
    ensures forall g :: g < h || g >= h + n ==> (g in Chopped(m, h, n) <==> g in m)
    ensures forall g :: g in m && (g < h || g >= h + n) ==> Chopped(m, h, n)[g] == m[g]
  {
    if n > 0 { ChoppedAt(m, h, n - 1); }
  }

  lemma SingleLen()
    ensures Len(SINGLE) == 1
  {
  }

  lemma ChopTiling(m: Hdrs, h: nat)
    requires Tiling(m) && IsFree(m, h)
    ensures var m' := Chopped(m, h, m[h].len);
      && Tiling(m') && SameCover(m, m')
      && (forall g :: g in m' && h <= g < End(m, h) ==> m'[g] == SINGLE)
      && (forall g :: g in m' && !(h <= g < End(m, h)) ==> g in m && m'[g] == m[g])
      && (forall g :: g in m && g != h ==> g in m' && m'[g] == m[g])
  {
    hide Chopped, SizeToBlocks, SameCover;
    SingleLen();
    ChoppedAt(m, h, m[h].len);
    assert forall g :: g in m && g != h ==> g < h || g >= End(m, h);
    ChopCover(m, Chopped(m, h, m[h].len), h);
    ChopOrder(m, Chopped(m, h, m[h].len), h);
    hide Tiling;
  }

  lemma ChopOrder(m: Hdrs, m': Hdrs, h: nat)
    requires Tiling(m) && IsFree(m, h)
    requires forall g: nat :: h <= g < End(m, h) ==> g in m' && m'[g] == SINGLE
    requires forall g: nat :: !(h <= g < End(m, h)) ==> (g in m' <==> g in m) && (g in m ==> m'[g] == m[g])
    ensures Tiling(m')
  {
    hide SizeToBlocks;
    SingleLen();
    assert forall g :: g in m && g != h ==> g < h || g >= End(m, h);
  }

  lemma ChopCover(m: Hdrs, m': Hdrs, h: nat)
    requires Tiling(m) && IsFree(m, h)
    requires forall g: nat :: h <= g < End(m, h) ==> g in m' && m'[g] == SINGLE
    requires forall g: nat :: !(h <= g < End(m, h)) ==> (g in m' <==> g in m) && (g in m ==> m'[g] == m[g])
    ensures SameCover(m, m')
  {
    hide SizeToBlocks;
    SingleLen();
    forall b: nat ensures Owned(m, b) <==> Owned(m', b) {
      if g: nat :| Owns(m, g, b) { assert Owns(m', if g == h then b else g, b); }
      if g: nat :| Owns(m', g, b) { assert Owns(m, if h <= g < End(m, h) then h else g, b); }
    }
  }

  lemma {:induction false} ChopSum(m: Hdrs, w: (nat, Hdr) -> nat, h: nat, n: nat, each: nat)
    requires IsFree(m, h) && 0 < n && (forall b :: h < b < h + n ==> b !in m)
    requires forall b: nat :: w(b, SINGLE) == each
    ensures Sum(Chopped(m, h, n), w) == Sum(m, w) - w(h, m[h]) + n * each
  {
    if n == 1 {
      assert Chopped(m, h, 0) == m;
      SumUpdate(m, w, h, SINGLE);
    } else {
      ChopSum(m, w, h, n - 1, each);
      ChoppedAt(m, h, n - 1);
      SumAdd(Chopped(m, h, n - 1), w, h + n - 1, SINGLE);
    }
  }

  lemma ChopKeeps(m: Hdrs, h: nat, munmap: bool, page: nat)
    requires page > 0 && Layout(m, munmap) && IsFree(m, h) && !m[h].unmapped
    ensures var m' := Chopped(m, h, m[h].len);
      && Layout(m', munmap) && SameCover(m, m')
      && Sum(m', AllWeight) == Sum(m, AllWeight)
      && Sum(m', FreeWeight) == Sum(m, FreeWeight) - m[h].len
      && Sum(m', UnmappedWeight(page)) == Sum(m, UnmappedWeight(page))
  {
    hide Sum, SameCover, Chopped, Tiling;
    var m' := Chopped(m, h, m[h].len);
    ChopTiling(m, h);
    InnerFree(m, h);
    assert Len(SINGLE) == 1;
    ChopSum(m, AllWeight, h, m[h].len, 1);
    ChopSum(m, FreeWeight, h, m[h].len, 0);
    ChopSum(m, UnmappedWeight(page), h, m[h].len, 0);
    forall g | g in m' ensures AdjacentFree(m', g) ==> AdjacentFree(m, g) {
    }
  }

  lemma InnerFree(m: Hdrs, h: nat)
    requires Tiling(m) && h in m
    ensures forall b :: h < b < End(m, h) ==> b !in m
    ensures Len(m[h]) > 0
  {
  }

  lemma FreeFits(m: Hdrs, h: nat)
    requires IsFree(m, h)
    ensures m[h].len <= Sum(m, FreeWeight)
  {
    SumRemove(m, FreeWeight, h);
  }

  /** Changing only the mapping and the age of a free block. */
  lemma RemappedKeeps(m: Hdrs, h: nat, hd: Hdr, munmap: bool, page: nat)
    requires page > 0 && Layout(m, munmap) && IsFree(m, h) && hd.Free? && hd.len == m[h].len
    requires hd.unmapped ==> munmap
    ensures var m' := m[h := hd];
      && Layout(m', munmap) && SameCover(m, m') && UsedPart(m') == UsedPart(m)
      && Sum(m', AllWeight) == Sum(m, AllWeight) && Sum(m', FreeWeight) == Sum(m, FreeWeight)
      && Sum(m', UnmappedWeight(page)) ==
           Sum(m, UnmappedWeight(page)) - UnmappedWeight(page)(h, m[h]) + UnmappedWeight(page)(h, hd)
  {
    hide Sum, SameCover;
    Relabel(m, h, hd);
    SumUpdate(m, AllWeight, h, hd);
    SumUpdate(m, FreeWeight, h, hd);
    SumUpdate(m, UnmappedWeight(page), h, hd);
    assert forall g :: g in m ==> (AdjacentFree(m[h := hd], g) ==> AdjacentFree(m, g));
    assert UsedPart(m[h := hd]) == UsedPart(m);
  }

  // ------------------------------------------------ merging in a heap with unmapping

  /** Merging two free neighbours, whatever their mapping. */
  lemma MergedKeeps(m: Hdrs, h: nat, hd: Hdr, page: nat)
    requires page > 0 && Layout(m, true) && AdjacentFree(m, h) && hd.Free?
    requires hd.len == m[h].len + m[End(m, h)].len < SIGNED_LIMIT
    ensures var n, w := End(m, h), UnmappedWeight(page);
      var m' := m[h := hd] - {n};
      && n != h && Layout(m', true) && SameCover(m, m') && UsedPart(m') == UsedPart(m)
      && Sum(m', AllWeight) == Sum(m, AllWeight) && Sum(m', FreeWeight) == Sum(m, FreeWeight)
      && Sum(m', w) == Sum(m, w) - w(h, m[h]) - w(n, m[n]) + w(h, hd)
      && |m'| < |m|
  {
    hide Sum, SameCover;
    var n := End(m, h);
    var m' := m[h := hd] - {n};
    Merge(m, h, hd);
    SumMerge(m, AllWeight, h, n, hd);
    SumMerge(m, FreeWeight, h, n, hd);
    SumMerge(m, UnmappedWeight(page), h, n, hd);
    assert UsedPart(m') == UsedPart(m);
    assert m'.Keys == m.Keys - {n};
    assert |m'| == |m'.Keys| && |m| == |m.Keys|;
  }

  /** A block that cannot be merged with its successor. */
  predicate Stuck(m: Hdrs, g: nat)
    requires g in m
  {
    AdjacentFree(m, g) ==> !Mergeable(m[g].len, m[End(m, g)].len)
  }

  lemma StaysStuck(m: Hdrs, h: nat, hd: Hdr, g: nat)
    requires Tiling(m) && AdjacentFree(m, h) && hd.Free? && hd.len == m[h].len + m[End(m, h)].len
    requires g in m && g != h && g != End(m, h) && Stuck(m, g)
    ensures Stuck(m[h := hd] - {End(m, h)}, g)
  {
    EndsDiffer(m, g, h);
  }
}
