/** The heap seen through its block headers: each header stands at the first block of a
    used or free extent, and the extents tile the heap. */
module Tiles {
  import opened MarkHeap

  const HBLKSIZE := 4096

  /** Block counts at which a byte size would overflow a signed word. */
  const SIGNED_LIMIT := 0x8_0000_0000_0000

  /** A used block records the byte size of its objects, a free one its length in blocks,
      whether it is unmapped, and the collection number at which it was freed. */
  datatype Hdr =
    | Used(sz: nat, kind: Kind)
    | Free(len: nat, unmapped: bool, age: nat)

  type Hdrs = map<nat, Hdr>

  /** OBJ_SZ_TO_BLOCKS */
  function SizeToBlocks(sz: nat): nat {
    (sz + HBLKSIZE - 1) / HBLKSIZE
  }

  function Len(hd: Hdr): nat {
    if hd.Used? then SizeToBlocks(hd.sz) else hd.len
  }

  function End(m: Hdrs, h: nat): nat
    requires h in m
  {
    h + Len(m[h])
  }

  /** Merging extents of these lengths does not overflow. */
  predicate Mergeable(a: nat, b: nat) {
    a + b < SIGNED_LIMIT
  }

  ghost predicate Tiling(m: Hdrs) {
    && (forall h :: h in m ==> h > 0 && Len(m[h]) > 0)
    && (forall h, g :: h in m && g in m && h < g ==> End(m, h) <= g)
  }

  ghost predicate Owns(m: Hdrs, h: nat, b: nat) {
    h in m && h <= b < End(m, h)
  }

  /** Some extent holds block `b`. */
  ghost predicate Owned(m: Hdrs, b: nat) {
    exists h: nat :: Owns(m, h, b)
  }

  ghost predicate SameCover(m: Hdrs, m': Hdrs) {
    forall b: nat :: Owned(m, b) <==> Owned(m', b)
  }

  lemma CoverTrans(a: Hdrs, b: Hdrs, c: Hdrs)
    requires SameCover(a, b) && SameCover(b, c)
    ensures SameCover(a, c)
  {
  }

  predicate IsFree(m: Hdrs, h: nat) {
    h in m && m[h].Free?
  }

  /** A free block directly followed by a free block. */
  predicate AdjacentFree(m: Hdrs, h: nat) {
    IsFree(m, h) && IsFree(m, End(m, h))
  }

  ghost predicate NoAdjacentFree(m: Hdrs) {
    forall h :: h in m ==> !AdjacentFree(m, h)
  }

  /** Adjacent free blocks only around the free block `h`: behind it when `after`, before
      it when `before`. */
  ghost predicate AdjacentOnlyAt(m: Hdrs, h: nat, before: bool, after: bool) {
    forall g :: g in m && AdjacentFree(m, g) ==> (g == h && after) || (End(m, g) == h && before)
  }

  lemma EndsDiffer(m: Hdrs, g: nat, h: nat)
    requires Tiling(m) && g in m && h in m && g != h
    ensures End(m, g) != End(m, h)
  {
  }

  lemma FreedAdjacent(m: Hdrs, h: nat, hd: Hdr)
    requires Tiling(m) && h in m && NoAdjacentFree(m) && Len(hd) == Len(m[h])
    ensures AdjacentOnlyAt(m[h := hd], h, true, true)
  {
    var m' := m[h := hd];
    assert forall g :: g in m' && g != h && End(m', g) != h ==> (AdjacentFree(m', g) ==> AdjacentFree(m, g));
  }

  lemma MergedNextAdjacent(m: Hdrs, h: nat, hd: Hdr)
    requires Tiling(m) && AdjacentFree(m, h) && hd.Free? && hd.len == m[h].len + m[End(m, h)].len
    requires AdjacentOnlyAt(m, h, true, true)
    ensures AdjacentOnlyAt(m[h := hd] - {End(m, h)}, h, true, false)
  {
    var n := End(m, h);
    var m' := m[h := hd] - {n};
    assert AdjacentFree(m', h) ==> AdjacentFree(m, n);
    assert forall g :: g in m' && g != h ==> (AdjacentFree(m', g) ==> AdjacentFree(m, g));
  }

  lemma MergedPrevAdjacent(m: Hdrs, p: nat, hd: Hdr)
    requires Tiling(m) && AdjacentFree(m, p) && hd.Free? && hd.len == m[p].len + m[End(m, p)].len
    requires AdjacentOnlyAt(m, End(m, p), true, false)
    ensures NoAdjacentFree(m[p := hd] - {End(m, p)})
  {
    var h := End(m, p);
    var m' := m[p := hd] - {h};
    assert AdjacentFree(m', p) ==> AdjacentFree(m, h);
    forall g | g in m' && g != p ensures AdjacentFree(m', g) ==> AdjacentFree(m, g) && End(m, g) != h {
      EndsDiffer(m, g, p);
    }
  }

  /** Cutting the free block `h` into an optional free front, a used part and an optional
      free rest creates no adjacent free blocks. */
  ghost predicate Carved(m: Hdrs, m': Hdrs, h: nat, u: nat) {
    && IsFree(m, h)
    && u in m' && m'[u].Used? && h <= u && End(m', u) <= End(m, h)
    && (forall g :: g in m' && g != h && g != u && g != End(m', u) ==> g in m && m[g] == m'[g])
    && (u != h ==> IsFree(m', h) && End(m', h) == u)
    && (End(m', u) != End(m, h) ==> IsFree(m', End(m', u)) && End(m', End(m', u)) == End(m, h))
    && (End(m', u) == End(m, h) && End(m, h) in m' ==> End(m, h) in m && m[End(m, h)] == m'[End(m, h)])
  }

  lemma CarvedAdjacent(m: Hdrs, m': Hdrs, h: nat, u: nat)
    requires Tiling(m) && Tiling(m') && NoAdjacentFree(m) && Carved(m, m', h, u)
    ensures NoAdjacentFree(m')
  {
    var r := End(m', u);
    if r != End(m, h) {
      assert AdjacentFree(m', r) ==> AdjacentFree(m, h);
    }
    forall g | g in m' && g != h && g != u && (g != r || r == End(m, h))
      ensures AdjacentFree(m', g) ==> AdjacentFree(m, g)
    {
      assert g < h || g >= End(m, h);
      assert End(m', g) <= h || g >= End(m, h);
    }
  }

  // ------------------------------------------------------- changes to the tiling

  lemma Relabel(m: Hdrs, h: nat, hd: Hdr)
    requires Tiling(m) && h in m && Len(hd) == Len(m[h])
    ensures Tiling(m[h := hd]) && SameCover(m, m[h := hd])
  {
    var m' := m[h := hd];
    forall b: nat ensures Owned(m, b) <==> Owned(m', b) {
      if g: nat :| Owns(m, g, b) { assert Owns(m', g, b); }
      if g: nat :| Owns(m', g, b) { assert Owns(m, g, b); }
    }
  }

  lemma Merge(m: Hdrs, h: nat, hd: Hdr)
    requires Tiling(m) && h in m && End(m, h) in m && Len(hd) == Len(m[h]) + Len(m[End(m, h)])
    ensures var m' := m[h := hd] - {End(m, h)}; Tiling(m') && SameCover(m, m')
  {
    var n := End(m, h);
    var m' := m[h := hd] - {n};
    forall g, k | g in m' && k in m' && g < k ensures End(m', g) <= k {
      assert End(m, g) <= k;
      if g == h { assert n < k; assert End(m, n) <= k; }
    }
    forall b: nat ensures Owned(m, b) <==> Owned(m', b) {
      if g: nat :| Owns(m, g, b) {
        assert Owns(m', if g == n then h else g, b);
      }
      if g: nat :| Owns(m', g, b) {
        assert Owns(m, if g == h && b >= n then n else g, b);
      }
    }
  }

  lemma Split(m: Hdrs, h: nat, x: Hdr, y: Hdr)
    requires Tiling(m) && h in m && 0 < Len(x) && 0 < Len(y) && Len(x) + Len(y) == Len(m[h])
    ensures h + Len(x) !in m
    ensures var m' := m[h := x][h + Len(x) := y]; Tiling(m') && SameCover(m, m')
  {
    SplitOrder(m, h, x, y);
    SplitCover(m, h, x, y);
    hide Owned;
  }

  lemma SplitOrder(m: Hdrs, h: nat, x: Hdr, y: Hdr)
    requires Tiling(m) && h in m && 0 < Len(x) && 0 < Len(y) && Len(x) + Len(y) == Len(m[h])
    ensures h + Len(x) !in m && Tiling(m[h := x][h + Len(x) := y])
  {
    var n := h + Len(x);
    var m' := m[h := x][n := y];
    forall g, k | g in m' && k in m' && g < k ensures End(m', g) <= k {
      if k == n {
        if g != h { assert g < h; }
      } else if g == n {
        assert h < k;
      }
    }
  }

  lemma SplitCover(m: Hdrs, h: nat, x: Hdr, y: Hdr)
    requires h in m && h + Len(x) !in m && 0 < Len(x) && 0 < Len(y) && Len(x) + Len(y) == Len(m[h])
    ensures SameCover(m, m[h := x][h + Len(x) := y])
  {
    var n := h + Len(x);
    var m' := m[h := x][n := y];
    forall b: nat ensures Owned(m, b) <==> Owned(m', b) {
      if g: nat :| Owns(m, g, b) {
        assert Owns(m', if g == h && b >= n then n else g, b);
      }
      if g: nat :| Owns(m', g, b) {
        assert Owns(m, if g == n then h else g, b);
      }
    }
  }

  lemma Extend(m: Hdrs, h: nat, hd: Hdr)
    requires Tiling(m) && h > 0 && Len(hd) > 0
    requires forall b: nat :: h <= b < h + Len(hd) ==> !Owned(m, b)
    ensures h !in m
    ensures Tiling(m[h := hd])
    ensures forall b: nat :: Owned(m[h := hd], b) <==> Owned(m, b) || h <= b < h + Len(hd)
  {
    var m' := m[h := hd];
    if h in m { assert Owns(m, h, h) && Owned(m, h); }
    forall g, k | g in m' && k in m' && g < k ensures End(m', g) <= k {
      if k == h {
        if End(m, g) > h { assert Owns(m, g, h) && Owned(m, h); }
      } else if g == h {
        if h + Len(hd) > k { assert Owns(m, k, k) && Owned(m, k); }
      }
    }
    forall b: nat ensures Owned(m', b) <==> Owned(m, b) || h <= b < h + Len(hd) {
      if g: nat :| Owns(m, g, b) { assert Owns(m', g, b); }
      if h <= b < h + Len(hd) { assert Owns(m', h, b); }
      if g: nat :| Owns(m', g, b) { if g != h { assert Owns(m, g, b); } }
    }
  }

  // ------------------------------------------------------- sums over headers

  ghost function Sum(m: Hdrs, w: (nat, Hdr) -> nat): nat {
    if m == map[] then 0 else
      var h :| h in m;
      w(h, m[h]) + Sum(m - {h}, w)
  }

  lemma {:induction false} SumRemove(m: Hdrs, w: (nat, Hdr) -> nat, h: nat)
    requires h in m
    ensures Sum(m, w) == w(h, m[h]) + Sum(m - {h}, w)
    decreases |m|
  {
    var g :| g in m && Sum(m, w) == w(g, m[g]) + Sum(m - {g}, w);
    if g != h {
      SumRemove(m - {g}, w, h);
      SumRemove(m - {h}, w, g);
      assert m - {g} - {h} == m - {h} - {g};
    }
  }

  lemma SumUpdate(m: Hdrs, w: (nat, Hdr) -> nat, h: nat, hd: Hdr)
    requires h in m
    ensures Sum(m[h := hd], w) == Sum(m, w) - w(h, m[h]) + w(h, hd)
  {
    SumRemove(m, w, h);
    SumRemove(m[h := hd], w, h);
    assert m[h := hd] - {h} == m - {h};
  }

  lemma SumAdd(m: Hdrs, w: (nat, Hdr) -> nat, h: nat, hd: Hdr)
    requires h !in m
    ensures Sum(m[h := hd], w) == Sum(m, w) + w(h, hd)
  {
    SumRemove(m[h := hd], w, h);
    assert m[h := hd] - {h} == m;
  }

  lemma SumMerge(m: Hdrs, w: (nat, Hdr) -> nat, h: nat, n: nat, hd: Hdr)
    requires h in m && n in m && h != n
    ensures Sum(m[h := hd] - {n}, w) == Sum(m, w) - w(h, m[h]) - w(n, m[n]) + w(h, hd)
  {
    SumUpdate(m, w, h, hd);
    SumRemove(m[h := hd], w, n);
  }

  function AllWeight(h: nat, hd: Hdr): nat {
    Len(hd)
  }

  function UsedWeight(h: nat, hd: Hdr): nat {
    if hd.Used? then Len(hd) else 0
  }

  function FreeWeight(h: nat, hd: Hdr): nat {
    if hd.Free? then hd.len else 0
  }

  /** Used and free extents together make up the heap. */
  lemma {:induction false} UsedPlusFree(m: Hdrs)
    ensures Sum(m, UsedWeight) + Sum(m, FreeWeight) == Sum(m, AllWeight)
    decreases |m|
  {
    if m != map[] {
      var h :| h in m;
      SumRemove(m, UsedWeight, h);
      SumRemove(m, FreeWeight, h);
      SumRemove(m, AllWeight, h);
      UsedPlusFree(m - {h});
    }
  }
}
