/** Merging free neighbours one of which may be unmapped: what becomes of their mapping, and
    how much memory is mapped or unmapped for it in the whole. */
module Merging {
  import opened MarkHeap
  import opened Tiles
  import opened HeapLayout

  /** The test of GC_merge_unmapped. */
  predicate CanMerge(m: Hdrs, h: nat)
    requires h in m
  {
    AdjacentFree(m, h) && Mergeable(m[h].len, m[End(m, h)].len)
  }

  lemma CanMergeParts(m: Hdrs, h: nat)
    requires h in m
    ensures CanMerge(m, h) ==> AdjacentFree(m, h) && Mergeable(m[h].len, m[End(m, h)].len)
    ensures !CanMerge(m, h) ==> Stuck(m, h)
  {
  }

  /** The header of two free neighbours merged.  Where only one of them is mapped the longer one
      keeps its mapping, and the second when they are equally long. */
  ghost predicate Harmonized(a: Hdr, b: Hdr, hd: Hdr)
    requires a.Free? && b.Free?
  {
    && hd.Free? && hd.len == a.len + b.len
    && hd.unmapped == (if a.len > b.len then a.unmapped else b.unmapped)
    && hd.age == if a.len <= b.len && a.unmapped && !b.unmapped then b.age else a.age
  }

  /** How much of the two had to be mapped or unmapped. */
  ghost function Flips(a: Hdr, b: Hdr, hd: Hdr): nat
    requires a.Free? && b.Free? && hd.Free?
  {
    (if a.unmapped == hd.unmapped then 0 else a.len) + (if b.unmapped == hd.unmapped then 0 else b.len)
  }

  /** Never the longer one. */
  lemma FlipsFew(a: Hdr, b: Hdr, hd: Hdr)
    requires a.Free? && b.Free? && Harmonized(a, b, hd)
    ensures Flips(a, b, hd) <= if a.len < b.len then a.len else b.len
  {
  }

  /** `m'` comes from `m` by merging the block at `h` with its successor. */
  ghost predicate Fused(m: Hdrs, h: nat, m': Hdrs) {
    && h in m && CanMerge(m, h) && h in m' && m' == m[h := m'[h]] - {End(m, h)}
    && Harmonized(m[h], m[End(m, h)], m'[h])
  }

  lemma FusedIs(m: Hdrs, h: nat, hd: Hdr, m': Hdrs)
    requires AdjacentFree(m, h) && Mergeable(m[h].len, m[End(m, h)].len) && m' == m[h := hd] - {End(m, h)}
    requires m[h].len > 0 && Harmonized(m[h], m[End(m, h)], hd)
    ensures Fused(m, h, m')
  {
  }

  lemma FusedParts(m: Hdrs, h: nat, m': Hdrs)
    requires Fused(m, h, m')
    ensures h in m' && m' == m[h := m'[h]] - {End(m, h)}
    ensures m'[h].Free? && m'[h].len == m[h].len + m[End(m, h)].len
  {
  }

  /** Each of these layouts comes from the one before it by a merge. */
  ghost predicate Merges(ms: seq<Hdrs>, hs: seq<nat>) {
    |ms| == |hs| + 1 && forall i :: 0 <= i < |hs| ==> Fused(ms[i], hs[i], ms[i + 1])
  }

  /** The lengths mapped or unmapped in the first `n` merges. */
  ghost function Flipped(ms: seq<Hdrs>, hs: seq<nat>, n: nat): nat
    requires Merges(ms, hs) && n <= |hs|
  {
    if n == 0 then 0
    else
      var a, h := ms[n - 1], hs[n - 1];
      assert Fused(a, h, ms[n]);
      Flipped(ms, hs, n - 1) + Flips(a[h], a[End(a, h)], ms[n][h])
  }

  lemma MergesStart(m: Hdrs)
    ensures Merges([m], [])
  {
  }

  lemma MergesNext(ms: seq<Hdrs>, hs: seq<nat>, h: nat, m': Hdrs)
    requires Merges(ms, hs) && Fused(ms[|hs|], h, m')
    ensures Merges(ms + [m'], hs + [h]) && (ms + [m'])[|hs| + 1] == m'
  {
    hide Fused;
    var ms', hs' := ms + [m'], hs + [h];
    forall i | 0 <= i < |hs'| ensures Fused(ms'[i], hs'[i], ms'[i + 1]) {
      if i < |hs| { assert Fused(ms[i], hs[i], ms[i + 1]); }
    }
  }

  // ------------------------------------------------------- the cost of a chain of merges

  /** The number of times `n` can be halved. */
  ghost function Halvings(n: nat): nat {
    if n <= 1 then 0 else 1 + Halvings(n / 2)
  }

  lemma {:induction false} HalvingsMonotone(a: nat, b: nat)
    requires a <= b
    ensures Halvings(a) <= Halvings(b)
    decreases b
  {
    if a > 1 { HalvingsMonotone(a / 2, b / 2); }
  }

  lemma HalvingsDouble(a: nat)
    requires a > 0
    ensures Halvings(2 * a) == 1 + Halvings(a)
  {
    assert 2 * a / 2 == a;
  }

  ghost function SizeWeight(h: nat, hd: Hdr): nat {
    if hd.Free? then hd.len * Halvings(hd.len) else 0
  }

  lemma Product(a: nat, x: nat, y: nat)
    requires x <= y
    ensures a * x <= a * y
  {
  }

  /** The shorter of two blocks is paid for by the merged one being at least twice as long. */
  lemma Doubling(a: nat, b: nat)
    requires 0 < a <= b
    ensures a * Halvings(a) + b * Halvings(b) + a <= (a + b) * Halvings(a + b)
  {
    HalvingsDouble(a);
    HalvingsMonotone(2 * a, a + b);
    HalvingsMonotone(b, a + b);
    hide Halvings;
    DoublingStep(a, b, Halvings(a), Halvings(b), Halvings(a + b));
  }

  lemma DoublingStep(a: nat, b: nat, x: nat, y: nat, t: nat)
    requires x + 1 <= t && y <= t
    ensures a * x + b * y + a <= (a + b) * t
  {
    Product(a, x + 1, t);
    Product(b, y, t);
    assert a * (x + 1) == a * x + a;
    assert (a + b) * t == a * t + b * t;
  }

  lemma PairPays(a: nat, b: nat)
    requires 0 < a && 0 < b
    ensures a * Halvings(a) + b * Halvings(b) + (if a < b then a else b) <= (a + b) * Halvings(a + b)
  {
    hide Halvings;
    if a <= b { Doubling(a, b); } else { Doubling(b, a); }
  }

  lemma FusedPays(m: Hdrs, h: nat, m': Hdrs)
    requires Tiling(m) && Fused(m, h, m')
    ensures Tiling(m') && Sum(m', FreeWeight) == Sum(m, FreeWeight)
    ensures Sum(m, SizeWeight) + Flips(m[h], m[End(m, h)], m'[h]) <= Sum(m', SizeWeight)
  {
    var n := End(m, h);
    Merge(m, h, m'[h]);
    FlipsFew(m[h], m[n], m'[h]);
    assert m[h].len > 0 && m[n].len > 0 && n != h && m'[h].Free? && m'[h].len == m[h].len + m[n].len;
    SumMerge(m, FreeWeight, h, n, m'[h]);
    SumMerge(m, SizeWeight, h, n, m'[h]);
    PairPays(m[h].len, m[n].len);
    hide Sum, Tiling, Flips, Harmonized, CanMerge, SameCover, Halvings;
  }

  lemma {:induction false} MergesPay(ms: seq<Hdrs>, hs: seq<nat>, n: nat)
    requires Merges(ms, hs) && n <= |hs| && Tiling(ms[0])
    ensures Tiling(ms[n]) && Sum(ms[n], FreeWeight) == Sum(ms[0], FreeWeight)
    ensures Sum(ms[0], SizeWeight) + Flipped(ms, hs, n) <= Sum(ms[n], SizeWeight)
  {
    if n > 0 {
      MergesPay(ms, hs, n - 1);
      var a, h := ms[n - 1], hs[n - 1];
      assert Fused(a, h, ms[n]);
      FusedPays(a, h, ms[n]);
      hide Sum, Tiling, SizeWeight, Flips, CanMerge, Harmonized, FreeWeight;
    }
  }

  /** What `free` blocks can weigh when none is longer than `total`. */
  ghost function Heaviest(free: nat, total: nat): nat {
    free * Halvings(total)
  }

  lemma {:induction false} WeightBound(m: Hdrs, total: nat)
    requires Sum(m, FreeWeight) <= total
    ensures Sum(m, SizeWeight) <= Heaviest(Sum(m, FreeWeight), total)
    decreases |m|
  {
    hide *;
    if m == map[] {
      NoWeight(m);
    } else {
      var h :| h in m;
      SumRemove(m, FreeWeight, h);
      SumRemove(m, SizeWeight, h);
      Fewer(m, h);
      WeightBound(m - {h}, total);
      WeightStep(h, m[h], Sum(m - {h}, FreeWeight), Sum(m - {h}, SizeWeight), total);
    }
  }

  lemma NoWeight(m: Hdrs)
    requires m == map[]
    ensures Sum(m, SizeWeight) == 0
  {
  }

  lemma Fewer(m: Hdrs, h: nat)
    requires h in m
    ensures |m - {h}| < |m|
  {
    assert (m - {h}).Keys == m.Keys - {h};
    assert |m| == |m.Keys| && |m - {h}| == |(m - {h}).Keys|;
  }

  lemma WeightStep(h: nat, hd: Hdr, free: nat, w: nat, total: nat)
    requires FreeWeight(h, hd) + free <= total && w <= Heaviest(free, total)
    ensures SizeWeight(h, hd) + w <= Heaviest(FreeWeight(h, hd) + free, total)
  {
    var a, t := FreeWeight(h, hd), Halvings(total);
    HalvingsMonotone(a, total);
    hide Halvings;
    SumProduct(a, free, w, Halvings(a), t);
  }

  lemma SumProduct(a: nat, b: nat, w: nat, x: nat, t: nat)
    requires x <= t && w <= b * t
    ensures a * x + w <= (a + b) * t
  {
    Product(a, x, t);
    assert (a + b) * t == a * t + b * t;
  }

  /** However the merges go, the blocks mapped or unmapped for them are together no more than
      the free blocks times the logarithm of their number. */
  lemma FlippedFew(ms: seq<Hdrs>, hs: seq<nat>)
    requires Merges(ms, hs) && Tiling(ms[0])
    ensures
      var total := Sum(ms[0], FreeWeight);
      Flipped(ms, hs, |hs|) <= total * Halvings(total)
  {
    MergesPay(ms, hs, |hs|);
    WeightBound(ms[|hs|], Sum(ms[0], FreeWeight));
  }
}
