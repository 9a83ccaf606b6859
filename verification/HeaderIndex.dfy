/** The two-level index that finds the header of a block.  Bottom indices are named by their
    high-order address bits plus one; 0 is the null pointer. */
module HeaderIndex {
  import opened MarkHeap
  import opened Tiles
  import F = FreeList
  import opened Lists
  import C = HashChains
  import Pages

  const BOTTOM_SZ := 1024
  const TOP_SZ := 2048
  const MAX_JUMP := HBLKSIZE - 1

  /** An entry is nil, tells how far back the block starts at least, or stands for the
      header of the block that starts here. */
  datatype Entry = Nil | Jump(back: nat) | Head

  type Bottoms = map<nat, seq<Entry>>

  /** The name of the bottom index responsible for block `b`. */
  function Id(b: nat): (id: nat)
    ensures id > 0
  {
    b / BOTTOM_SZ + 1
  }

  function BlockAt(id: nat, j: nat): nat
    requires id > 0
  {
    (id - 1) * BOTTOM_SZ + j
  }

  lemma BlockAtId(id: nat, j: nat)
    requires id > 0 && j < BOTTOM_SZ
    ensures Id(BlockAt(id, j)) == id && BlockAt(id, j) % BOTTOM_SZ == j
  {
  }

  /** The entry found for block `b`; a missing bottom index reads as nil. */
  function Cell(cells: Bottoms, b: nat): Entry {
    if Id(b) in cells && |cells[Id(b)]| == BOTTOM_SZ then cells[Id(b)][b % BOTTOM_SZ] else Nil
  }

  function Capped(n: nat): nat {
    if n > MAX_JUMP then MAX_JUMP else n
  }

  /** Block `b` lies inside the used extent of `h`, behind its first block. */
  ghost predicate Inner(m: Hdrs, h: nat, b: nat) {
    h in m && m[h].Used? && h < b < End(m, h)
  }

  ghost predicate Inside(m: Hdrs, b: nat) {
    exists h: nat :: Inner(m, h, b)
  }

  /** What the index must hold for block `b` when the heap is laid out as in `m`. */
  ghost predicate CellOk(m: Hdrs, b: nat, e: Entry) {
    && (b in m ==> e == Head)
    && (forall h: nat :: Inner(m, h, b) ==> e == Jump(Capped(b - h)))
    && (b !in m && !Inside(m, b) ==> e == Nil)
  }

  /** The index agrees with the plain list of blocks. */
  ghost predicate Agrees(cells: Bottoms, m: Hdrs) {
    forall b: nat :: CellOk(m, b, Cell(cells, b))
  }

  /** Only the entry of `b` has changed, to `e`. */
  ghost predicate Wrote(cells: Bottoms, cells': Bottoms, b: nat, e: Entry) {
    && Cell(cells', b) == e
    && forall c: nat :: c != b ==> Cell(cells', c) == Cell(cells, c)
  }

  // ------------------------------------------------------- agreement over the heap's changes

  /** A block lies inside at most one extent. */
  lemma InnerUnique(m: Hdrs, h: nat, g: nat, b: nat)
    requires Tiling(m) && Inner(m, h, b)
    ensures b !in m
    ensures g in m && g <= b < End(m, g) ==> g == h
  {
  }

  /** Installing forwarding counts for `h` goes with putting the free block `h` to use. */
  lemma AgreesUsed(cells: Bottoms, cells': Bottoms, m: Hdrs, h: nat, hd: Hdr)
    requires Tiling(m) && Agrees(cells, m) && IsFree(m, h) && hd.Used? && Len(hd) == m[h].len
    requires forall c: nat :: Cell(cells', c) == if h < c < h + Len(hd) then Jump(Capped(c - h)) else Cell(cells, c)
    ensures Agrees(cells', m[h := hd])
  {
    var m' := m[h := hd];
    forall b: nat ensures CellOk(m', b, Cell(cells', b)) {
      assert CellOk(m, b, Cell(cells, b));
      forall g: nat | Inner(m', g, b) ensures Cell(cells', b) == Jump(Capped(b - g)) {
        if g != h { assert Inner(m, g, b); }
      }
      if h < b < h + Len(hd) {
        assert Inner(m', h, b) && b !in m;
      } else if Inside(m, b) {
        var g: nat :| Inner(m, g, b);
        assert Inner(m', g, b);
      }
    }
  }

  /** Removing the counts of `h` goes with freeing it. */
  lemma AgreesFreed(cells: Bottoms, cells': Bottoms, m: Hdrs, h: nat, hd: Hdr)
    requires Tiling(m) && Agrees(cells, m) && h in m && m[h].Used? && hd.Free? && hd.len == Len(m[h])
    requires forall c: nat :: Cell(cells', c) == if h < c < h + hd.len then Nil else Cell(cells, c)
    ensures Agrees(cells', m[h := hd])
  {
    var m' := m[h := hd];
    forall b: nat ensures CellOk(m', b, Cell(cells', b)) {
      assert CellOk(m, b, Cell(cells, b));
      forall g: nat | Inner(m', g, b) ensures Cell(cells', b) == Jump(Capped(b - g)) {
        assert Inner(m, g, b);
      }
      if Inside(m, b) && !(h < b < h + hd.len) {
        var g: nat :| Inner(m, g, b);
        assert Inner(m', g, b);
      }
    }
  }

  /** Installing a header goes with cutting a free extent in two, or with new memory. */
  lemma AgreesInstalled(cells: Bottoms, cells': Bottoms, m: Hdrs, m': Hdrs, n: nat)
    requires Agrees(cells, m) && n !in m && Wrote(cells, cells', n, Head)
    requires m'.Keys == m.Keys + {n} && m'[n].Free?
    requires forall g :: g in m ==> (m'[g] == m[g] || (m[g].Free? && m'[g].Free?))
    requires !Inside(m, n)
    ensures Agrees(cells', m')
  {
    forall b: nat ensures CellOk(m', b, Cell(cells', b)) {
      assert CellOk(m, b, Cell(cells, b));
      forall g: nat | Inner(m', g, b) ensures Cell(cells', b) == Jump(Capped(b - g)) {
        assert Inner(m, g, b);
        assert b != n;
      }
      if Inside(m, b) {
        var g: nat :| Inner(m, g, b);
        assert Inner(m', g, b);
      }
    }
  }

  /** Removing a header goes with merging a free extent into the one before it. */
  lemma AgreesRemoved(cells: Bottoms, cells': Bottoms, m: Hdrs, m': Hdrs, n: nat)
    requires Tiling(m) && Agrees(cells, m) && IsFree(m, n) && Wrote(cells, cells', n, Nil)
    requires m'.Keys == m.Keys - {n}
    requires forall g :: g in m' ==> (m'[g] == m[g] || (m[g].Free? && m'[g].Free?))
    ensures Agrees(cells', m')
  {
    forall b: nat ensures CellOk(m', b, Cell(cells', b)) {
      assert CellOk(m, b, Cell(cells, b));
      forall g: nat | Inner(m', g, b) ensures Cell(cells', b) == Jump(Capped(b - g)) {
        assert Inner(m, g, b);
        InnerUnique(m, g, n, b);
        assert b != n;
      }
      if Inside(m, b) {
        var g: nat :| Inner(m, g, b);
        assert Inner(m', g, b);
      }
    }
  }

  // ------------------------------------------------------- the index itself

  /** Strictly ascending. */
  ghost predicate Ascending(list: seq<nat>) {
    forall i, j :: 0 <= i < j < |list| ==> list[i] < list[j]
  }

  /** Putting `n` between the elements at `k - 1` and `k`. */
  lemma LinkBetween(head: nat, next: F.Links, prev: F.Links, list: seq<nat>, k: nat, n: nat)
    requires F.Linked(head, next, prev, list) && k <= |list| && n != 0 && n !in list
    ensures
      var before, after := Item(list, k - 1), Item(list, k);
      var next1, prev1 := next[n := after], prev[n := before];
      F.Linked(if k == 0 then n else head, if k == 0 then next1 else next1[before := n],
               if after == 0 then prev1 else prev1[after := n], list[..k] + [n] + list[k..])
  {
    var before, after := Item(list, k - 1), Item(list, k);
    var next1, prev1 := next[n := after], prev[n := before];
    var next', prev' := if k == 0 then next1 else next1[before := n], if after == 0 then prev1 else prev1[after := n];
    var r := list[..k] + [n] + list[k..];
    assert k > 0 ==> F.At(next, prev, list, k - 1);
    assert k < |list| ==> F.At(next, prev, list, k);
    forall j | 0 <= j < |r| ensures F.At(next', prev', r, j) {
      if j < k {
        assert F.At(next, prev, list, j);
      } else if j > k {
        assert F.At(next, prev, list, j - 1);
      }
    }
  }

  lemma InsertedAscending(list: seq<nat>, k: nat, n: nat)
    requires Ascending(list) && k <= |list|
    requires (k > 0 ==> list[k - 1] < n) && (k < |list| ==> n < list[k])
    ensures Ascending(list[..k] + [n] + list[k..])
  {
  }

  ghost predicate SortedList(first: nat, last: nat, asc: F.Links, desc: F.Links, order: seq<nat>, ids: set<nat>) {
    && F.Linked(first, asc, desc, order) && Ascending(order)
    && last == Item(order, |order| - 1)
    && forall n :: n in order <==> n in ids
  }

  /** Inserting `n` between its neighbours keeps the list sorted and adds `n` to what it holds. */
  lemma Inserted(first: nat, last: nat, asc: F.Links, desc: F.Links, list: seq<nat>, ids: set<nat>, k: nat, n: nat)
    requires SortedList(first, last, asc, desc, list, ids) && k <= |list| && n != 0 && n !in list
    requires (k > 0 ==> list[k - 1] < n) && (k < |list| ==> n < list[k])
    ensures
      var before, after := Item(list, k - 1), Item(list, k);
      SortedList(if k == 0 then n else first, if k == |list| then n else last,
                 if k == 0 then asc[n := after] else asc[n := after][before := n],
                 if k == |list| then desc[n := before] else desc[n := before][after := n],
                 list[..k] + [n] + list[k..], ids + {n})
  {
    hide Ascending;
    LinkBetween(first, asc, desc, list, k, n);
    InsertedAscending(list, k, n);
    assert k < |list| ==> F.At(asc, desc, list, k);
    assert list == list[..k] + list[k..];
  }

  ghost predicate HashedList(top: seq<nat>, link: map<nat, nat>, chains: seq<seq<nat>>, ids: set<nat>) {
    && |top| == |chains| == TOP_SZ
    && (forall i :: 0 <= i < TOP_SZ ==> C.Chain(top[i], link, chains[i]))
    && forall i, n :: 0 <= i < TOP_SZ ==> (n in chains[i] <==> n in ids && (n - 1) % TOP_SZ == i)
  }

  /** The new bottom indices are those of blocks of the extent. */
  ghost predicate OnlyFor(cells: Bottoms, cells': Bottoms, h: nat, n: nat) {
    forall p :: p in cells' && p !in cells ==> exists c: nat :: h <= c < h + n && Id(c) == p
  }

  lemma OnlyForNone(cells: Bottoms, h: nat, n: nat)
    ensures OnlyFor(cells, cells, h, n)
  {
  }

  lemma OnlyForMore(cells: Bottoms, cells1: Bottoms, cells2: Bottoms, h: nat,
                    n: nat, b: nat)
    requires OnlyFor(cells, cells1, h, n) && cells2.Keys == cells1.Keys + {Id(b)} && h <= b < h + n
    ensures OnlyFor(cells, cells2, h, n)
  {
    hide Id;
    forall p | p in cells2 && p !in cells ensures exists c: nat :: h <= c < h + n && Id(c) == p {
      if p !in cells1 { assert p == Id(b); }
    }
  }

  lemma OnlyForSame(cells: Bottoms, cells1: Bottoms, cells2: Bottoms, h: nat,
                    n: nat)
    requires OnlyFor(cells, cells1, h, n) && cells2.Keys == cells1.Keys
    ensures OnlyFor(cells, cells2, h, n)
  {
    forall p | p in cells2 && p !in cells ensures exists c: nat :: h <= c < h + n && Id(c) == p { assert p in cells1; }
  }

  class Index {
    const top: array<nat>
    var hashLink: map<nat, nat>
    var asc: map<nat, nat>
    var desc: map<nat, nat>
    var cells: Bottoms
    var first: nat
    var last: nat
    ghost var order: seq<nat>
    ghost var chains: seq<seq<nat>>

    /** All bottom indices are listed in ascending order, linked both ways. */
    ghost predicate Sorted()
      reads this
    {
      SortedList(first, last, asc, desc, order, cells.Keys)
    }

    /** Each is on the hash chain of its key. */
    ghost predicate Hashed()
      reads this, top
    {
      HashedList(top[..], hashLink, chains, cells.Keys)
    }

    ghost predicate Valid()
      reads this, top
    {
      && Sorted() && Hashed()
      && forall n :: n in cells ==> n > 0 && |cells[n]| == BOTTOM_SZ
    }

    constructor ()
      ensures Valid() && cells == map[] && fresh(top)
    {
      top := new nat[TOP_SZ](_ => 0);
      hashLink, asc, desc, cells := map[], map[], map[], map[];
      first, last := 0, 0;
      order, chains := [], seq(TOP_SZ, _ => []);
    }

    /** GET_BI: the bottom index for block `b`, or 0. */
    method GetBi(b: nat) returns (p: nat)
      requires Valid()
      ensures p == if Id(b) in cells then Id(b) else 0
    {
      hide Sorted;
      var hi := b / BOTTOM_SZ;
      ghost var i := hi % TOP_SZ;
      p := top[hi % TOP_SZ];
      ghost var k := 0;
      while p != 0
        invariant k <= |chains[i]| && p == Item(chains[i], k)
        invariant Id(b) !in chains[i][..k]
        decreases |chains[i]| - k
      {
        assert C.At(hashLink, chains[i], k);
        if p - 1 == hi {
          assert p in chains[i];
          return;
        }
        assert chains[i][..k + 1] == chains[i][..k] + [p];
        p := hashLink[p];
        k := k + 1;
      }
      C.ChainEnd(top[i], hashLink, chains[i], k);
      assert chains[i][..k] == chains[i];
    }

    /** get_index: make sure there is a bottom index for block `b`. */
    method GetIndex(b: nat)
      requires Valid()
      modifies this, top
      ensures Valid() && cells.Keys == old(cells).Keys + {Id(b)}
      ensures forall c: nat :: Cell(cells, c) == Cell(old(cells), c)
    {
      hide SortedList, HashedList;
      var hi := b / BOTTOM_SZ;
      var p := GetBi(b);
      if p != 0 { return; }
      var r := hi + 1;
      AddHash(r);
      AddSorted(r);
      ghost var cells0 := cells;
      cells := cells[r := seq(BOTTOM_SZ, _ => Nil)];
      assert cells.Keys == cells0.Keys + {r};
      assert forall n :: n in cells ==> n > 0 && |cells[n]| == BOTTOM_SZ;
    }

    method AddHash(r: nat)
      requires Hashed() && r > 0 && r !in cells
      modifies this`hashLink, this`chains, top
      ensures HashedList(top[..], hashLink, chains, cells.Keys + {r})
    {
      hide C.Chain;
      var i := (r - 1) % TOP_SZ;
      ghost var top0 := top[..];
      forall j | 0 <= j < TOP_SZ && j != i ensures C.Chain(top0[j], hashLink[r := top0[i]], chains[j]) {
        forall x | x in chains[j] ensures x in hashLink && x != r { C.ChainMember(top0[j], hashLink, chains[j], x); }
        C.ChainFrame(top0[j], hashLink, hashLink[r := top0[i]], chains[j]);
      }
      C.ChainPush(top0[i], hashLink, chains[i], r);
      hashLink := hashLink[r := top[i]];
      top[i] := r;
      chains := chains[i := [r] + chains[i]];
      assert top[..] == top0[i := r];
    }

    method AddSorted(r: nat)
      requires Sorted() && r > 0 && r !in cells
      modifies this`asc, this`desc, this`first, this`last, this`order
      ensures SortedList(first, last, asc, desc, order, cells.Keys + {r})
    {
      hide SortedList;
      var pi, p; ghost var k;
      pi, p, k := FindPlace(r);
      Inserted(first, last, asc, desc, order, cells.Keys, k, r);
      desc := desc[r := pi];
      if p == 0 {
        last := r;
      } else {
        desc := desc[p := r];
      }
      asc := asc[r := p];
      if pi == 0 {
        first := r;
      } else {
        asc := asc[pi := r];
      }
      order := order[..k] + [r] + order[k..];
    }

    /** The walk of get_index along the ascending list. */
    method FindPlace(r: nat) returns (pi: nat, p: nat, ghost k: nat)
      requires Sorted() && r > 0 && r !in cells
      ensures k <= |order| && p == Item(order, k) && pi == Item(order, k - 1)
      ensures (k > 0 <==> pi != 0) && (k < |order| <==> p != 0)
      ensures (k > 0 ==> order[k - 1] < r) && (k < |order| ==> r < order[k])
      ensures r !in order
    {
      hide F.Linked, Ascending;
      SortedFacts(0);
      pi, p, k := 0, first, 0;
      while p != 0 && p < r
        invariant k <= |order| && p == Item(order, k) && pi == Item(order, k - 1)
        invariant k > 0 ==> 0 < order[k - 1] < r
        modifies {}
        decreases |order| - k
      {
        SortedFacts(k);
        pi := p;
        p := asc[p];
        k := k + 1;
      }
      SortedFacts(k);
    }

    lemma SortedFacts(k: nat)
      requires Sorted()
      ensures first == Item(order, 0) && last == Item(order, |order| - 1)
      ensures k < |order| ==> order[k] != 0 && order[k] in cells && order[k] in asc && order[k] in desc
      ensures k < |order| ==> asc[order[k]] == Item(order, k + 1) && desc[order[k]] == Item(order, k - 1)
    {
      if k < |order| { assert F.At(asc, desc, order, k) && order[k] in order; }
    }

    /** SET_HDR; where there is no bottom index only nil may be written. */
    method SetHdr(b: nat, e: Entry)
      requires Valid() && (Id(b) in cells || e == Nil)
      modifies this`cells
      ensures Valid() && cells.Keys == old(cells).Keys && Wrote(old(cells), cells, b, e)
    {
      hide SortedList, HashedList;
      var p := GetBi(b);
      if p != 0 {
        ghost var cells0 := cells;
        cells := cells[p := cells[p][b % BOTTOM_SZ := e]];
        assert cells.Keys == cells0.Keys;
        assert forall n :: n in cells ==> n > 0 && |cells[n]| == BOTTOM_SZ;
        forall c: nat | c != b ensures Cell(cells, c) == Cell(cells0, c) {
          if Id(c) == Id(b) { SameCellSameBlock(b, c); }
        }
      }
    }

    /** GC_install_header */
    method InstallHeader(h: nat)
      requires Valid()
      modifies this, top
      ensures Valid() && cells.Keys == old(cells).Keys + {Id(h)} && Wrote(old(cells), cells, h, Head)
    {
      hide SortedList, HashedList;
      GetIndex(h);
      SetHdr(h, Head);
    }

    /** GC_remove_header */
    method RemoveHeader(h: nat)
      requires Valid()
      modifies this`cells
      ensures Valid() && Wrote(old(cells), cells, h, Nil)
    {
      SetHdr(h, Nil);
    }

    /** GC_install_counts: forwarding counts for the blocks of an extent behind the first. */
    method InstallCounts(h: nat, n: nat)
      requires Valid() && n > 0
      modifies this, top
      ensures Valid()
      ensures forall c: nat :: h <= c < h + n ==> Id(c) in cells
      ensures OnlyFor(old(cells), cells, h, n)
      ensures forall c: nat :: Cell(cells, c) == if h < c < h + n then Jump(Capped(c - h)) else Cell(old(cells), c)
    {
      hide Sorted, Hashed, Cell, OnlyFor;
      OnlyForNone(cells, h, n);
      var hbp := h;
      ghost var k := 0;
      while hbp < h + n
        invariant Valid() && hbp == h + BOTTOM_SZ * k
        invariant forall c: nat :: Cell(cells, c) == Cell(old(cells), c)
        invariant forall i: nat :: i < k ==> Id(h + BOTTOM_SZ * i) in cells
        invariant OnlyFor(old(cells), cells, h, n)
      {
        ghost var cells0 := cells;
        GetIndex(hbp);
        OnlyForMore(old(cells), cells0, cells, h, n, hbp);
        hbp := hbp + BOTTOM_SZ;
        k := k + 1;
      }
      ghost var cells1 := cells;
      GetIndex(h + n - 1);
      OnlyForMore(old(cells), cells1, cells, h, n, h + n - 1);
      forall c: nat | h <= c < h + n ensures Id(c) in cells {
        ReachedId(h, n, k, c);
      }
      hbp := h + 1;
      while hbp < h + n
        invariant Valid() && h + 1 <= hbp <= h + n && OnlyFor(old(cells), cells, h, n)
        invariant forall c: nat :: h <= c < h + n ==> Id(c) in cells
        invariant forall c: nat :: Cell(cells, c) == if h < c < hbp then Jump(Capped(c - h)) else Cell(old(cells), c)
      {
        var i := hbp - h;
        ghost var cells2 := cells;
        SetHdr(hbp, Jump(if i > MAX_JUMP then MAX_JUMP else i));
        OnlyForSame(old(cells), cells2, cells, h, n);
        hbp := hbp + 1;
      }
    }

    /** GC_remove_counts */
    method RemoveCounts(h: nat, n: nat)
      requires Valid()
      modifies this`cells
      ensures Valid()
      ensures forall c: nat :: Cell(cells, c) == if h < c < h + n then Nil else Cell(old(cells), c)
    {
      hide Sorted, Hashed, Cell;
      var hbp := h + 1;
      while hbp < h + n
        invariant Valid() && h + 1 <= hbp && (hbp <= h + n || hbp == h + 1)
        invariant forall c: nat :: Cell(cells, c) == if h < c < hbp then Nil else Cell(old(cells), c)
      {
        SetHdr(hbp, Nil);
        hbp := hbp + 1;
      }
    }

    // ----------------------------------------------------------- queries

    /** GC_apply_to_all_blocks: the used blocks in the order they are visited. */
    method ApplyToAll(m: Hdrs) returns (visited: seq<nat>)
      requires Valid() && Tiling(m) && Agrees(cells, m)
      ensures forall h: nat :: h in visited <==> IsUsed(m, h)
      ensures Distinct(visited)
    {
      hide Hashed, F.Linked, Tiling, Agrees, Cell, Ascending;
      visited := [];
      SortedFacts(0);
      var p := first;
      ghost var k := 0;
      while p != 0
        invariant k <= |order| && p == Item(order, k) && Distinct(visited)
        invariant forall h: nat :: h in visited <==> IsUsed(m, h) && Id(h) in order[..k]
        decreases |order| - k
      {
        SortedFacts(k);
        AscendingDistinct(order, k);
        var j: int := BOTTOM_SZ - 1;
        while j >= 0
          invariant -MAX_JUMP <= j < BOTTOM_SZ && Distinct(visited)
          invariant forall h: nat ::
            h in visited <==> IsUsed(m, h) && (Id(h) in order[..k] || (Id(h) == p && h % BOTTOM_SZ > j))
        {
          var b := BlockAt(p, j);
          BlockAtId(p, j);
          CellAt(p, j, m);
          var e := cells[p][j];
          assert forall h: nat :: Id(h) == p && h % BOTTOM_SZ == j ==> h == b;
          if e == Head {
            if m[b].Used? {
              visited := visited + [b];
            }
            j := j - 1;
          } else if e == Nil {
            j := j - 1;
          } else {
            JumpSkips(cells, m, b);
            SkippedCells(p, j, e.back, m);
            j := j - e.back;
          }
        }
        assert order[..k + 1] == order[..k] + [p];
        p := asc[p];
        k := k + 1;
      }
      SortedEnd(k);
      assert order[..k] == order;
      forall h: nat | IsUsed(m, h) ensures Id(h) in order { HeadHasIndex(m, h); }
    }

    lemma SortedEnd(k: nat)
      requires Sorted() && k <= |order| && Item(order, k) == 0
      ensures k == |order|
    {
      if k < |order| { SortedFacts(k); }
    }

    /** Agreement, spelled out for one entry of an existing bottom index. */
    lemma CellAt(p: nat, j: nat, m: Hdrs)
      requires Valid() && p in cells && j < BOTTOM_SZ && Agrees(cells, m)
      ensures |cells[p]| == BOTTOM_SZ && p > 0 && Cell(cells, BlockAt(p, j)) == cells[p][j]
      ensures cells[p][j] == Head <==> BlockAt(p, j) in m
    {
      hide Sorted, Hashed;
      BlockAtId(p, j);
      var b := BlockAt(p, j);
      assert CellOk(m, b, Cell(cells, b));
      if b !in m && Inside(m, b) { var h: nat :| Inner(m, h, b); }
    }

    lemma HeadHasIndex(m: Hdrs, h: nat)
      requires Valid() && Agrees(cells, m) && h in m
      ensures Id(h) in cells && Id(h) in order
    {
      hide Hashed, F.Linked;
      assert CellOk(m, h, Cell(cells, h));
    }

    /** GC_next_used_block: the first used block at or after `h`, or 0. */
    method NextUsedBlock(h: nat, m: Hdrs) returns (r: nat)
      requires Valid() && Tiling(m) && Agrees(cells, m)
      ensures r != 0 ==> IsUsed(m, r) && h <= r && forall g: nat :: h <= g < r ==> !IsUsed(m, g)
      ensures r == 0 ==> forall g: nat :: h <= g ==> !IsUsed(m, g)
    {
      hide Hashed, F.Linked, Tiling, Agrees, Cell, Ascending, NoUsedBefore, IsUsed, From;
      var bi, j; ghost var k;
      bi, j, k := StartForward(h, m);
      while bi != 0
        invariant k <= |order| && bi == Item(order, k)
        invariant bi != 0 ==> From(h, bi, j)
        invariant NoUsedBefore(m, h, order, k, j)
        decreases |order| - k
      {
        SortedFacts(k);
        if k + 1 < |order| { SortedFacts(k + 1); }
        r, j := ScanForward(h, m, bi, j, k);
        if r != 0 { return; }
        NextIndex(m, h, order, k, j);
        bi, j, k := asc[bi], 0, k + 1;
      }
      SortedEnd(k);
      forall g: nat | h <= g ensures !IsUsed(m, g) {
        if IsUsed(m, g) { UsedHasIndex(m, g); }
        AtEnd(m, h, order, k, j, g);
      }
      r := 0;
    }

    /** Where the forward search starts. */
    method StartForward(h: nat, m: Hdrs) returns (bi: nat, j: nat, ghost k: nat)
      requires Valid()
      ensures k <= |order| && bi == Item(order, k) && Ascending(order)
      ensures bi != 0 ==> From(h, bi, j)
      ensures NoUsedBefore(m, h, order, k, j)
    {
      hide Hashed, F.Linked, Cell, NoUsedBefore, From;
      j := h % BOTTOM_SZ;
      bi := GetBi(h);
      k := 0;
      if bi == 0 {
        SortedFacts(0);
        bi := first;
        while bi != 0 && bi < Id(h)
          invariant k <= |order| && bi == Item(order, k) && (k > 0 ==> order[k - 1] < Id(h))
          modifies {}
          decreases |order| - k
        {
          SortedFacts(k);
          bi := asc[bi];
          k := k + 1;
        }
        j := 0;
      } else {
        k := PlaceOf(Id(h));
      }
      SortedFacts(k);
      NoneBefore(m, h, order, k, j);
    }

    /** The search within one bottom index. */
    method ScanForward(h: nat, m: Hdrs, bi: nat, j0: nat, ghost k: nat) returns (r: nat, j: nat)
      requires Valid() && Tiling(m) && Agrees(cells, m) && k < |order| && bi == order[k] && bi in cells
      requires From(h, bi, j0) && NoUsedBefore(m, h, order, k, j0)
      ensures r != 0 ==> IsUsed(m, r) && h <= r && forall g: nat :: h <= g < r ==> !IsUsed(m, g)
      ensures r == 0 ==> From(h, bi, j) && NoUsedBefore(m, h, order, k, j) && j >= BOTTOM_SZ
    {
      hide Hashed, F.Linked, Tiling, Agrees, Cell, Ascending, NoUsedBefore;
      r, j := 0, j0;
      while j < BOTTOM_SZ
        invariant From(h, bi, j) && NoUsedBefore(m, h, order, k, j)
        decreases BOTTOM_SZ - j
      {
        CellAt(bi, j, m);
        var b := BlockAt(bi, j);
        if cells[bi][j] != Head {
          NotHere(m, h, order, k, j, 1);
          j := j + 1;
        } else if m[b].Used? {
          FirstHere(m, h, k, j);
          return b, j;
        } else {
          FreeHasLen(m, b);
          NotHere(m, h, order, k, j, m[b].len);
          j := j + m[b].len;
        }
      }
    }

    lemma PlaceOf(id: nat) returns (k: nat)
      requires Sorted() && id in cells
      ensures k < |order| && order[k] == id && Ascending(order)
      ensures k > 0 ==> order[k - 1] < id
    {
      k :| 0 <= k < |order| && order[k] == id;
    }

    lemma UsedHasIndex(m: Hdrs, h: nat)
      requires Valid() && Agrees(cells, m) && IsUsed(m, h)
      ensures Id(h) in order
    {
      HeadHasIndex(m, h);
    }

    lemma NoneBefore(m: Hdrs, h: nat, list: seq<nat>, k: nat, j: nat)
      requires Sorted() && list == order && k <= |order|
      requires k > 0 ==> order[k - 1] < Id(h)
      requires j == 0 || (k < |order| && order[k] == Id(h) && j == h % BOTTOM_SZ)
      requires k < |order| && j == 0 ==> Id(h) < order[k] || (Id(h) == order[k] && h % BOTTOM_SZ == 0)
      ensures NoUsedBefore(m, h, list, k, j)
      ensures k < |order| && order[k] > 0 ==> From(h, order[k], j)
    {
      hide F.Linked;
    }

    /** The used block found is the first. */
    lemma FirstHere(m: Hdrs, h: nat, k: nat, j: nat)
      requires Valid() && Tiling(m) && Agrees(cells, m) && k < |order| && order[k] > 0 && j < BOTTOM_SZ
      requires NoUsedBefore(m, h, order, k, j) && IsUsed(m, BlockAt(order[k], j))
      ensures var b := BlockAt(order[k], j); b != 0 && forall g: nat :: h <= g < b ==> !IsUsed(m, g)
    {
      hide Hashed, F.Linked, Agrees, Cell;
      var b := BlockAt(order[k], j);
      BlockAtId(order[k], j);
      forall g: nat | h <= g < b ensures !IsUsed(m, g) {
        if IsUsed(m, g) {
          UsedHasIndex(m, g);
          EarlierId(order, k, g, b);
        }
      }
    }

    /** GC_prev_block: the last block, used or free, at or before `h`, or 0. */
    method PrevBlock(h: nat, m: Hdrs) returns (r: nat)
      requires Valid() && Tiling(m) && Agrees(cells, m)
      ensures r != 0 ==> r in m && r <= h && forall g: nat :: r < g <= h ==> g !in m
      ensures r == 0 ==> forall g: nat :: g <= h ==> g !in m
    {
      hide Hashed, F.Linked, Tiling, Agrees, Cell, Ascending, NoneAfter, UpTo;
      var bi; var j: int; ghost var k: int;
      bi, j, k := StartBackward(h, m);
      while bi != 0
        invariant -1 <= k < |order| && bi == Item(order, k)
        invariant j < BOTTOM_SZ && (bi != 0 ==> UpTo(h, bi, j))
        invariant NoneAfter(m, h, order, k, j)
        decreases k
      {
        SortedFacts(k);
        if k > 0 { SortedFacts(k - 1); }
        r, j := ScanBackward(h, m, bi, j, k);
        if r != 0 { return; }
        PrevIndex(m, h, order, k, j);
        bi, j, k := desc[bi], BOTTOM_SZ - 1, k - 1;
      }
      if k >= 0 { SortedFacts(k); }
      forall g: nat | g <= h ensures g !in m {
        if g in m { HeadHasIndex(m, g); }
        AtStart(m, h, order, k, j, g);
      }
      r := 0;
    }

    /** Where the backward search starts. */
    method StartBackward(h: nat, m: Hdrs) returns (bi: nat, j: int, ghost k: int)
      requires Valid()
      ensures -1 <= k < |order| && bi == Item(order, k) && Ascending(order) && j < BOTTOM_SZ
      ensures bi != 0 ==> UpTo(h, bi, j)
      ensures NoneAfter(m, h, order, k, j)
    {
      hide Hashed, F.Linked, Cell, NoneAfter, UpTo;
      j := h % BOTTOM_SZ;
      bi := GetBi(h);
      k := |order| - 1;
      if bi == 0 {
        SortedFacts(0);
        bi := last;
        while bi != 0 && bi > Id(h)
          invariant -1 <= k < |order| && bi == Item(order, k) && (k + 1 < |order| ==> order[k + 1] > Id(h))
          modifies {}
          decreases k
        {
          SortedFacts(k);
          bi := desc[bi];
          k := k - 1;
        }
        j := BOTTOM_SZ - 1;
      } else {
        k := PlaceOf(Id(h));
      }
      if k >= 0 { SortedFacts(k); }
      NoneBehind(m, h, order, k, j);
    }

    lemma NoneBehind(m: Hdrs, h: nat, list: seq<nat>, k: int, j: int)
      requires Sorted() && list == order && -1 <= k < |order|
      requires k >= 0 ==> (order[k] == Id(h) && j == h % BOTTOM_SZ) || (0 < order[k] < Id(h) && j == BOTTOM_SZ - 1)
      requires (k >= 0 && order[k] == Id(h)) || (k + 1 < |order| ==> order[k + 1] > Id(h))
      ensures NoneAfter(m, h, list, k, j)
      ensures k >= 0 ==> UpTo(h, order[k], j)
    {
      hide F.Linked, Ascending, Cell, Id, Behind;
      SortedPositive(k);
      BehindIds(list, k, Id(h));
      forall g: nat | g <= h && g in m
        ensures !Behind(list, k, Id(g)) && (k >= 0 && Id(g) == list[k] ==> g % BOTTOM_SZ <= j) {
        IdMonotone(g, h);
      }
    }

    lemma SortedPositive(k: int)
      requires Sorted()
      ensures Ascending(order)
    {
    }

    /** The search within one bottom index, jumping back over used extents. */
    method ScanBackward(h: nat, m: Hdrs, bi: nat, j0: int, ghost k: int) returns (r: nat, j: int)
      requires Valid() && Tiling(m) && Agrees(cells, m) && 0 <= k < |order| && bi == order[k] && bi in cells
      requires j0 < BOTTOM_SZ && UpTo(h, bi, j0) && NoneAfter(m, h, order, k, j0)
      ensures r != 0 ==> r in m && r <= h && forall g: nat :: r < g <= h ==> g !in m
      ensures r == 0 ==> UpTo(h, bi, j) && NoneAfter(m, h, order, k, j) && j < 0
    {
      hide Hashed, F.Linked, Tiling, Agrees, Cell, Ascending, NoneAfter;
      r, j := 0, j0;
      while j >= 0
        invariant j < BOTTOM_SZ && UpTo(h, bi, j) && NoneAfter(m, h, order, k, j)
      {
        CellAt(bi, j, m);
        var b := BlockAt(bi, j);
        if cells[bi][j] == Nil {
          NotThere(m, h, order, k, j, 1);
          j := j - 1;
        } else if cells[bi][j] != Head {
          JumpSkips(cells, m, b);
          NotThere(m, h, order, k, j, cells[bi][j].back);
          j := j - cells[bi][j].back;
        } else {
          LastHere(m, h, k, j);
          return b, j;
        }
      }
    }

    /** The block found is the last. */
    lemma LastHere(m: Hdrs, h: nat, k: nat, j: nat)
      requires Valid() && Tiling(m) && Agrees(cells, m) && k < |order| && order[k] > 0 && j < BOTTOM_SZ
      requires NoneAfter(m, h, order, k, j) && BlockAt(order[k], j) in m && UpTo(h, order[k], j)
      ensures var b := BlockAt(order[k], j); b != 0 && b <= h && forall g: nat :: b < g <= h ==> g !in m
    {
      hide Hashed, F.Linked, Agrees, Cell;
      var b := BlockAt(order[k], j);
      BlockAtId(order[k], j);
      forall g: nat | b < g <= h ensures g !in m {
        if g in m {
          HeadHasIndex(m, g);
          LaterMember(order, k, g, b);
        }
      }
    }

    // ----------------------------------------------------------- lookups inside an extent

    /** GC_free_block_ending_at: the free block that ends where block `h` begins, or 0. */
    method FreeBlockEndingAt(h: nat, m: Hdrs) returns (p: nat)
      requires Valid() && Tiling(m) && Agrees(cells, m) && h > 0
      requires forall g :: g in m && g < h ==> End(m, g) <= h
      ensures p != 0 ==> IsFree(m, p) && End(m, p) == h
      ensures p == 0 ==> forall g :: IsFree(m, g) ==> End(m, g) != h
    {
      hide Sorted, Hashed, Agrees, Cell;
      p := h - 1;
      var e := Find(p);
      if e != Nil {
        ghost var g := Owner(cells, m, p);
        while e.Jump?
          invariant e == Cell(cells, p) && e != Nil && p < h
          invariant Owns(m, g, p) && Owns(m, g, h - 1)
          decreases p
        {
          JumpSkips(cells, m, p);
          StaysWithOwner(cells, m, g, p);
          p := p - e.back;
          e := Find(p);
        }
        HeadIff(cells, m, p);
        HeadOwns(m, g, p);
        OwnerEnds(m, p, h);
        if m[p].Free? { return p; }
        return 0;
      }
      NoOwner(cells, m, h - 1);
      p := PrevBlock(h - 1, m);
      if p != 0 && m[p].Free? && p + m[p].len == h { return p; }
      LastBefore(m, p, h);
      return 0;
    }

    /** HDR: the entry for block `b`. */
    method Find(b: nat) returns (e: Entry)
      requires Valid()
      ensures e == Cell(cells, b)
    {
      hide Sorted, Hashed;
      var bi := GetBi(b);
      e := if bi == 0 then Nil else cells[bi][b % BOTTOM_SZ];
    }

    /** GC_base: the start of the object slot that holds address `p`, or 0. */
    method Base(p: nat, m: Hdrs) returns (r: nat)
      requires Valid() && Tiling(m) && Agrees(cells, m)
      requires forall h :: IsUsed(m, h) ==> m[h].sz % WORD_BYTES == 0
      ensures r != 0 ==> exists h: nat :: Slot(m, h, r, p)
      ensures r == 0 ==> forall h: nat, s: nat :: !Slot(m, h, s, p)
    {
      hide Sorted, Hashed, Agrees, Cell, Tiling, Inner, Slot;
      var h: nat, start: nat := p / HBLKSIZE, p;
      var e := Find(h);
      if e == Nil {
        NoSlot(cells, m, p);
        return 0;
      }
      ghost var g := Owner(cells, m, h);
      while e.Jump?
        invariant e == Cell(cells, h) && e != Nil && h <= p / HBLKSIZE
        invariant Owns(m, g, h) && Owns(m, g, p / HBLKSIZE)
        invariant start == if h == p / HBLKSIZE then p else h * HBLKSIZE
        decreases h
      {
        JumpSkips(cells, m, h);
        StaysWithOwner(cells, m, g, h);
        h := h - e.back;
        start := h * HBLKSIZE;
        e := Find(h);
      }
      HeadIff(cells, m, h);
      HeadOwns(m, g, h);
      if m[h].Free? {
        FreeNoSlot(m, h, p);
        return 0;
      }
      var word := start - start % WORD_BYTES;
      var offset, sz := word % HBLKSIZE, m[h].sz;
      UsedSize(m, h);
      ghost var slot := SlotFound(m, h, p, start, word);
      r := word - offset % sz;
      var limit := r + sz;
      if limit > (h + 1) * HBLKSIZE && sz <= HBLKSIZE { return 0; }
      if p >= limit { return 0; }
    }
  }

  const WORD_BYTES := 8

  /** `r` starts the object of the used block `h` that holds address `p`: blocks of small
      objects are divided into slots of that size, a large object fills its blocks. */
  ghost predicate Slot(m: Hdrs, h: nat, r: nat, p: nat) {
    && IsUsed(m, h) && h * HBLKSIZE <= r <= p < r + m[h].sz
    && if m[h].sz <= HBLKSIZE then m[h].sz > 0 && (r - h * HBLKSIZE) % m[h].sz == 0 && r + m[h].sz <= (h + 1) * HBLKSIZE
       else r == h * HBLKSIZE
  }

  lemma UsedSize(m: Hdrs, h: nat)
    requires Tiling(m) && IsUsed(m, h)
    ensures m[h].sz > 0 && h > 0
  {
  }

  /** A slot lies in the extent of its block. */
  lemma SlotOwned(m: Hdrs, h: nat, r: nat, p: nat)
    requires Tiling(m) && Slot(m, h, r, p)
    ensures Owns(m, h, p / HBLKSIZE)
  {
    var sz := m[h].sz;
    assert SizeToBlocks(sz) * HBLKSIZE >= sz;
  }

  lemma SlotsOwned(m: Hdrs, p: nat)
    requires Tiling(m)
    ensures forall h: nat, s: nat :: Slot(m, h, s, p) ==> IsUsed(m, h) && Owns(m, h, p / HBLKSIZE)
  {
    forall h: nat, s: nat | Slot(m, h, s, p) ensures IsUsed(m, h) && Owns(m, h, p / HBLKSIZE) {
      SlotOwned(m, h, s, p);
    }
  }

  lemma OwnerUnique(m: Hdrs, g: nat, h: nat, b: nat)
    requires Tiling(m) && Owns(m, g, b) && Owns(m, h, b)
    ensures g == h
  {
  }

  lemma Owner(cells: Bottoms, m: Hdrs, b: nat) returns (g: nat)
    requires Agrees(cells, m) && Tiling(m) && Cell(cells, b) != Nil
    ensures Owns(m, g, b)
  {
    assert CellOk(m, b, Cell(cells, b));
    if b in m {
      g := b;
    } else {
      g :| Inner(m, g, b);
    }
  }

  lemma NoSlot(cells: Bottoms, m: Hdrs, p: nat)
    requires Agrees(cells, m) && Tiling(m) && Cell(cells, p / HBLKSIZE) == Nil
    ensures forall h: nat, s: nat :: !Slot(m, h, s, p)
  {
    var b: nat := p / HBLKSIZE;
    hide Slot, Cell;
    assert CellOk(m, b, Cell(cells, b));
    SlotsOwned(m, p);
    forall h: nat ensures !(IsUsed(m, h) && Owns(m, h, b)) { assert !Inner(m, h, b); }
  }

  lemma FreeNoSlot(m: Hdrs, g: nat, p: nat)
    requires Tiling(m) && Owns(m, g, p / HBLKSIZE) && m[g].Free?
    ensures forall h: nat, s: nat :: !Slot(m, h, s, p)
  {
    hide Slot;
    SlotsOwned(m, p);
    assert forall h: nat :: Owns(m, h, p / HBLKSIZE) ==> h == g;
  }

  lemma StaysWithOwner(cells: Bottoms, m: Hdrs, g: nat, b: nat)
    requires Tiling(m) && Agrees(cells, m) && Cell(cells, b).Jump? && Owns(m, g, b)
    ensures var n := Cell(cells, b).back; n <= b && Owns(m, g, b - n) && Cell(cells, b - n) != Nil
  {
    JumpSkips(cells, m, b);
    LandsOnBlock(cells, m, b);
    var n := Cell(cells, b).back;
    var h: nat :| Inner(m, h, b) && (b - n == h || Inner(m, h, b - n));
    OwnerUnique(m, g, h, b);
  }

  lemma HeadIff(cells: Bottoms, m: Hdrs, b: nat)
    requires Agrees(cells, m)
    ensures Cell(cells, b) == Head <==> b in m
  {
    assert CellOk(m, b, Cell(cells, b));
    if b !in m && Inside(m, b) { var h: nat :| Inner(m, h, b); }
  }

  lemma HeadOwns(m: Hdrs, g: nat, h: nat)
    requires Tiling(m) && Owns(m, g, h) && h in m
    ensures g == h
  {
  }

  /** The remainder computed for the word finds the slot, and there is no other. */
  lemma SlotFound(m: Hdrs, h: nat, p: nat, start: nat, word: nat) returns (r: nat)
    requires Tiling(m) && IsUsed(m, h) && Owns(m, h, p / HBLKSIZE) && m[h].sz > 0 && m[h].sz % WORD_BYTES == 0
    requires start == (if h == p / HBLKSIZE then p else h * HBLKSIZE) && word == start - start % WORD_BYTES
    ensures r == word - word % HBLKSIZE % m[h].sz && r > 0
    ensures Slot(m, h, r, p) <==> !(r + m[h].sz > (h + 1) * HBLKSIZE && m[h].sz <= HBLKSIZE) && p < r + m[h].sz
    ensures forall g: nat, s: nat :: Slot(m, g, s, p) ==> g == h && s == r
  {
    hide Tiling, Owns, Slot, WordOf, SizeToBlocks;
    BlockStart(m, h, p);
    WordInBlock(m, h, p, start, word);
    if m[h].sz <= HBLKSIZE { OneBlock(m, h, p); }
    r := SlotAt(m, h, p, word);
    OnlySlot(m, h, p, word, r);
  }

  lemma OnlySlot(m: Hdrs, h: nat, p: nat, word: nat, r: nat)
    requires Tiling(m) && IsUsed(m, h) && Owns(m, h, p / HBLKSIZE) && m[h].sz > 0 && m[h].sz % WORD_BYTES == 0
    requires WordOf(m, h, p, word) && (m[h].sz <= HBLKSIZE ==> h == p / HBLKSIZE)
    requires r == word - word % HBLKSIZE % m[h].sz
    ensures forall g: nat, s: nat :: Slot(m, g, s, p) ==> g == h && s == r
  {
    hide Tiling, Owns, Slot, WordOf, SizeToBlocks;
    SlotsOwned(m, p);
    forall g: nat, s: nat | Slot(m, g, s, p) ensures g == h && s == r {
      OwnerUnique(m, g, h, p / HBLKSIZE);
      SlotUnique(m, h, p, word, s);
    }
  }

  /** The word `word`, in the block of `p`, leads to the slot of `p`. */
  predicate WordOf(m: Hdrs, h: nat, p: nat, word: nat) {
    && word == h * HBLKSIZE + word % HBLKSIZE && word <= p
    && (h == p / HBLKSIZE ==> word % HBLKSIZE == (p - h * HBLKSIZE) - (p - h * HBLKSIZE) % WORD_BYTES)
    && (h != p / HBLKSIZE ==> word % HBLKSIZE == 0)
  }

  lemma SlotAt(m: Hdrs, h: nat, p: nat, word: nat) returns (r: nat)
    requires IsUsed(m, h) && m[h].sz > 0 && m[h].sz % WORD_BYTES == 0 && WordOf(m, h, p, word)
    ensures var sz := m[h].sz;
      && r == word - word % HBLKSIZE % sz && r >= h * HBLKSIZE
      && (Slot(m, h, r, p) <==> !(r + sz > (h + 1) * HBLKSIZE && sz <= HBLKSIZE) && p < r + sz)
  {
    var sz, offset := m[h].sz, word % HBLKSIZE;
    ModFacts(offset, sz);
    var t := offset % sz;
    r := word - t;
    if sz <= HBLKSIZE {
      SlotStart(offset, sz);
      assert r - h * HBLKSIZE == offset - t;
    }
  }

  lemma SlotUnique(m: Hdrs, h: nat, p: nat, word: nat, s: nat)
    requires IsUsed(m, h) && m[h].sz > 0 && m[h].sz % WORD_BYTES == 0 && WordOf(m, h, p, word) && Slot(m, h, s, p)
    requires m[h].sz <= HBLKSIZE ==> h == p / HBLKSIZE
    ensures s == word - word % HBLKSIZE % m[h].sz
  {
    var sz, offset := m[h].sz, word % HBLKSIZE;
    ModFacts(offset, sz);
    if sz <= HBLKSIZE { SameSlot(offset, p - h * HBLKSIZE, sz, s - h * HBLKSIZE); }
  }

  lemma BlockStart(m: Hdrs, h: nat, p: nat)
    requires Tiling(m) && Owns(m, h, p / HBLKSIZE)
    ensures 0 < h * HBLKSIZE <= p && h <= p / HBLKSIZE
  {
  }

  lemma ModFacts(x: nat, sz: nat)
    requires sz > 0
    ensures x % sz < sz && x % sz <= x && (x < sz ==> x % sz == x)
  {
  }

  lemma WordInBlock(m: Hdrs, h: nat, p: nat, start: nat, word: nat)
    requires h <= p / HBLKSIZE
    requires start == (if h == p / HBLKSIZE then p else h * HBLKSIZE) && word == start - start % WORD_BYTES
    ensures WordOf(m, h, p, word)
  {
    WordAligned(h, start - h * HBLKSIZE);
  }

  /** Blocks are whole numbers of words, so rounding an address down rounds its displacement down. */
  lemma WordAligned(h: nat, d: nat)
    ensures (h * HBLKSIZE + d) % WORD_BYTES == d % WORD_BYTES
  {
  }

  lemma OneBlock(m: Hdrs, h: nat, p: nat)
    requires IsUsed(m, h) && 0 < m[h].sz <= HBLKSIZE && Owns(m, h, p / HBLKSIZE)
    ensures p / HBLKSIZE == h
  {
  }

  lemma SlotStart(offset: nat, sz: nat)
    requires sz > 0
    ensures (offset - offset % sz) % sz == 0
  {
    var q := offset / sz;
    assert offset - offset % sz == sz * q;
    Pages.MultipleMod(sz, q);
  }

  /** A slot that holds displacement `d` starts where the word-aligned displacement says. */
  lemma SameSlot(offset: nat, d: nat, sz: nat, s: nat)
    requires sz > 0 && sz % WORD_BYTES == 0 && offset == d - d % WORD_BYTES
    requires s % sz == 0 && s <= d < s + sz
    ensures s == offset - offset % sz
  {
    var k, w := s / sz, sz / WORD_BYTES;
    assert s == sz * k;
    assert s == WORD_BYTES * (w * k);
    assert s <= offset;
    var q := offset / sz;
    assert offset == sz * q + offset % sz;
    if q > k { Pages.MulMonotone(sz, k + 1, q); }
    if q < k { Pages.MulMonotone(sz, q + 1, k); }
  }

  lemma LandsOnBlock(cells: Bottoms, m: Hdrs, b: nat)
    requires Tiling(m) && Agrees(cells, m) && Cell(cells, b).Jump?
    ensures var n := Cell(cells, b).back; n <= b && Cell(cells, b - n) != Nil
  {
    JumpSkips(cells, m, b);
    var n := Cell(cells, b).back;
    var h: nat :| Inner(m, h, b) && (b - n == h || Inner(m, h, b - n));
    assert CellOk(m, b - n, Cell(cells, b - n));
  }

  /** Entry `j` of bottom index `bi` is not behind block `h`. */
  predicate UpTo(h: nat, bi: nat, j: int) {
    bi > 0 && bi <= Id(h) && (bi == Id(h) ==> j <= h % BOTTOM_SZ)
  }

  /** `id` stands behind position `k`. */
  ghost predicate Behind(order: seq<nat>, k: int, id: nat) {
    exists i :: 0 <= i < |order| && k < i && order[i] == id
  }

  /** No block up to `h` lies behind entry `j` of the bottom index at position `k`. */
  ghost predicate NoneAfter(m: Hdrs, h: nat, order: seq<nat>, k: int, j: int)
    requires -1 <= k < |order|
  {
    forall g: nat :: g <= h && g in m ==>
      !Behind(order, k, Id(g)) && (k >= 0 && Id(g) == order[k] ==> g % BOTTOM_SZ <= j)
  }

  lemma IdMonotone(g: nat, h: nat)
    requires g <= h
    ensures Id(g) <= Id(h) && (Id(g) == Id(h) ==> g % BOTTOM_SZ <= h % BOTTOM_SZ) && g % BOTTOM_SZ < BOTTOM_SZ
  {
  }

  lemma BehindIds(list: seq<nat>, k: int, id: nat)
    requires Ascending(list) && -1 <= k < |list|
    requires (k >= 0 && list[k] == id) || (k + 1 < |list| ==> list[k + 1] > id)
    ensures forall x: nat :: Behind(list, k, x) ==> x > id
  {
  }

  lemma LaterMember(list: seq<nat>, k: nat, g: nat, b: nat)
    requires Ascending(list) && k < |list| && list[k] == Id(b) && b < g && Id(g) in list
    ensures Behind(list, k, Id(g)) || (Id(g) == list[k] && b % BOTTOM_SZ < g % BOTTOM_SZ)
  {
    var i :| 0 <= i < |list| && list[i] == Id(g);
  }

  lemma NotThere(m: Hdrs, h: nat, order: seq<nat>, k: int, j: nat, n: nat)
    requires 0 <= k < |order| && NoneAfter(m, h, order, k, j) && order[k] > 0 && j < BOTTOM_SZ
    requires forall g: nat :: BlockAt(order[k], j) - n < g <= BlockAt(order[k], j) ==> g !in m
    ensures NoneAfter(m, h, order, k, j - n)
  {
    forall g: nat | g <= h && g in m && Id(g) == order[k] ensures g % BOTTOM_SZ <= j - n {
      assert g == BlockAt(order[k], g % BOTTOM_SZ);
    }
  }

  lemma PrevIndex(m: Hdrs, h: nat, order: seq<nat>, k: int, j: int)
    requires 0 <= k < |order| && NoneAfter(m, h, order, k, j) && j < 0
    requires Ascending(order) && (k > 0 ==> order[k - 1] > 0) && UpTo(h, order[k], j)
    ensures NoneAfter(m, h, order, k - 1, BOTTOM_SZ - 1)
    ensures k > 0 ==> UpTo(h, order[k - 1], BOTTOM_SZ - 1)
  {
    assert forall x: nat :: Behind(order, k - 1, x) ==> Behind(order, k, x) || x == order[k];
  }

  lemma AtStart(m: Hdrs, h: nat, order: seq<nat>, k: int, j: int, g: nat)
    requires k == -1 && NoneAfter(m, h, order, k, j) && g <= h && (g in m ==> Id(g) in order)
    ensures g !in m
  {
    assert Id(g) in order ==> Behind(order, k, Id(g));
  }

  /** The extent around the block before `h` ends at `h`, and no other does. */
  lemma OwnerEnds(m: Hdrs, p: nat, h: nat)
    requires Tiling(m) && h > 0 && Owns(m, p, h - 1)
    requires forall g :: g in m && g < h ==> End(m, g) <= h
    ensures End(m, p) == h && forall g :: g in m && End(m, g) == h ==> g == p
  {
  }

  lemma NoOwner(cells: Bottoms, m: Hdrs, b: nat)
    requires Agrees(cells, m) && Cell(cells, b) == Nil
    ensures forall g: nat :: IsUsed(m, g) ==> !Owns(m, g, b)
  {
    assert CellOk(m, b, Cell(cells, b));
    assert forall g: nat :: IsUsed(m, g) && Owns(m, g, b) ==> g == b || Inner(m, g, b);
  }

  /** Only the last block before `h` can end at `h`. */
  lemma LastBefore(m: Hdrs, p: nat, h: nat)
    requires Tiling(m) && h > 0
    requires p != 0 ==> p in m && p <= h - 1 && forall g: nat :: p < g <= h - 1 ==> g !in m
    requires p == 0 ==> forall g: nat :: g <= h - 1 ==> g !in m
    requires p != 0 && m[p].Free? ==> End(m, p) != h
    ensures forall g :: IsFree(m, g) ==> End(m, g) != h
  {
    assert forall g :: g in m && End(m, g) == h ==> g <= h - 1;
  }

  lemma EarlierId(list: seq<nat>, k: nat, g: nat, b: nat)
    requires Ascending(list) && k < |list| && list[k] == Id(b) && g < b && Id(g) in list
    ensures Id(g) in list[..k] || (Id(g) == list[k] && g % BOTTOM_SZ < b % BOTTOM_SZ)
  {
    var i :| 0 <= i < |list| && list[i] == Id(g);
    if i < k { assert list[..k][i] == Id(g); }
  }

  lemma FreeHasLen(m: Hdrs, b: nat)
    requires Tiling(m) && b in m && m[b].Free?
    ensures m[b].len > 0 && forall g :: b < g < b + m[b].len ==> g !in m
  {
  }

  lemma NotHere(m: Hdrs, h: nat, order: seq<nat>, k: nat, j: nat, n: nat)
    requires k < |order| && NoUsedBefore(m, h, order, k, j) && order[k] > 0 && n > 0
    requires forall g :: BlockAt(order[k], j) <= g < BlockAt(order[k], j) + n ==> !IsUsed(m, g)
    ensures NoUsedBefore(m, h, order, k, j + n)
  {
    forall g: nat | h <= g && IsUsed(m, g) && Id(g) == order[k] ensures j + n <= g % BOTTOM_SZ {
      assert g == BlockAt(order[k], g % BOTTOM_SZ);
    }
  }

  lemma NextIndex(m: Hdrs, h: nat, order: seq<nat>, k: nat, j: nat)
    requires k < |order| && NoUsedBefore(m, h, order, k, j) && j >= BOTTOM_SZ
    requires Ascending(order) && order[k] > 0 && From(h, order[k], j)
    ensures NoUsedBefore(m, h, order, k + 1, 0)
    ensures k + 1 < |order| ==> From(h, order[k + 1], 0)
  {
    assert order[..k + 1] == order[..k] + [order[k]];
  }

  lemma AtEnd(m: Hdrs, h: nat, order: seq<nat>, k: nat, j: nat, g: nat)
    requires k == |order| && NoUsedBefore(m, h, order, k, j) && h <= g && (IsUsed(m, g) ==> Id(g) in order)
    ensures !IsUsed(m, g)
  {
    assert order[..k] == order;
  }

  /** Entry `j` of bottom index `bi` is not before block `h`. */
  predicate From(h: nat, bi: nat, j: nat) {
    bi > 0 && Id(h) <= bi && h <= BlockAt(bi, j)
  }

  /** No used block from `h` on lies before entry `j` of the bottom index at position `k`. */
  ghost predicate NoUsedBefore(m: Hdrs, h: nat, order: seq<nat>, k: nat, j: nat)
    requires k <= |order|
  {
    forall g: nat :: h <= g && IsUsed(m, g) ==>
      Id(g) !in order[..k] && (k < |order| && Id(g) == order[k] ==> j <= g % BOTTOM_SZ)
  }

  predicate IsUsed(m: Hdrs, h: nat) {
    h in m && m[h].Used?
  }

  /** A forwarding count leads back inside the extent, over blocks that start nothing. */
  lemma JumpSkips(cells: Bottoms, m: Hdrs, b: nat)
    requires Tiling(m) && Agrees(cells, m) && Cell(cells, b).Jump?
    ensures var n := Cell(cells, b).back;
      && 0 < n <= b && n <= MAX_JUMP
      && (forall g :: b - n < g <= b ==> g !in m)
      && exists h: nat :: Inner(m, h, b) && (b - n == h || Inner(m, h, b - n))
  {
    assert CellOk(m, b, Cell(cells, b));
    var h: nat :| Inner(m, h, b);
  }

  lemma SkippedCells(p: nat, j: nat, n: nat, m: Hdrs)
    requires p > 0 && j < BOTTOM_SZ && 0 < n
    requires forall g :: BlockAt(p, j) - n < g <= BlockAt(p, j) ==> g !in m
    ensures forall h: nat :: Id(h) == p && j - n < h % BOTTOM_SZ <= j ==> h !in m
  {
    forall h: nat | Id(h) == p && j - n < h % BOTTOM_SZ <= j ensures h !in m {
      assert h == BlockAt(p, h % BOTTOM_SZ);
    }
  }

  lemma AscendingDistinct(list: seq<nat>, k: nat)
    requires Ascending(list) && k < |list|
    ensures list[k] !in list[..k]
  {
  }

  lemma SameCellSameBlock(b: nat, c: nat)
    requires Id(b) == Id(c) && b != c
    ensures b % BOTTOM_SZ != c % BOTTOM_SZ
  {
  }

  /** The blocks `BOTTOM_SZ` apart, and the last one, meet every bottom index of the extent. */
  lemma ReachedId(h: nat, n: nat, k: nat, c: nat)
    requires n > 0 && h <= c < h + n <= h + BOTTOM_SZ * k
    ensures Id(c) == Id(h + n - 1) || exists i: nat :: i < k && Id(c) == Id(h + BOTTOM_SZ * i)
  {
    var i := (c - h) / BOTTOM_SZ;
    assert h + BOTTOM_SZ * i <= c < h + BOTTOM_SZ * i + BOTTOM_SZ;
    if Id(c) != Id(h + BOTTOM_SZ * i) && i + 1 < k {
      assert Id(c) == Id(h + BOTTOM_SZ * (i + 1));
    }
  }
}
