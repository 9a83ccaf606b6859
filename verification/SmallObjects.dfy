/** Small objects: building the free list of a fresh block, and handing objects out and
    taking them back. */
module SmallObjects {
  import opened HashChains
  import opened Lists
  import SizeMap

  const BLOCK_WORDS := 512
  const WORDS_PER_GRANULE := 2

  // ------------------------------------------------------- building a block's free list

  /** An object starts at word `k` of its block. */
  predicate Starts(k: nat, sz: nat)
    requires sz > 0
  {
    k % sz == 0
  }

  /** The body of a block at word address `h` after its objects of `sz` words were linked,
      each to the one before it and the first to `ofl`. */
  function Built(body: seq<nat>, h: nat, sz: nat, clear: bool, ofl: nat): (r: seq<nat>)
    requires 0 < sz <= BLOCK_WORDS
    ensures |r| == |body|
  {
    seq(|body|, k requires 0 <= k < |body| =>
      if Starts(k, sz) && k + sz <= BLOCK_WORDS then (if k < sz then ofl else h + (k - sz))
      else if clear then 0 else body[k])
  }

  /** The word index of the last object. */
  function LastObject(sz: nat): (k: nat)
    requires 0 < sz <= BLOCK_WORDS
  {
    var n := BLOCK_WORDS / sz;
    if n == 0 then 0 else (n - 1) * sz
  }

  lemma Multiples(k: nat, sz: nat)
    requires sz > 0 && Starts(k, sz)
    ensures Starts(k + sz, sz) && forall j: nat :: k < j < k + sz ==> !Starts(j, sz)
  {
    var q := k / sz;
    assert k == sz * q;
    forall j: nat | k <= j <= k + sz ensures Starts(j, sz) <==> j == k || j == k + sz {
      NearMultiple(sz, q, j - k);
    }
  }

  lemma NearMultiple(sz: nat, q: nat, d: nat)
    requires sz > 0 && d <= sz
    ensures (sz * q + d) % sz == if d == sz then 0 else d
  {
    var x := sz * q + d;
    var p, r := x / sz, x % sz;
    assert x == sz * p + r;
    if p < q { SizeMap.Products(sz, p + 1, q); }
    if p > q + 1 { SizeMap.Products(sz, q + 2, p); }
    if p == q + 1 { assert sz * p == sz * q + sz; }
  }

  lemma QuotientIs(a: nat, sz: nat, m: nat)
    requires sz > 0 && sz * m <= a < sz * (m + 1)
    ensures a / sz == m
  {
    var n := a / sz;
    SizeMap.QuotientBounds(a, sz);
    if n < m { SizeMap.Products(sz, n + 1, m); }
    if n > m { SizeMap.Products(sz, m + 1, n); }
  }

  /** The last multiple that still has room is the last object. */
  lemma LastIs(k: nat, sz: nat)
    requires 0 < sz <= BLOCK_WORDS && Starts(k, sz) && k + sz <= BLOCK_WORDS < k + sz + sz
    ensures k == LastObject(sz)
  {
    var q := k / sz;
    assert k == sz * q;
    Distribute(sz, q);
    QuotientIs(BLOCK_WORDS, sz, q + 1);
  }

  lemma Distribute(sz: nat, q: nat)
    ensures sz * (q + 1) == sz * q + sz && sz * (q + 2) == sz * q + sz + sz && (q + 1 - 1) * sz == sz * q
  {
  }

  lemma FirstStarts(sz: nat)
    requires sz > 0
    ensures Starts(0, sz)
  {
  }

  /** GC_build_fl for sizes without a specialised version. */
  method BuildAny(body: array<nat>, h: nat, sz: nat, clear: bool, ofl: nat) returns (p: nat)
    requires body.Length == BLOCK_WORDS && 0 < sz <= BLOCK_WORDS
    modifies body
    ensures body[..] == Built(old(body[..]), h, sz, clear, ofl) && p == h + LastObject(sz)
  {
    hide Starts, LastObject;
    ghost var was := body[..];
    if clear {
      var i := 0;
      while i < BLOCK_WORDS
        invariant 0 <= i <= BLOCK_WORDS
        invariant forall k :: 0 <= k < BLOCK_WORDS ==> body[k] == if k < i then 0 else was[k]
      {
        body[i] := 0;
        i := i + 1;
      }
    }
    var k, prev := sz, 0;
    var last := BLOCK_WORDS - sz;
    FirstStarts(sz);
    Multiples(0, sz);
    while k <= last
      invariant 0 < k && Starts(k, sz) && Starts(prev, sz) && k == prev + sz && prev <= last
      invariant forall j :: 0 <= j < BLOCK_WORDS ==>
        body[j] == if 0 < j < k && Starts(j, sz) then h + (j - sz) else if clear then 0 else was[j]
      invariant forall j: nat :: 0 < j < sz ==> !Starts(j, sz)
    {
      Multiples(k, sz);
      body[k] := h + prev;
      prev := k;
      k := k + sz;
    }
    LastIs(prev, sz);
    Multiples(prev, sz);
    body[0] := ofl;
    assert body[..] == Built(was, h, sz, clear, ofl);
    return h + (k - sz);
  }

  /** GC_build_fl_clear2 and GC_build_fl2: two objects a turn. */
  method Build2(body: array<nat>, h: nat, clear: bool, ofl: nat) returns (p: nat)
    requires body.Length == BLOCK_WORDS
    modifies body
    ensures body[..] == Built(old(body[..]), h, 2, clear, ofl) && p == h + LastObject(2)
  {
    ghost var was := body[..];
    body[0] := ofl;
    body[2] := h;
    if clear {
      body[1] := 0;
      body[3] := 0;
    }
    var k := 4;
    while k < BLOCK_WORDS
      invariant 4 <= k <= BLOCK_WORDS && k % 4 == 0
      invariant forall j :: 0 <= j < BLOCK_WORDS ==>
        body[j] == if j < k then Built(was, h, 2, clear, ofl)[j] else was[j]
    {
      body[k] := h + (k - 2);
      body[k + 2] := h + k;
      if clear {
        body[k + 1] := 0;
        body[k + 3] := 0;
      }
      k := k + 4;
    }
    return h + (k - 2);
  }

  /** GC_build_fl_clear4: one object a turn. */
  method BuildClear4(body: array<nat>, h: nat, ofl: nat) returns (p: nat)
    requires body.Length == BLOCK_WORDS
    modifies body
    ensures body[..] == Built(old(body[..]), h, 4, true, ofl) && p == h + LastObject(4)
  {
    ghost var was := body[..];
    body[0], body[1], body[2], body[3] := ofl, 0, 0, 0;
    var k := 4;
    while k < BLOCK_WORDS
      invariant 4 <= k <= BLOCK_WORDS && k % 4 == 0
      invariant forall j :: 0 <= j < BLOCK_WORDS ==> body[j] == if j < k then Built(was, h, 4, true, ofl)[j] else was[j]
    {
      body[k] := h + (k - 4);
      body[k + 1], body[k + 2], body[k + 3] := 0, 0, 0;
      k := k + 4;
    }
    return h + (k - 4);
  }

  /** GC_build_fl4: two objects a turn. */
  method Build4(body: array<nat>, h: nat, ofl: nat) returns (p: nat)
    requires body.Length == BLOCK_WORDS
    modifies body
    ensures body[..] == Built(old(body[..]), h, 4, false, ofl) && p == h + LastObject(4)
  {
    ghost var was := body[..];
    body[0] := ofl;
    body[4] := h;
    var k := 8;
    while k < BLOCK_WORDS
      invariant 8 <= k <= BLOCK_WORDS && k % 8 == 0
      invariant forall j :: 0 <= j < BLOCK_WORDS ==>
        body[j] == if j < k then Built(was, h, 4, false, ofl)[j] else was[j]
    {
      body[k] := h + (k - 4);
      body[k + 4] := h + k;
      k := k + 8;
    }
    return h + (k - 4);
  }

  /** GC_build_fl: whichever version runs, the result is the same. */
  method Build(body: array<nat>, h: nat, sz: nat, clear: bool, ofl: nat) returns (p: nat)
    requires body.Length == BLOCK_WORDS && 0 < sz <= BLOCK_WORDS
    modifies body
    ensures body[..] == Built(old(body[..]), h, sz, clear, ofl) && p == h + LastObject(sz)
  {
    if sz == 2 {
      p := Build2(body, h, clear, ofl);
    } else if sz == 4 {
      if clear { p := BuildClear4(body, h, ofl); } else { p := Build4(body, h, ofl); }
    } else {
      p := BuildAny(body, h, sz, clear, ofl);
    }
  }

  // ------------------------------------------------------- handing objects out

  type Blocks = map<nat, nat>

  /** An object of `g` granules stands at word address `x`: its block is divided into
      objects of that size and holds it whole. */
  predicate Slot(blocks: Blocks, x: nat, g: nat) {
    && g > 0 && x / BLOCK_WORDS in blocks && blocks[x / BLOCK_WORDS] == g
    && Starts(x % BLOCK_WORDS, g * WORDS_PER_GRANULE) && x % BLOCK_WORDS + g * WORDS_PER_GRANULE <= BLOCK_WORDS
  }

  /** Two different objects have no word in common. */
  lemma SlotsDisjoint(blocks: Blocks, x: nat, g: nat, y: nat, e: nat, a: nat)
    requires Slot(blocks, x, g) && Slot(blocks, y, e) && x < y
    requires x <= a < x + g * WORDS_PER_GRANULE
    ensures !(y <= a < y + e * WORDS_PER_GRANULE)
  {
    if x / BLOCK_WORDS == y / BLOCK_WORDS {
      Multiples(x % BLOCK_WORDS, g * WORDS_PER_GRANULE);
      var d := y % BLOCK_WORDS;
      assert x % BLOCK_WORDS < d && Starts(d, g * WORDS_PER_GRANULE);
    }
  }

  /** The objects of a block, the last one first, down from word `k`. */
  ghost function Down(base: nat, sz: nat, k: nat): seq<nat>
    requires sz > 0
  {
    if k < sz then [base + k] else [base + k] + Down(base, sz, k - sz)
  }

  lemma StartsBelow(k: nat, sz: nat)
    requires sz > 0 && Starts(k, sz)
    ensures k < sz ==> k == 0
    ensures k >= sz ==> Starts(k - sz, sz)
  {
    var q := k / sz;
    assert k == sz * q;
    if k >= sz {
      assert q > 0;
      Distribute(sz, q - 1);
      NearMultiple(sz, q - 1, 0);
      assert k - sz == sz * (q - 1) + 0;
    }
  }

  lemma {:induction false} DownMembers(base: nat, sz: nat, k: nat)
    requires sz > 0 && Starts(k, sz)
    ensures forall x: nat :: x in Down(base, sz, k) <==> base <= x <= base + k && Starts(x - base, sz)
    decreases k
  {
    StartsBelow(k, sz);
    FirstStarts(sz);
    if k >= sz {
      DownMembers(base, sz, k - sz);
      Multiples(k - sz, sz);
    }
  }

  /** All objects of the block `h`, the last one first. */
  ghost function Objects(h: nat, g: nat): seq<nat>
    requires 0 < g <= SizeMap.MAXOBJGRANULES
  {
    Down(h * BLOCK_WORDS, g * WORDS_PER_GRANULE, LastObject(g * WORDS_PER_GRANULE))
  }

  /** A chain of which the head links to the rest. */
  lemma ChainCons(next: map<nat, nat>, list: seq<nat>, n: nat)
    requires n != 0 && n !in list && n in next && Chain(next[n], next, list)
    ensures Chain(n, next, [n] + list)
  {
    var list' := [n] + list;
    forall k | 0 <= k < |list'| ensures HashChains.At(next, list', k) {
      if k > 0 { assert HashChains.At(next, list, k - 1) && list'[k] == list[k - 1]; }
    }
  }

  /** The links of a fresh block lead from its last object down to the old list. */
  lemma {:induction false} ChainDown(next: map<nat, nat>, base: nat, sz: nat, k: nat, list: seq<nat>)
    requires sz > 0 && base > 0 && Starts(k, sz) && k + sz <= BLOCK_WORDS
    requires forall j: nat :: Starts(j, sz) && j <= k ==>
      base + j in next && next[base + j] == if j < sz then Item(list, 0) else base + (j - sz)
    requires Chain(Item(list, 0), next, list) && forall x :: x in list ==> x < base || x >= base + BLOCK_WORDS
    ensures Chain(base + k, next, Down(base, sz, k) + list)
    decreases k
  {
    hide Chain, Starts;
    StartsBelow(k, sz);
    DownMembers(base, sz, k);
    if k < sz {
      ChainCons(next, list, base + k);
    } else {
      ChainDown(next, base, sz, k - sz, list);
      DownMembers(base, sz, k - sz);
      var rest := Down(base, sz, k - sz) + list;
      ChainCons(next, rest, base + k);
      assert [base + k] + rest == Down(base, sz, k) + list;
    }
  }

  class SmallHeap {
    const map0: SizeMap.Map
    const heads: array<nat>
    var next: map<nat, nat>
    var blocks: Blocks
    ghost var lists: seq<seq<nat>>
    ghost var given: set<nat>

    /** Every object is either handed out or on the free list for its size, once. */
    ghost predicate Valid()
      reads this, heads
    {
      && heads.Length == |lists| == SizeMap.MAXOBJGRANULES + 1
      && Consistent(heads[..], next, blocks, lists, given)
    }

    constructor (extra: nat)
      requires extra <= 1
      ensures Valid() && map0.Valid() && map0.extra == extra && blocks == map[] && given == {}
      ensures forall i :: 0 <= i < |lists| ==> lists[i] == []
      ensures fresh(heads) && fresh(map0) && fresh(map0.sizes)
    {
      map0 := new SizeMap.Map(extra);
      heads := new nat[SizeMap.MAXOBJGRANULES + 1](_ => 0);
      next, blocks := map[], map[];
      lists, given := seq(SizeMap.MAXOBJGRANULES + 1, _ => []), {};
    }

    /** GC_new_hblk on the fresh block `h`: its objects join the list for their size. */
    method NewBlock(h: nat, g: nat, clear: bool)
      requires Valid() && 0 < g <= SizeMap.MAXOBJGRANULES && h > 0 && h !in blocks
      modifies this`next, this`blocks, this`lists, heads
      ensures Valid() && blocks == old(blocks)[h := g]
      ensures heads[g] != 0 && forall i :: 0 <= i < heads.Length && i != g ==> heads[i] == old(heads[i])
      ensures lists == old(lists)[g := Objects(h, g) + old(lists)[g]]
    {
      hide Chain, Consistent, Built, LastObject, Starts;
      var base, sz := h * BLOCK_WORDS, g * WORDS_PER_GRANULE;
      var body := new nat[BLOCK_WORDS](_ => 0);
      ghost var heads0, was := heads[..], body[..];
      var p := Build(body, base, sz, clear, heads[g]);
      ghost var body0 := body[..];
      BlockAdded(heads0, next, blocks, lists, given, h, g, clear, was, body0);
      next := WithBlock(next, base, body[..]);
      blocks := blocks[h := g];
      heads[g] := p;
      assert heads[..] == heads0[g := p];
      lists := lists[g := Down(base, sz, LastObject(sz)) + lists[g]];
    }

    /** GC_generic_malloc_inner for small requests; `h` is the block that the block allocator
        hands out if one is needed, 0 if it has none. */
    method Malloc(lb: nat, h: nat, clear: bool) returns (op: nat)
      requires Valid() && map0.Valid() && lb <= SizeMap.MAXOBJBYTES - map0.extra && h !in blocks
      modifies this`next, this`blocks, this`lists, this`given, heads, map0.sizes
      ensures Valid() && map0.Valid()
      ensures op != 0 ==> op !in old(given) && given == old(given) + {op}
      ensures op != 0 ==> exists g :: Slot(blocks, op, g) && SizeMap.LargeEnough(lb, g, map0.extra)
      ensures op == 0 ==> given == old(given) && h == 0
      ensures op != 0 ==> op in next && next[op] == 0
      ensures old(map0.sizes[lb]) != 0 ==> map0.sizes[..] == old(map0.sizes[..])
      ensures
        var g := map0.sizes[lb];
        && 0 < g <= SizeMap.MAXOBJGRANULES && |old(lists)| == SizeMap.MAXOBJGRANULES + 1
        && if old(lists)[g] != [] then
             op == old(lists)[g][0] && lists == old(lists)[g := old(lists)[g][1..]] && blocks == old(blocks)
           else if h == 0 then op == 0 && lists == old(lists) && blocks == old(blocks)
           else [op] + lists[g] == Objects(h, g) && lists == old(lists)[g := lists[g]] && blocks == old(blocks)[h := g]
    {
      hide Chain, Consistent, Slot, Objects, Built;
      var lg := map0.sizes[lb];
      if lg == 0 {
        ghost var low, g := map0.Extend(lb);
        lg := map0.sizes[lb];
      }
      HeadOf(lg);
      op := heads[lg];
      if op == 0 {
        if h == 0 { return 0; }
        NewBlock(h, lg, clear);
        HeadOf(lg);
      }
      op := Pop(lg);
    }

    /** An empty list has no head. */
    lemma HeadOf(g: nat)
      requires Valid() && g < |lists|
      ensures g < heads.Length && (heads[g] == 0 <==> lists[g] == [])
    {
      assert Chain(heads[..][g], next, lists[g]);
      if lists[g] != [] { assert HashChains.At(next, lists[g], 0); }
    }

    /** The first object of a list is taken, and its link cleared. */
    method Pop(g: nat) returns (op: nat)
      requires Valid() && 0 < g <= SizeMap.MAXOBJGRANULES && heads[g] != 0
      modifies this`next, this`lists, this`given, heads
      ensures Valid() && op != 0 && op !in old(given) && given == old(given) + {op} && Slot(blocks, op, g)
      ensures old(lists)[g] == [op] + lists[g] && lists == old(lists)[g := lists[g]]
      ensures op in next && next[op] == 0
    {
      hide Chain, Consistent, Slot;
      op := heads[g];
      Popped(heads[..], next, blocks, lists, given, g);
      ghost var heads0 := heads[..];
      heads[g] := next[op];
      next := next[op := 0];
      assert heads[..] == heads0[g := heads[g]];
      lists := lists[g := lists[g][1..]];
      given := given + {op};
    }

    /** GC_free of a small object that was handed out. */
    method Free(p: nat)
      requires Valid() && p in given
      modifies this`next, this`lists, this`given, heads
      ensures Valid() && given == old(given) - {p}
      ensures
        var g := blocks[p / BLOCK_WORDS];
        g < |old(lists)| && lists == old(lists)[g := [p] + old(lists)[g]]
    {
      hide Chain, Consistent, Slot;
      Pushed(heads[..], next, blocks, lists, given, p);
      var g := blocks[p / BLOCK_WORDS];
      ghost var heads0 := heads[..];
      next := next[p := heads[g]];
      heads[g] := p;
      assert heads[..] == heads0[g := p];
      lists := lists[g := [p] + lists[g]];
      given := given - {p};
    }

    /** Objects in use are disjoint and on no free list. */
    lemma InUse(x: nat, y: nat)
      requires Valid() && x in given && y in given && x < y
      ensures Slot(blocks, x, blocks[x / BLOCK_WORDS]) && Slot(blocks, y, blocks[y / BLOCK_WORDS])
      ensures x + blocks[x / BLOCK_WORDS] * WORDS_PER_GRANULE <= y
      ensures forall i :: 0 <= i < |lists| ==> x !in lists[i]
    {
      hide Chain;
      var g, e := blocks[x / BLOCK_WORDS], blocks[y / BLOCK_WORDS];
      if y < x + g * WORDS_PER_GRANULE { SlotsDisjoint(blocks, x, g, y, e, y); }
    }
  }

  function Word(body: seq<nat>, base: nat, k: nat): nat
    requires base <= k < base + |body|
  {
    body[k - base]
  }

  /** Memory with the words of a block replaced. */
  function WithBlock(next: map<nat, nat>, base: nat, body: seq<nat>): map<nat, nat> {
    next + map k: nat | base <= k < base + |body| :: Word(body, base, k)
  }

  ghost predicate Consistent(heads: seq<nat>, next: map<nat, nat>, blocks: Blocks, lists: seq<seq<nat>>,
                             given: set<nat>) {
    && |heads| == |lists| == SizeMap.MAXOBJGRANULES + 1
    && 0 !in blocks && (forall b :: b in blocks ==> 0 < blocks[b] <= SizeMap.MAXOBJGRANULES)
    && (forall i :: 0 <= i < |lists| ==> Chain(heads[i], next, lists[i]))
    && (forall i, x :: 0 <= i < |lists| && x in lists[i] ==> Slot(blocks, x, i) && x !in given)
    && (forall x: nat, g: nat :: Slot(blocks, x, g) && x !in given ==> x in lists[g])
    && (forall x :: x in given ==> x / BLOCK_WORDS in blocks && Slot(blocks, x, blocks[x / BLOCK_WORDS]))
  }

  /** Links of objects on lists stay when only other words change. */
  lemma ListsFrame(heads: seq<nat>, next: map<nat, nat>, blocks: Blocks, lists: seq<seq<nat>>, given: set<nat>,
                   next': map<nat, nat>, g: nat)
    requires Consistent(heads, next, blocks, lists, given) && g < |lists|
    requires forall i, x :: 0 <= i < |lists| && i != g && x in lists[i] && x in next ==>
      x in next' && next'[x] == next[x]
    ensures forall i :: 0 <= i < |lists| && i != g ==> Chain(heads[i], next', lists[i])
  {
    hide Chain;
    forall i | 0 <= i < |lists| && i != g ensures Chain(heads[i], next', lists[i]) {
      forall x | x in lists[i] ensures x in next { ChainMember(heads[i], next, lists[i], x); }
      ChainFrame(heads[i], next, next', lists[i]);
    }
  }

  lemma Popped(heads: seq<nat>, next: map<nat, nat>, blocks: Blocks, lists: seq<seq<nat>>, given: set<nat>, g: nat)
    requires Consistent(heads, next, blocks, lists, given) && 0 < g <= SizeMap.MAXOBJGRANULES && heads[g] != 0
    ensures var x := heads[g];
      && lists[g] != [] && lists[g][0] == x && x in next && x !in given && Slot(blocks, x, g)
      && Consistent(heads[g := next[x]], next[x := 0], blocks, lists[g := lists[g][1..]], given + {x})
  {
    hide Chain, Starts;
    var x, list := heads[g], lists[g];
    ChainHead(x, next, list);
    ChainTail(x, next, list);
    ChainDistinct(x, next, list);
    var next' := next[x := 0];
    assert x in list && Slot(blocks, x, g);
    ListsFrame(heads, next, blocks, lists, given, next', g);
    forall y | y in list[1..] ensures y in list && y != x && y in next {
      var k :| 0 <= k < |list[1..]| && list[1..][k] == y;
      assert list[k + 1] == y;
      ChainMember(x, next, list, y);
    }
    ChainFrame(next[x], next, next', list[1..]);
    assert list == [x] + list[1..];
  }

  lemma ChainHead(head: nat, next: map<nat, nat>, list: seq<nat>)
    requires Chain(head, next, list) && head != 0
    ensures list != [] && list[0] == head
  {
  }

  lemma Pushed(heads: seq<nat>, next: map<nat, nat>, blocks: Blocks, lists: seq<seq<nat>>, given: set<nat>, x: nat)
    requires Consistent(heads, next, blocks, lists, given) && x in given
    ensures x / BLOCK_WORDS in blocks && blocks[x / BLOCK_WORDS] <= SizeMap.MAXOBJGRANULES
    ensures var g := blocks[x / BLOCK_WORDS];
      Consistent(heads[g := x], next[x := heads[g]], blocks, lists[g := [x] + lists[g]], given - {x})
  {
    hide Chain, Starts;
    var g := blocks[x / BLOCK_WORDS];
    var next' := next[x := heads[g]];
    ListsFrame(heads, next, blocks, lists, given, next', g);
    ChainPush(heads[g], next, lists[g], x);
  }

  /** The last object is the last start with room behind it. */
  lemma LastFits(sz: nat)
    requires 0 < sz <= BLOCK_WORDS
    ensures var k := LastObject(sz); Starts(k, sz) && k + sz <= BLOCK_WORDS < k + sz + sz
  {
    var n := BLOCK_WORDS / sz;
    SizeMap.QuotientBounds(BLOCK_WORDS, sz);
    assert n > 0;
    NearMultiple(sz, n - 1, 0);
    Distribute(sz, n - 1);
    assert LastObject(sz) == sz * (n - 1) + 0;
  }

  lemma UpToLast(j: nat, sz: nat)
    requires 0 < sz <= BLOCK_WORDS && Starts(j, sz)
    ensures j + sz <= BLOCK_WORDS <==> j <= LastObject(sz)
  {
    hide LastObject, Starts;
    LastFits(sz);
    var k := LastObject(sz);
    Multiples(k, sz);
  }

  /** The members of the new list are the objects of the new block. */
  lemma NewSlots(blocks: Blocks, h: nat, g: nat, x: nat)
    requires 0 < g <= SizeMap.MAXOBJGRANULES && h > 0
    ensures var base, sz := h * BLOCK_WORDS, g * WORDS_PER_GRANULE;
      x in Down(base, sz, LastObject(sz)) <==> x / BLOCK_WORDS == h && Slot(blocks[h := g], x, g)
  {
    hide LastObject, Starts;
    var base, sz := h * BLOCK_WORDS, g * WORDS_PER_GRANULE;
    LastFits(sz);
    DownMembers(base, sz, LastObject(sz));
    if x >= base {
      if Starts(x - base, sz) { UpToLast(x - base, sz); }
    }
  }

  lemma NewChain(next: map<nat, nat>, h: nat, g: nat, clear: bool, list: seq<nat>, was: seq<nat>, body: seq<nat>)
    requires 0 < g <= SizeMap.MAXOBJGRANULES && h > 0 && |was| == BLOCK_WORDS
    requires body == Built(was, h * BLOCK_WORDS, g * WORDS_PER_GRANULE, clear, Item(list, 0))
    requires Chain(Item(list, 0), next, list) && forall x :: x in list ==> x in next && x / BLOCK_WORDS != h
    ensures var base, sz := h * BLOCK_WORDS, g * WORDS_PER_GRANULE;
      Chain(base + LastObject(sz), WithBlock(next, base, body), Down(base, sz, LastObject(sz)) + list)
  {
    hide Chain, LastObject, Starts;
    var base, sz := h * BLOCK_WORDS, g * WORDS_PER_GRANULE;
    var next' := WithBlock(next, base, body);
    LastFits(sz);
    ChainFrame(Item(list, 0), next, next', list);
    forall j: nat | Starts(j, sz) && j <= LastObject(sz)
      ensures base + j in next' && next'[base + j] == if j < sz then Item(list, 0) else base + (j - sz)
    {
      UpToLast(j, sz);
      assert next'[base + j] == Word(body, base, base + j);
    }
    ChainDown(next', base, sz, LastObject(sz), list);
  }

  lemma BlockAdded(heads: seq<nat>, next: map<nat, nat>, blocks: Blocks, lists: seq<seq<nat>>, given: set<nat>,
                   h: nat, g: nat, clear: bool, was: seq<nat>, body: seq<nat>)
    requires Consistent(heads, next, blocks, lists, given)
    requires 0 < g <= SizeMap.MAXOBJGRANULES && h > 0 && h !in blocks && |was| == BLOCK_WORDS
    requires body == Built(was, h * BLOCK_WORDS, g * WORDS_PER_GRANULE, clear, heads[g])
    ensures var base, sz := h * BLOCK_WORDS, g * WORDS_PER_GRANULE;
      var p := base + LastObject(sz);
      && p != 0
      && Consistent(heads[g := p], WithBlock(next, base, body), blocks[h := g],
                    lists[g := Down(base, sz, LastObject(sz)) + lists[g]], given)
  {
    hide Chain, LastObject, Starts, Built, Down, WithBlock;
    var base, sz := h * BLOCK_WORDS, g * WORDS_PER_GRANULE;
    var next', blocks' := WithBlock(next, base, body), blocks[h := g];
    var down := Down(base, sz, LastObject(sz));
    var lists' := lists[g := down + lists[g]];
    assert heads[g] == Item(lists[g], 0) by { HeadItem(heads[g], next, lists[g]); }
    forall i, x | 0 <= i < |lists| && x in lists[i]
      ensures x in next && x / BLOCK_WORDS in blocks && x / BLOCK_WORDS != h
    {
      ChainMember(heads[i], next, lists[i], x);
      assert Slot(blocks, x, i);
    }
    OutsideBlock(next, base, body);
    ListsFrame(heads, next, blocks, lists, given, next', g);
    NewChain(next, h, g, clear, lists[g], was, body);
    forall x: nat ensures x in down <==> x / BLOCK_WORDS == h && Slot(blocks', x, g) {
      NewSlots(blocks, h, g, x);
    }
    forall x: nat, i: nat ensures x / BLOCK_WORDS != h ==> (Slot(blocks', x, i) <==> Slot(blocks, x, i)) {
    }
  }

  lemma HeadItem(head: nat, next: map<nat, nat>, list: seq<nat>)
    requires Chain(head, next, list)
    ensures head == Item(list, 0)
  {
  }

  lemma OutsideBlock(next: map<nat, nat>, base: nat, body: seq<nat>)
    requires |body| == BLOCK_WORDS && base % BLOCK_WORDS == 0
    ensures forall x: nat :: x / BLOCK_WORDS != base / BLOCK_WORDS && x in next ==>
      x in WithBlock(next, base, body) && WithBlock(next, base, body)[x] == next[x]
  {
  }
}
