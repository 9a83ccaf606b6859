/** The hash tables of finalize.c: arrays of chain heads whose entries are linked through
    their own next fields.  Entry number 0 stands for the null pointer. */
module HashChains {
  import opened Lists

  const MAX_LOG := 60

  function Pow2(n: nat): (r: nat)
    ensures r > 0
  {
    if n == 0 then 1 else 2 * Pow2(n - 1)
  }

  /** The number of heads of a table, none before the first growth. */
  function Size(log: int): nat {
    if log < 0 then 0 else Pow2(log)
  }

  /** HASH2 and HASH3: two shifted copies of the address, cut to the table size. */
  function Hash(a: nat, log: nat): (r: nat)
    requires log <= MAX_LOG
    ensures r < Size(log)
  {
    var w := (a % 0x1_0000_0000_0000_0000) as bv64;
    (((w >> 3) ^ (w >> (3 + log))) as nat) % Pow2(log)
  }

  /** The entry at position `k` links to the one after it. */
  ghost predicate At(next: map<nat, nat>, list: seq<nat>, k: nat)
    requires k < |list|
  {
    list[k] != 0 && list[k] in next && next[list[k]] == Item(list, k + 1)
  }

  /** The entries reached from `head` are exactly `list`. */
  ghost predicate Chain(head: nat, next: map<nat, nat>, list: seq<nat>) {
    && head == Item(list, 0)
    && (forall k :: 0 <= k < |list| ==> At(next, list, k))
    && Distinct(list)
  }

  lemma ChainFrame(head: nat, next: map<nat, nat>, next': map<nat, nat>, list: seq<nat>)
    requires Chain(head, next, list)
    requires forall n :: n in list ==> n in next' && n in next && next'[n] == next[n]
    ensures Chain(head, next', list)
  {
    forall k | 0 <= k < |list| ensures At(next', list, k) {
      assert At(next, list, k) && list[k] in list;
    }
  }

  lemma ChainPush(head: nat, next: map<nat, nat>, list: seq<nat>, n: nat)
    requires Chain(head, next, list) && n != 0 && n !in list
    ensures Chain(n, next[n := head], [n] + list)
  {
    var list', next' := [n] + list, next[n := head];
    forall k | 0 <= k < |list'| ensures At(next', list', k) {
      if k > 0 { assert At(next, list, k - 1) && list'[k] == list[k - 1]; }
    }
  }

  lemma ChainTail(head: nat, next: map<nat, nat>, list: seq<nat>)
    requires Chain(head, next, list) && list != []
    ensures head in next && next[head] == Item(list, 1) && Chain(next[head], next, list[1..])
  {
    assert At(next, list, 0);
    forall k | 0 <= k < |list[1..]| ensures At(next, list[1..], k) {
      assert At(next, list, k + 1);
    }
  }

  /** Unlinking the entry at position `k`. */
  lemma ChainRemove(head: nat, next: map<nat, nat>, list: seq<nat>, k: nat)
    requires Chain(head, next, list) && k < |list|
    ensures list[k] in next
    ensures k == 0 ==> Chain(next[list[0]], next, Without(list, k))
    ensures k > 0 ==> Chain(head, next[list[k - 1] := next[list[k]]], Without(list, k))
  {
    assert At(next, list, k);
    var r := Without(list, k);
    var next' := if k == 0 then next else next[list[k - 1] := next[list[k]]];
    forall j | 0 <= j < |r| ensures At(next', r, j) {
      var i := if j < k then j else j + 1;
      assert At(next, list, i) && r[j] == list[i];
    }
  }

  lemma NullOffChain(head: nat, next: map<nat, nat>, list: seq<nat>)
    requires Chain(head, next, list)
    ensures 0 !in list
  {
    forall x | x in list ensures x != 0 { ChainMember(head, next, list, x); }
  }

  lemma ChainNull(next: map<nat, nat>, list: seq<nat>)
    requires Chain(0, next, list)
    ensures list == []
  {
    assert list == [] || At(next, list, 0);
  }

  /** A walk that meets the null pointer is at the end. */
  lemma ChainEnd(head: nat, next: map<nat, nat>, list: seq<nat>, k: nat)
    requires Chain(head, next, list) && k <= |list| && Item(list, k) == 0
    ensures k == |list|
  {
    assert k == |list| || At(next, list, k);
  }

  /** The entries of a chain have links. */
  lemma ChainMember(head: nat, next: map<nat, nat>, list: seq<nat>, n: nat)
    requires Chain(head, next, list) && n in list
    ensures n != 0 && n in next
  {
    var k :| 0 <= k < |list| && list[k] == n;
    assert At(next, list, k);
  }

  // ---------------------------------------------------------------- tables as values

  /** `n` has a key and stands in the bucket of it. */
  ghost predicate InBucket(key: map<nat, nat>, log: int, n: nat, i: nat) {
    n in key && 0 <= log <= MAX_LOG && Hash(key[n], log) == i
  }

  /** The chains of a table hold exactly `nodes`, each in the bucket of its key. */
  ghost predicate Placed(heads: seq<nat>, next: map<nat, nat>, key: map<nat, nat>, chains: seq<seq<nat>>,
                         nodes: set<nat>, log: int)
  {
    && |heads| == |chains| == Size(log)
    && (forall i :: 0 <= i < |chains| ==> Chain(heads[i], next, chains[i]))
    && (forall i, n :: 0 <= i < |chains| && n in chains[i] ==> n in nodes && InBucket(key, log, n, i))
    && (forall n :: n in nodes ==> n in key && log >= 0 && log <= MAX_LOG && n in chains[Hash(key[n], log)])
  }

  /** Putting a new node in front of the chain of its key. */
  lemma PlacedPush(heads: seq<nat>, next: map<nat, nat>, key: map<nat, nat>, chains: seq<seq<nat>>,
                   nodes: set<nat>, log: int, n: nat)
    requires Placed(heads, next, key, chains, nodes, log) && 0 <= log <= MAX_LOG
    requires n != 0 && n !in nodes && n in key
    ensures var i := Hash(key[n], log);
      Placed(heads[i := n], next[n := heads[i]], key, chains[i := [n] + chains[i]], nodes + {n}, log)
  {
    hide Hash, Chain, Pow2;
    var i := Hash(key[n], log);
    var next' := next[n := heads[i]];
    forall j | 0 <= j < |chains| && j != i ensures Chain(heads[j], next', chains[j]) {
      forall x | x in chains[j] ensures x in next && x != n { ChainMember(heads[j], next, chains[j], x); }
      ChainFrame(heads[j], next, next', chains[j]);
    }
    ChainPush(heads[i], next, chains[i], n);
  }

  /** Unlinking a node. */
  lemma PlacedRemove(heads: seq<nat>, next: map<nat, nat>, key: map<nat, nat>, chains: seq<seq<nat>>,
                     nodes: set<nat>, log: int, i: nat, k: nat)
    requires Placed(heads, next, key, chains, nodes, log) && i < |chains| && k < |chains[i]|
    ensures chains[i][k] in nodes && chains[i][k] in next
    ensures var n, list := chains[i][k], chains[i];
      var heads' := if k == 0 then heads[i := next[n]] else heads;
      var next' := if k == 0 then next else next[list[k - 1] := next[n]];
      Placed(heads', next', key, chains[i := Without(list, k)], nodes - {n}, log)
  {
    hide Hash, Chain, Pow2;
    var n, list := chains[i][k], chains[i];
    assert n in list && InBucket(key, log, n, i);
    ChainRemove(heads[i], next, list, k);
    ChainDistinct(heads[i], next, list);
    var next' := if k == 0 then next else next[list[k - 1] := next[n]];
    WithoutMembers(list, k);
    if k > 0 { assert list[k - 1] in list && InBucket(key, log, list[k - 1], i); }
    forall j | 0 <= j < |chains| && j != i ensures Chain(heads[j], next', chains[j]) {
      forall x | x in chains[j] ensures x in next && x in next' && next'[x] == next[x] {
        assert InBucket(key, log, x, j);
        ChainMember(heads[j], next, chains[j], x);
      }
      ChainFrame(heads[j], next, next', chains[j]);
    }
  }

  lemma ChainDistinct(head: nat, next: map<nat, nat>, list: seq<nat>)
    requires Chain(head, next, list)
    ensures Distinct(list)
  {
  }

  /** Links of entries outside the table may change. */
  lemma PlacedFrame(heads: seq<nat>, next: map<nat, nat>, key: map<nat, nat>, chains: seq<seq<nat>>,
                    nodes: set<nat>, log: int, next': map<nat, nat>, key': map<nat, nat>)
    requires Placed(heads, next, key, chains, nodes, log)
    requires forall n :: n in nodes && n in next ==> n in next' && next'[n] == next[n]
    requires forall n :: n in nodes && n in key ==> n in key' && key'[n] == key[n]
    ensures Placed(heads, next', key', chains, nodes, log)
  {
    forall j | 0 <= j < |chains| ensures Chain(heads[j], next', chains[j]) {
      forall x | x in chains[j] ensures x in next && x in next' && next'[x] == next[x] {
        assert InBucket(key, log, x, j);
        ChainMember(heads[j], next, chains[j], x);
      }
      ChainFrame(heads[j], next, next', chains[j]);
    }
    forall i, n | 0 <= i < |chains| && n in chains[i] ensures InBucket(key', log, n, i) {
      assert InBucket(key, log, n, i);
    }
  }

  lemma PlacedEmpty(heads: seq<nat>, next: map<nat, nat>, key: map<nat, nat>, log: int)
    requires |heads| == Size(log) && forall i :: 0 <= i < |heads| ==> heads[i] == 0
    ensures Placed(heads, next, key, seq(|heads|, _ => []), {}, log)
  {
  }

  // ---------------------------------------------------------------- tables in memory

  class Table<V> {
    var heads: array<nat>
    var logSize: int
    var next: map<nat, nat>
    var key: map<nat, nat>
    var val: map<nat, V>
    var entries: nat
    ghost var chains: seq<seq<nat>>
    ghost var nodes: set<nat>

    /** The chains are in order; the entry count need not be. */
    ghost predicate Ordered()
      reads this, heads
    {
      && -1 <= logSize <= MAX_LOG
      && Placed(heads[..], next, key, chains, nodes, logSize)
      && nodes <= val.Keys
    }

    ghost predicate Valid()
      reads this, heads
    {
      Ordered() && entries == |nodes|
    }

    constructor ()
      ensures Valid() && fresh(heads) && nodes == {} && logSize == -1
    {
      heads := new nat[0];
      logSize := -1;
      next, key, val := map[], map[], map[];
      entries := 0;
      chains, nodes := [], {};
    }

    /** An entry is never the null pointer and has a key and links. */
    lemma NodeFacts(n: nat)
      requires Ordered() && n in nodes
      ensures n != 0 && n in key && n in next && n in val && logSize >= 0
      ensures n in chains[Hash(key[n], logSize)]
    {
      hide Hash, Chain, Pow2;
      var i := Hash(key[n], logSize);
      ChainMember(heads[..][i], next, chains[i], n);
    }

    lemma ChainFacts(i: nat, k: nat)
      requires Ordered() && i < |chains|
      ensures |chains| == heads.Length == Size(logSize) && logSize >= 0
      ensures heads[i] == Item(chains[i], 0)
      ensures k < |chains[i]| ==>
        var n := chains[i][k];
        n != 0 && n in nodes && n in next && n in val && next[n] == Item(chains[i], k + 1) &&
          InBucket(key, logSize, n, i)
    {
      hide Hash, Pow2;
      assert Chain(heads[..][i], next, chains[i]);
      if k < |chains[i]| { assert chains[i][k] in chains[i] && At(next, chains[i], k); }
    }

    lemma DistinctChain(i: nat)
      requires Ordered() && i < |chains|
      ensures Distinct(chains[i])
    {
      assert Chain(heads[..][i], next, chains[i]);
    }

    /** GC_grow_table: twice the heads, every entry re-linked into its new bucket.  Without
        room for a larger array nothing happens. */
    method Grow(room: bool)
      requires Ordered() && (room ==> logSize < MAX_LOG)
      modifies this`heads, this`logSize, this`next, this`chains
      ensures Ordered() && (heads == old(heads) || fresh(heads))
      ensures logSize == old(logSize) + if room then 1 else 0
      ensures SameOutside(nodes, old(next), next)
    {
      hide Placed, Hash, Chain, InBucket, Pow2, OldRest;
      if !room { return; }
      var newLog := logSize + 1;
      var newTable := new nat[Size(newLog)](_ => 0);
      ghost var newChains: seq<seq<nat>> := seq(newTable.Length, _ => []);
      ghost var moved: set<nat> := {};
      ghost var heads0, next0, chains0, log0 := heads[..], next, chains, logSize;
      PlacedEmpty(newTable[..], next, key, newLog);
      OldRestStart(heads0, next0, key, chains0, nodes, log0);
      var i := 0;
      while i < heads.Length
        invariant 0 <= i <= heads.Length && heads == old(heads) && heads[..] == heads0 && logSize == log0
        invariant newTable.Length == Size(newLog) && Placed(newTable[..], next, key, newChains, moved, newLog)
        invariant OldRest(heads0, next, key, chains0, nodes, log0, moved, i, 0)
        invariant SameOutside(nodes, next0, next)
        modifies this`next, newTable
      {
        var p := heads[i];
        ghost var k := 0;
        OldRestAt(heads0, next, key, chains0, nodes, log0, moved, i, k, p);
        while p != 0
          invariant heads == old(heads) && heads[..] == heads0 && logSize == log0 && i < heads.Length
          invariant newTable.Length == Size(newLog) && Placed(newTable[..], next, key, newChains, moved, newLog)
          invariant OldRest(heads0, next, key, chains0, nodes, log0, moved, i, k)
          invariant |chains0| == heads.Length && k <= |chains0[i]| && p == Item(chains0[i], k)
          invariant SameOutside(nodes, next0, next)
          modifies this`next, newTable
          decreases |chains0[i]| - k
        {
          OldRestNext(heads0, next, key, chains0, nodes, log0, moved, i, k, p);
          var follow := next[p];
          var newHash := Hash(key[p], newLog);
          PlacedPush(newTable[..], next, key, newChains, moved, newLog, p);
          OldRestMoved(heads0, next, key, chains0, nodes, log0, moved, i, k, newTable[newHash]);
          PlacedSize(newTable[..], next, key, newChains, moved, newLog);
          ghost var table0 := newTable[..];
          next := next[p := newTable[newHash]];
          newTable[newHash] := p;
          assert newTable[..] == table0[newHash := p];
          newChains := newChains[newHash := [p] + newChains[newHash]];
          moved := moved + {p};
          p := follow;
          k := k + 1;
        }
        OldRestBucket(heads0, next, key, chains0, nodes, log0, moved, i, k);
        i := i + 1;
      }
      OldRestEnd(heads0, next, key, chains0, nodes, log0, moved, i);
      logSize := newLog;
      heads := newTable;
      chains := newChains;
    }

    /** The walk along a bucket that every operation starts with: the first entry with key
        `k`, and the entry before it. */
    method Find(k: nat) returns (index: nat, prev: nat, curr: nat, ghost pos: nat)
      requires Ordered() && logSize >= 0
      ensures index == Hash(k, logSize) && index < |chains| && pos <= |chains[index]|
      ensures curr == Item(chains[index], pos) && prev == Item(chains[index], pos - 1)
      ensures curr != 0 ==> pos < |chains[index]| && curr in nodes && curr in key && key[curr] == k
      ensures forall n :: n in chains[index][..pos] ==> n in key && key[n] != k
      ensures curr == 0 ==> forall n :: n in nodes ==> n in key && key[n] != k
    {
      hide Hash, Placed, Chain, Pow2;
      index := Hash(k, logSize);
      Buckets();
      ChainFacts(index, 0);
      curr, prev, pos := heads[index], 0, 0;
      while curr != 0
        invariant pos <= |chains[index]| && curr == Item(chains[index], pos) && prev == Item(chains[index], pos - 1)
        invariant forall n :: n in chains[index][..pos] ==> n in key && key[n] != k
        modifies {}
        decreases |chains[index]| - pos
      {
        ChainFacts(index, pos);
        if key[curr] == k { return; }
        assert chains[index][..pos + 1] == chains[index][..pos] + [curr];
        prev := curr;
        curr := next[curr];
        pos := pos + 1;
      }
      ChainFacts(index, pos);
      assert chains[index][..pos] == chains[index];
      forall n | n in nodes ensures n in key && key[n] != k {
        NodeFacts(n);
      }
    }

    lemma NullIsNone()
      requires Ordered()
      ensures 0 !in nodes
    {
      hide Hash, Pow2, Chain;
      forall i | 0 <= i < |chains| ensures 0 !in chains[i] {
        NullOffChain(heads[..][i], next, chains[i]);
      }
    }

    lemma NoneYet()
      requires Ordered() && logSize == -1
      ensures nodes == {}
    {
    }

    lemma Buckets()
      requires Ordered()
      ensures |chains| == heads.Length == Size(logSize)
    {
    }

    /** Taking the found entry out of its chain. */
    method Unlink(index: nat, prev: nat, curr: nat, ghost pos: nat)
      requires Ordered() && index < |chains| && pos < |chains[index]|
      requires curr == chains[index][pos] && prev == Item(chains[index], pos - 1)
      modifies this`next, this`chains, this`nodes, heads
      ensures Ordered() && nodes == old(nodes) - {curr} && curr in old(nodes)
      ensures chains == old(chains)[index := Without(old(chains)[index], pos)]
      ensures SameOutside(old(nodes) - {curr}, old(next), next)
    {
      hide Hash, Placed, Chain, Pow2;
      Buckets();
      ChainFacts(index, pos);
      if pos > 0 { ChainFacts(index, pos - 1); }
      DistinctChain(index);
      PlacedRemove(heads[..], next, key, chains, nodes, logSize, index, pos);
      ghost var heads0 := heads[..];
      if prev == 0 {
        heads[index] := next[curr];
        assert heads[..] == heads0[index := next[curr]];
      } else {
        next := next[prev := next[curr]];
        assert heads[..] == heads0;
      }
      nodes := nodes - {curr};
      chains := chains[index := Without(chains[index], pos)];
    }

    /** Putting a node in front of the chain of its key. */
    method LinkIn(index: nat, n: nat, k: nat, v: V)
      requires Ordered() && logSize >= 0 && index == Hash(k, logSize) && n != 0 && n !in nodes
      modifies this`next, this`key, this`val, this`chains, this`nodes, heads
      ensures Ordered() && nodes == old(nodes) + {n}
      ensures key == old(key)[n := k] && val == old(val)[n := v]
      ensures SameOutside({n}, old(next), next) && SameOutside(nodes, old(next), next)
      ensures chains == old(chains)[index := [n] + old(chains)[index]]
    {
      hide Hash, Placed, Chain, Pow2;
      Buckets();
      ghost var heads0 := heads[..];
      PlacedFrame(heads[..], next, key, chains, nodes, logSize, next, key[n := k]);
      PlacedPush(heads[..], next, key[n := k], chains, nodes, logSize, n);
      key := key[n := k];
      val := val[n := v];
      next := next[n := heads[index]];
      heads[index] := n;
      assert heads[..] == heads0[index := n];
      nodes := nodes + {n};
      chains := chains[index := [n] + chains[index]];
    }

    /** Setting the link of an entry that is not in the table. */
    method Relink(n: nat, link: nat)
      requires Ordered() && n !in nodes
      modifies this`next
      ensures Ordered() && next == old(next)[n := link]
    {
      hide Hash, Placed, Chain, Pow2;
      PlacedFrame(heads[..], next, key, chains, nodes, logSize, next[n := link], key);
      next := next[n := link];
    }
  }

  /** Links outside `nodes` did not change. */
  ghost predicate SameOutside(nodes: set<nat>, next: map<nat, nat>, next': map<nat, nat>) {
    && (forall n :: n !in nodes ==> (n in next <==> n in next'))
    && (forall n :: n !in nodes && n in next ==> next'[n] == next[n])
  }

  // While a table grows: what is left of the old chains once buckets before `i` and the
  // first `k` entries of bucket `i` have moved.

  ghost predicate OldRest(heads: seq<nat>, next: map<nat, nat>, key: map<nat, nat>, chains: seq<seq<nat>>,
                          nodes: set<nat>, log: int, moved: set<nat>, i: nat, k: nat)
  {
    && |heads| == |chains| == Size(log) && i <= |chains| && (i == |chains| ==> k == 0)
    && (i < |chains| ==> k <= |chains[i]| && Chain(Item(chains[i], k), next, chains[i][k..]))
    && (forall j :: i < j < |chains| ==> Chain(heads[j], next, chains[j]))
    && (k == 0 && i < |chains| ==> heads[i] == Item(chains[i], 0))
    && (forall j, n :: 0 <= j < |chains| && n in chains[j] ==> n in nodes && InBucket(key, log, n, j))
    && (forall n :: n in nodes ==> n in key && 0 <= log <= MAX_LOG && n in chains[Hash(key[n], log)])
    && moved <= nodes
    && (forall n :: n in nodes ==>
          (n in moved <==> Hash(key[n], log) < i || (Hash(key[n], log) == i && n in chains[i][..k])))
    && (forall j :: 0 <= j < |chains| ==> Distinct(chains[j]))
  }

  lemma PlacedSize(heads: seq<nat>, next: map<nat, nat>, key: map<nat, nat>, chains: seq<seq<nat>>,
                   nodes: set<nat>, log: int)
    requires Placed(heads, next, key, chains, nodes, log)
    ensures |heads| == |chains| == Size(log)
  {
  }

  lemma OldRestStart(heads: seq<nat>, next: map<nat, nat>, key: map<nat, nat>, chains: seq<seq<nat>>,
                     nodes: set<nat>, log: int)
    requires Placed(heads, next, key, chains, nodes, log)
    ensures OldRest(heads, next, key, chains, nodes, log, {}, 0, 0)
  {
    hide Hash, Pow2, At;
    if |chains| > 0 { assert chains[0][0..] == chains[0]; }
    forall j | 0 <= j < |chains| ensures Distinct(chains[j]) { assert Chain(heads[j], next, chains[j]); }
  }

  lemma OldRestAt(heads: seq<nat>, next: map<nat, nat>, key: map<nat, nat>, chains: seq<seq<nat>>,
                  nodes: set<nat>, log: int, moved: set<nat>, i: nat, k: nat, p: nat)
    requires OldRest(heads, next, key, chains, nodes, log, moved, i, k) && i < |heads|
    requires k == 0 && p == heads[i]
    ensures |chains| == |heads| && p == Item(chains[i], 0)
  {
  }

  lemma OldRestNext(heads: seq<nat>, next: map<nat, nat>, key: map<nat, nat>, chains: seq<seq<nat>>,
                    nodes: set<nat>, log: int, moved: set<nat>, i: nat, k: nat, p: nat)
    requires OldRest(heads, next, key, chains, nodes, log, moved, i, k) && i < |chains|
    requires p == Item(chains[i], k) && p != 0
    ensures k < |chains[i]| && chains[i][k] == p && p in next && next[p] == Item(chains[i], k + 1)
    ensures p in key && p in nodes && p !in moved
  {
    hide Hash, Pow2;
    var rest := chains[i][k..];
    assert At(next, rest, 0);
    assert rest[0] == p && Item(rest, 1) == Item(chains[i], k + 1);
    assert p in chains[i] && InBucket(key, log, p, i);
  }

  lemma OldRestMoved(heads: seq<nat>, next: map<nat, nat>, key: map<nat, nat>, chains: seq<seq<nat>>,
                     nodes: set<nat>, log: int, moved: set<nat>, i: nat, k: nat, link: nat)
    requires OldRest(heads, next, key, chains, nodes, log, moved, i, k) && i < |chains| && k < |chains[i]|
    ensures OldRest(heads, next[chains[i][k] := link], key, chains, nodes, log, moved + {chains[i][k]}, i, k + 1)
  {
    hide Hash, Pow2, Chain;
    var p, list := chains[i][k], chains[i];
    var next' := next[p := link];
    assert p in list && InBucket(key, log, p, i);
    ChainTail(Item(list, k), next, list[k..]);
    assert list[k..][1..] == list[k + 1..] && Item(list[k..], 1) == Item(list, k + 1);
    ChainFrame(Item(list, k + 1), next, next', list[k + 1..]) by {
      forall n | n in list[k + 1..] ensures n != p && n in next {
        ChainMember(Item(list, k + 1), next, list[k + 1..], n);
        DropNotIn(list, k, n);
      }
    }
    forall j | i < j < |chains| ensures Chain(heads[j], next', chains[j]) {
      forall n | n in chains[j] ensures n != p && n in next {
        assert InBucket(key, log, n, j);
        ChainMember(heads[j], next, chains[j], n);
      }
      ChainFrame(heads[j], next, next', chains[j]);
    }
    assert list[..k + 1] == list[..k] + [p];
  }

  lemma DropNotIn(list: seq<nat>, k: nat, n: nat)
    requires Distinct(list) && k < |list| && n in list[k + 1..]
    ensures n != list[k]
  {
    var l :| 0 <= l < |list[k + 1..]| && list[k + 1..][l] == n;
    assert list[k + 1 + l] == n;
  }

  lemma OldRestBucket(heads: seq<nat>, next: map<nat, nat>, key: map<nat, nat>, chains: seq<seq<nat>>,
                      nodes: set<nat>, log: int, moved: set<nat>, i: nat, k: nat)
    requires OldRest(heads, next, key, chains, nodes, log, moved, i, k) && i < |chains| && Item(chains[i], k) == 0
    ensures OldRest(heads, next, key, chains, nodes, log, moved, i + 1, 0)
  {
    hide Hash, Pow2;
    ChainNull(next, chains[i][k..]);
    assert chains[i][..k] == chains[i];
    if i + 1 < |chains| { assert chains[i + 1][0..] == chains[i + 1]; }
  }

  lemma OldRestEnd(heads: seq<nat>, next: map<nat, nat>, key: map<nat, nat>, chains: seq<seq<nat>>,
                   nodes: set<nat>, log: int, moved: set<nat>, i: nat)
    requires OldRest(heads, next, key, chains, nodes, log, moved, i, 0) && i == |heads|
    ensures moved == nodes
  {
  }
}
