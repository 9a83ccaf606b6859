/** How the free lists and the headers agree: every free header is on the list for its
    length, and the byte counters are the sums of their lists. */
module FreeBlocks {
  import opened MarkHeap
  import opened Tiles
  import opened FreeList
  import opened Lists

  /** The free block `h` is on exactly the list for its length, any other on none. */
  ghost predicate Home(m: Hdrs, lists: seq<seq<nat>>, h: nat) {
    forall i :: 0 <= i < |lists| ==> (h in lists[i] <==> IsFree(m, h) && i == FlIndex(m[h].len))
  }

  function BlockLen(m: Hdrs, h: nat): nat {
    if IsFree(m, h) then m[h].len else 0
  }

  function ListLen(m: Hdrs, list: seq<nat>): nat {
    if list == [] then 0 else BlockLen(m, list[0]) + ListLen(m, list[1..])
  }

  /** Headers and lists agree, except for the blocks in `odd`, which are being moved. */
  ghost predicate Listed(m: Hdrs, lists: seq<seq<nat>>, bytes: seq<nat>, odd: set<nat>) {
    && |lists| == |bytes| == N_HBLK_FLS + 1
    && (forall i :: 0 <= i < |lists| ==> bytes[i] == ListLen(m, lists[i]))
    && (forall h: nat :: h !in odd ==> Home(m, lists, h))
  }

  lemma {:induction false} ListLenFrame(m: Hdrs, m': Hdrs, list: seq<nat>)
    requires forall h :: h in list ==> BlockLen(m, h) == BlockLen(m', h)
    ensures ListLen(m, list) == ListLen(m', list)
  {
    if list != [] { ListLenFrame(m, m', list[1..]); }
  }

  lemma {:induction false} ListLenConcat(m: Hdrs, a: seq<nat>, b: seq<nat>)
    ensures ListLen(m, a + b) == ListLen(m, a) + ListLen(m, b)
  {
    if a == [] {
      assert a + b == b;
    } else {
      assert (a + b)[1..] == a[1..] + b;
      ListLenConcat(m, a[1..], b);
    }
  }

  lemma ListLenAt(m: Hdrs, list: seq<nat>, k: nat)
    requires k < |list|
    ensures ListLen(m, list) == ListLen(m, Without(list, k)) + BlockLen(m, list[k])
  {
    assert list == list[..k] + ([list[k]] + list[k + 1..]);
    ListLenConcat(m, list[..k], [list[k]] + list[k + 1..]);
    ListLenConcat(m, [list[k]], list[k + 1..]);
    ListLenConcat(m, list[..k], list[k + 1..]);
    assert ListLen(m, [list[k]]) == BlockLen(m, list[k]);
  }

  /** Where a listed free block is found. */
  lemma Find(m: Hdrs, lists: seq<seq<nat>>, bytes: seq<nat>, odd: set<nat>, h: nat) returns (k: nat)
    requires Listed(m, lists, bytes, odd) && IsFree(m, h) && h !in odd
    ensures var i := FlIndex(m[h].len); k < |lists[i]| && lists[i][k] == h && m[h].len <= bytes[i]
  {
    var i := FlIndex(m[h].len);
    assert Home(m, lists, h) && h in lists[i];
    k :| 0 <= k < |lists[i]| && lists[i][k] == h;
    ListLenAt(m, lists[i], k);
  }

  lemma TakeListed(m: Hdrs, lists: seq<seq<nat>>, bytes: seq<nat>, odd: set<nat>, h: nat, i: nat, k: nat)
    requires Listed(m, lists, bytes, odd) && IsFree(m, h)
    requires i <= N_HBLK_FLS && k < |lists[i]| && lists[i][k] == h && m[h].len <= bytes[i]
    requires Distinct(lists[i]) && Separate(lists)
    ensures var lists' := lists[i := Without(lists[i], k)];
      && Listed(m, lists', bytes[i := bytes[i] - m[h].len], odd + {h})
      && !OnList(lists', h)
      && forall x, j :: 0 <= j < |lists| && x in lists'[j] ==> x in lists[j]
  {
    var lists' := lists[i := Without(lists[i], k)];
    WithoutMembers(lists[i], k);
    ListLenAt(m, lists[i], k);
    forall x: nat | x !in odd + {h} ensures Home(m, lists', x) {
      assert Home(m, lists, x);
    }
  }

  lemma GiveListed(m: Hdrs, lists: seq<seq<nat>>, bytes: seq<nat>, odd: set<nat>, h: nat)
    requires Listed(m, lists, bytes, odd) && IsFree(m, h) && !OnList(lists, h)
    ensures var i := FlIndex(m[h].len);
      Listed(m, lists[i := [h] + lists[i]], bytes[i := bytes[i] + m[h].len], odd - {h})
  {
    var i := FlIndex(m[h].len);
    var lists' := lists[i := [h] + lists[i]];
    ListLenConcat(m, [h], lists[i]);
    assert ListLen(m, [h]) == m[h].len;
    forall x: nat | x !in odd - {h} ensures Home(m, lists', x) {
      if x != h { assert Home(m, lists, x); }
    }
  }

  /** Headers of blocks that are on no list may change. */
  lemma ChangeListed(m: Hdrs, m': Hdrs, lists: seq<seq<nat>>, bytes: seq<nat>, odd: set<nat>, odd': set<nat>)
    requires Listed(m, lists, bytes, odd)
    requires forall h :: h in odd || h in odd' ==> !OnList(lists, h)
    requires forall h: nat :: h !in odd && h !in odd' ==>
      (IsFree(m, h) <==> IsFree(m', h)) && BlockLen(m, h) == BlockLen(m', h)
    requires forall h :: h in odd && h !in odd' ==> !IsFree(m', h)
    ensures Listed(m', lists, bytes, odd')
  {
    forall i | 0 <= i < |lists| ensures ListLen(m, lists[i]) == ListLen(m', lists[i]) {
      forall h | h in lists[i] ensures BlockLen(m, h) == BlockLen(m', h) {
        assert OnList(lists, h);
      }
      ListLenFrame(m, m', lists[i]);
    }
    forall h: nat | h !in odd' ensures Home(m', lists, h) {
      if h !in odd {
        assert Home(m, lists, h);
      } else {
        assert !OnList(lists, h);
      }
    }
  }

  /** `u`, cut from the tail of `h`, takes its place on the list. */
  lemma PutListed(m: Hdrs, m': Hdrs, lists: seq<seq<nat>>, bytes: seq<nat>, h: nat, u: nat, i: nat, k: nat)
    requires Listed(m, lists, bytes, {}) && IsFree(m, h) && u !in m && u != h
    requires i <= N_HBLK_FLS && k < |lists[i]| && lists[i][k] == h && Distinct(lists[i]) && Separate(lists)
    requires IsFree(m', h) && IsFree(m', u) && m'[h].len + m'[u].len == m[h].len
    requires m' == m[h := m'[h]][u := m'[u]]
    ensures !OnList(lists, u) && m'[h].len <= bytes[i]
    ensures var lists' := lists[i := Put(lists[i], k, u)];
      && Listed(m', lists', bytes[i := bytes[i] - m'[h].len], {h, u})
      && !OnList(lists', h)
      && lists'[i][k] == u && (forall j :: 0 <= j < |lists'| && u in lists'[j] ==> j == i)
  {
    var list := lists[i];
    var lists' := lists[i := Put(list, k, u)];
    forall j | 0 <= j < |lists| ensures u !in lists[j] { assert Home(m, lists, u); }
    ListLenAt(m, list, k);
    ListLenAt(m', Put(list, k, u), k);
    assert Without(Put(list, k, u), k) == Without(list, k);
    forall j | 0 <= j < |lists|
      ensures
        if j == i then ListLen(m', Without(list, k)) == ListLen(m, Without(list, k))
        else ListLen(m', lists[j]) == ListLen(m, lists[j])
    {
      WithoutMembers(list, k);
      ListLenFrame(m, m', if j == i then Without(list, k) else lists[j]);
    }
    PutMembers(list, k, u);
    forall x: nat | x !in {h, u} ensures Home(m', lists', x) { assert Home(m, lists, x); }
  }

  lemma PutMembers(list: seq<nat>, k: nat, u: nat)
    requires k < |list| && Distinct(list)
    ensures forall x :: x in Put(list, k, u) <==> (x in list && x != list[k]) || x == u
  {
    var p := Put(list, k, u);
    assert p[k] == u;
    forall x | x in list && x != list[k] ensures x in p {
      var j :| 0 <= j < |list| && list[j] == x;
      assert p[j] == x;
    }
  }

  // --------------------------------------------------- the lists hold all free blocks

  function Total(bytes: seq<nat>): nat {
    if bytes == [] then 0 else bytes[0] + Total(bytes[1..])
  }

  /** The sum of the lists from `n` on. */
  function TotalFrom(bytes: seq<nat>, n: nat): nat
    requires n <= |bytes|
  {
    Total(bytes[n..])
  }

  lemma TotalFromStep(bytes: seq<nat>, n: nat)
    requires n < |bytes|
    ensures TotalFrom(bytes, n) == bytes[n] + TotalFrom(bytes, n + 1)
  {
    assert bytes[n..][1..] == bytes[n + 1..];
  }

  lemma TotalFromEnd(bytes: seq<nat>)
    ensures TotalFrom(bytes, |bytes|) == 0
  {
  }

  ghost function ListTotal(m: Hdrs, lists: seq<seq<nat>>): nat {
    if lists == [] then 0 else ListLen(m, lists[0]) + ListTotal(m, lists[1..])
  }

  lemma {:induction false} TotalIsListTotal(m: Hdrs, lists: seq<seq<nat>>, bytes: seq<nat>)
    requires |lists| == |bytes| && forall i :: 0 <= i < |lists| ==> bytes[i] == ListLen(m, lists[i])
    ensures Total(bytes) == ListTotal(m, lists)
  {
    if lists != [] { TotalIsListTotal(m, lists[1..], bytes[1..]); }
  }

  lemma {:induction false} ListTotalUpdate(m: Hdrs, lists: seq<seq<nat>>, i: nat, list: seq<nat>)
    requires i < |lists|
    ensures ListTotal(m, lists[i := list]) == ListTotal(m, lists) - ListLen(m, lists[i]) + ListLen(m, list)
  {
    if i == 0 {
      assert lists[i := list][1..] == lists[1..];
    } else {
      assert lists[i := list][1..] == lists[1..][i - 1 := list];
      ListTotalUpdate(m, lists[1..], i - 1, list);
    }
  }

  lemma {:induction false} ListTotalFrame(m: Hdrs, m': Hdrs, lists: seq<seq<nat>>)
    requires forall h :: OnList(lists, h) ==> BlockLen(m, h) == BlockLen(m', h)
    ensures ListTotal(m, lists) == ListTotal(m', lists)
  {
    if lists != [] {
      forall h | h in lists[0] ensures BlockLen(m, h) == BlockLen(m', h) { assert OnList(lists, h); }
      ListLenFrame(m, m', lists[0]);
      forall h | OnList(lists[1..], h) ensures BlockLen(m, h) == BlockLen(m', h) {
        var i :| 0 <= i < |lists[1..]| && h in lists[1..][i];
        assert h in lists[i + 1] && OnList(lists, h);
      }
      ListTotalFrame(m, m', lists[1..]);
    }
  }

  lemma {:induction false} EmptyLists(m: Hdrs, lists: seq<seq<nat>>)
    requires forall i :: 0 <= i < |lists| ==> lists[i] == []
    ensures ListTotal(m, lists) == 0
  {
    if lists != [] { EmptyLists(m, lists[1..]); }
  }

  /** Every list entry is a free block in its home, none is missing and none repeated. */
  ghost predicate Complete(m: Hdrs, lists: seq<seq<nat>>) {
    && |lists| == N_HBLK_FLS + 1
    && (forall i :: 0 <= i < |lists| ==> Distinct(lists[i]))
    && (forall h: nat :: Home(m, lists, h))
  }

  /** The lengths on the free lists add up to the lengths of all free blocks. */
  lemma {:induction false} ListsHoldAllFree(m: Hdrs, lists: seq<seq<nat>>)
    requires Complete(m, lists)
    ensures ListTotal(m, lists) == Sum(m, FreeWeight)
    decreases |m|
  {
    if m == map[] {
      forall i | 0 <= i < |lists| ensures lists[i] == [] {
        assert Home(m, lists, if lists[i] == [] then 0 else lists[i][0]);
      }
      EmptyLists(m, lists);
    } else {
      var h :| h in m;
      var m' := m - {h};
      SumRemove(m, FreeWeight, h);
      assert Home(m, lists, h);
      if m[h].Used? {
        forall x: nat ensures Home(m', lists, x) { assert Home(m, lists, x); }
        ListsHoldAllFree(m', lists);
        forall x | OnList(lists, x) ensures BlockLen(m, x) == BlockLen(m', x) { assert Home(m, lists, x); }
        ListTotalFrame(m, m', lists);
      } else {
        var i := FlIndex(m[h].len);
        var k :| 0 <= k < |lists[i]| && lists[i][k] == h;
        var lists' := lists[i := Without(lists[i], k)];
        WithoutMembers(lists[i], k);
        WithoutDistinct(lists[i], k);
        forall x: nat ensures Home(m', lists', x) { assert Home(m, lists, x); }
        ListsHoldAllFree(m', lists');
        forall x | OnList(lists', x) ensures BlockLen(m, x) == BlockLen(m', x) { assert Home(m', lists', x); }
        ListTotalFrame(m, m', lists');
        ListTotalUpdate(m, lists, i, Without(lists[i], k));
        ListLenAt(m, lists[i], k);
      }
    }
  }

  lemma OffList(m: Hdrs, lists: seq<seq<nat>>, bytes: seq<nat>, odd: set<nat>, h: nat)
    requires Listed(m, lists, bytes, odd) && !IsFree(m, h) && h !in odd
    ensures !OnList(lists, h)
  {
    assert Home(m, lists, h);
  }

  lemma LenOnList(m: Hdrs, lists: seq<seq<nat>>, bytes: seq<nat>, odd: set<nat>, i: nat, k: nat)
    requires Listed(m, lists, bytes, odd) && i <= N_HBLK_FLS && k < |lists[i]|
    ensures BlockLen(m, lists[i][k]) <= bytes[i]
  {
    ListLenAt(m, lists[i], k);
  }
}
