/** Doubly linked lists of blocks threaded through the hb_next and hb_prev fields of their
    headers.  Block number 0 stands for the null pointer. */
module FreeList {
  import opened Lists

  type Links = map<nat, nat>

  /** The links of the element at position `k` lead to its neighbours. */
  ghost predicate At(next: Links, prev: Links, list: seq<nat>, k: nat)
    requires k < |list|
  {
    && list[k] != 0 && list[k] in next && list[k] in prev
    && next[list[k]] == (if k + 1 < |list| then list[k + 1] else 0)
    && prev[list[k]] == (if k > 0 then list[k - 1] else 0)
  }

  /** The list that starts at `head` is exactly `list`, linked both ways. */
  ghost predicate Linked(head: nat, next: Links, prev: Links, list: seq<nat>) {
    && head == (if list == [] then 0 else list[0])
    && (forall k :: 0 <= k < |list| ==> At(next, prev, list, k))
    && Distinct(list)
  }

  function Put(list: seq<nat>, k: nat, n: nat): seq<nat>
    requires k < |list|
  {
    list[k := n]
  }

  /** Taking out the element at position `k` by relinking its neighbours. */
  lemma Unlink(head: nat, next: Links, prev: Links, list: seq<nat>, k: nat)
    requires Linked(head, next, prev, list) && k < |list|
    ensures At(next, prev, list, k)
    ensures
      var h := list[k];
      var head' := if prev[h] == 0 then next[h] else head;
      var next' := if prev[h] == 0 then next else next[prev[h] := next[h]];
      var prev' := if next[h] == 0 then prev else prev[next[h] := prev[h]];
      Linked(head', next', prev', Without(list, k))
  {
    var h, r := list[k], Without(list, k);
    assert At(next, prev, list, k);
    var next' := if prev[h] == 0 then next else next[prev[h] := next[h]];
    var prev' := if next[h] == 0 then prev else prev[next[h] := prev[h]];
    assert k > 0 ==> At(next, prev, list, k - 1);
    assert k + 1 < |list| ==> At(next, prev, list, k + 1);
    forall j | 0 <= j < |r| ensures At(next', prev', r, j) {
      var i := if j < k then j else j + 1;
      assert At(next, prev, list, i) && r[j] == list[i];
      assert i > 0 ==> list[i - 1] == if j == k then h else r[j - 1];
      assert i + 1 < |list| ==> list[i + 1] == if j + 1 == k then h else r[j + 1];
    }
  }

  /** Putting `h` in front. */
  lemma LinkFront(head: nat, next: Links, prev: Links, list: seq<nat>, h: nat)
    requires Linked(head, next, prev, list) && h != 0 && h !in list
    ensures
      var next' := next[h := head];
      var prev' := if head == 0 then prev[h := 0] else prev[h := 0][head := h];
      Linked(h, next', prev', [h] + list)
  {
    var next' := next[h := head];
    var prev' := if head == 0 then prev[h := 0] else prev[h := 0][head := h];
    var r := [h] + list;
    assert list != [] ==> At(next, prev, list, 0);
    forall j | 0 <= j < |r| ensures At(next', prev', r, j) {
      if j > 0 { assert At(next, prev, list, j - 1) && r[j] == list[j - 1]; }
    }
  }

  /** Putting `n` in the place of the element at position `k`. */
  lemma Replace(head: nat, next: Links, prev: Links, list: seq<nat>, k: nat, n: nat)
    requires Linked(head, next, prev, list) && k < |list| && n != 0 && n !in list
    ensures At(next, prev, list, k)
    ensures
      var h := list[k];
      var head' := if prev[h] == 0 then n else head;
      var next1 := next[n := next[h]];
      var prev1 := prev[n := prev[h]];
      var next' := if prev[h] == 0 then next1 else next1[prev[h] := n];
      var prev' := if next[h] == 0 then prev1 else prev1[next[h] := n];
      Linked(head', next', prev', Put(list, k, n))
  {
    var h, r := list[k], Put(list, k, n);
    assert At(next, prev, list, k);
    var next1 := next[n := next[h]];
    var prev1 := prev[n := prev[h]];
    var next' := if prev[h] == 0 then next1 else next1[prev[h] := n];
    var prev' := if next[h] == 0 then prev1 else prev1[next[h] := n];
    assert k > 0 ==> At(next, prev, list, k - 1);
    assert k + 1 < |list| ==> At(next, prev, list, k + 1);
    forall j | 0 <= j < |r| ensures At(next', prev', r, j) {
      assert At(next, prev, list, j);
    }
  }

  /** A list whose own links did not change is still a list. */
  lemma Unchanged(head: nat, next: Links, prev: Links, next': Links, prev': Links, list: seq<nat>)
    requires Linked(head, next, prev, list)
    requires forall h :: h in list ==>
      h in next' && h in prev' && h in next && h in prev && next'[h] == next[h] && prev'[h] == prev[h]
    ensures Linked(head, next', prev', list)
  {
    forall k | 0 <= k < |list| ensures At(next', prev', list, k) {
      assert At(next, prev, list, k) && list[k] in list;
    }
  }

  const UNIQUE_THRESHOLD := 32
  const HUGE_THRESHOLD := 256
  const FL_COMPRESSION := 8
  const N_HBLK_FLS := (HUGE_THRESHOLD - UNIQUE_THRESHOLD) / FL_COMPRESSION + UNIQUE_THRESHOLD

  /** GC_hblk_fl_from_blocks: the list for free blocks of this length. */
  function FlIndex(blocks: nat): (i: nat)
    ensures i <= N_HBLK_FLS
  {
    if blocks <= UNIQUE_THRESHOLD then blocks
    else if blocks >= HUGE_THRESHOLD then N_HBLK_FLS
    else (blocks - UNIQUE_THRESHOLD) / FL_COMPRESSION + UNIQUE_THRESHOLD
  }

  lemma FlIndexMonotone(a: nat, b: nat)
    requires a <= b
    ensures FlIndex(a) <= FlIndex(b)
    ensures a < b && a < UNIQUE_THRESHOLD ==> FlIndex(a) < FlIndex(b)
  {
  }

  /** No block is on two lists. */
  ghost predicate Separate(lists: seq<seq<nat>>) {
    forall i, j, h :: 0 <= i < |lists| && 0 <= j < |lists| && h in lists[i] && h in lists[j] ==> i == j
  }

  ghost predicate OnList(lists: seq<seq<nat>>, h: nat) {
    exists i :: 0 <= i < |lists| && h in lists[i]
  }

  /** The free lists: GC_hblkfreelist, GC_free_bytes (in blocks) and the header links. */
  class FreeLists {
    const heads: array<nat>
    const bytes: array<nat>
    var next: Links
    var prev: Links
    ghost var lists: seq<seq<nat>>

    ghost predicate Valid()
      reads this, heads, bytes
    {
      && heads != bytes
      && heads.Length == bytes.Length == |lists| == N_HBLK_FLS + 1
      && (forall i :: 0 <= i < |lists| ==> Linked(heads[i], next, prev, lists[i]))
      && Separate(lists)
    }

    constructor ()
      ensures Valid() && fresh(heads) && fresh(bytes)
      ensures forall i :: 0 <= i < |lists| ==> lists[i] == [] && bytes[i] == 0
    {
      heads := new nat[N_HBLK_FLS + 1](_ => 0);
      bytes := new nat[N_HBLK_FLS + 1](_ => 0);
      next, prev := map[], map[];
      lists := seq(N_HBLK_FLS + 1, _ => []);
    }

    /** GC_remove_from_fl_at */
    method RemoveAt(h: nat, len: nat, index: nat, ghost k: nat)
      requires Valid() && index < |lists| && k < |lists[index]| && lists[index][k] == h && len <= bytes[index]
      modifies this, heads, bytes
      ensures Valid()
      ensures lists == old(lists)[index := Without(old(lists)[index], k)]
      ensures bytes[..] == old(bytes[..])[index := old(bytes[index]) - len]
    {
      hide Linked, At, Distinct;
      Unlink(heads[index], next, prev, lists[index], k);
      Neighbours(heads[index], next, prev, lists[index], k);
      ghost var next0, prev0 := next, prev;
      if prev[h] == 0 {
        heads[index] := next[h];
      } else {
        next := next[prev[h] := next[h]];
      }
      bytes[index] := bytes[index] - len;
      if next[h] != 0 {
        prev := prev[next[h] := prev[h]];
      }
      OthersUnchanged(old(heads[..]), next0, prev0, next, prev, lists, index);
      SeparateUpdate(lists, index, Without(lists[index], k));
      lists := lists[index := Without(lists[index], k)];
      assert heads[..] == old(heads[..])[index := heads[index]];
    }

    /** GC_add_to_fl */
    method AddFront(h: nat, len: nat, index: nat)
      requires Valid() && index < |lists| && h != 0 && !OnList(lists, h)
      modifies this, heads, bytes
      ensures Valid()
      ensures lists == old(lists)[index := [h] + old(lists)[index]]
      ensures bytes[..] == old(bytes[..])[index := old(bytes[index]) + len]
    {
      hide Linked, At, Distinct;
      LinkFront(heads[index], next, prev, lists[index], h);
      HeadIn(heads[index], next, prev, lists[index]);
      ghost var next0, prev0 := next, prev;
      var second := heads[index];
      heads[index] := h;
      bytes[index] := bytes[index] + len;
      next := next[h := second];
      prev := prev[h := 0];
      if second != 0 {
        prev := prev[second := h];
      }
      OthersUnchanged(old(heads[..]), next0, prev0, next, prev, lists, index);
      SeparateUpdate(lists, index, [h] + lists[index]);
      lists := lists[index := [h] + lists[index]];
      assert heads[..] == old(heads[..])[index := heads[index]];
    }

    /** The list surgery of GC_split_block: `n` takes the place of `h` on its list. */
    method ReplaceAt(h: nat, n: nat, less: nat, index: nat, ghost k: nat)
      requires Valid() && index < |lists| && k < |lists[index]| && lists[index][k] == h && less <= bytes[index]
      requires n != 0 && !OnList(lists, n)
      modifies this, heads, bytes
      ensures Valid()
      ensures lists == old(lists)[index := Put(old(lists)[index], k, n)]
      ensures bytes[..] == old(bytes[..])[index := old(bytes[index]) - less]
    {
      hide Linked, At, Distinct;
      Replace(heads[index], next, prev, lists[index], k, n);
      Neighbours(heads[index], next, prev, lists[index], k);
      ghost var next0, prev0 := next, prev;
      var before, after := prev[h], next[h];
      prev := prev[n := before];
      next := next[n := after];
      if before != 0 {
        next := next[before := n];
      } else {
        heads[index] := n;
      }
      if after != 0 {
        prev := prev[after := n];
      }
      bytes[index] := bytes[index] - less;
      OthersUnchanged(old(heads[..]), next0, prev0, next, prev, lists, index);
      SeparateUpdate(lists, index, Put(lists[index], k, n));
      lists := lists[index := Put(lists[index], k, n)];
      assert heads[..] == old(heads[..])[index := heads[index]];
    }
  }

  /** The neighbours of an element are in the same list. */
  lemma Neighbours(head: nat, next: Links, prev: Links, list: seq<nat>, k: nat)
    requires Linked(head, next, prev, list) && k < |list|
    ensures list[k] in next && list[k] in prev
    ensures prev[list[k]] != 0 ==> prev[list[k]] in list
    ensures next[list[k]] != 0 ==> next[list[k]] in list
    ensures prev[list[k]] != list[k] && next[list[k]] != list[k]
  {
    assert At(next, prev, list, k);
  }

  lemma HeadIn(head: nat, next: Links, prev: Links, list: seq<nat>)
    requires Linked(head, next, prev, list)
    ensures head != 0 ==> head in list
  {
  }

  /** Lists other than the one at `index` are untouched by changes confined to it. */
  lemma OthersUnchanged(heads: seq<nat>, next: Links, prev: Links, next': Links, prev': Links,
                        lists: seq<seq<nat>>, index: nat)
    requires |heads| == |lists| && index < |lists| && Separate(lists)
    requires forall i :: 0 <= i < |lists| ==> Linked(heads[i], next, prev, lists[i])
    requires forall x :: x in next && x !in lists[index] && OnList(lists, x) ==> x in next' && next'[x] == next[x]
    requires forall x :: x in prev && x !in lists[index] && OnList(lists, x) ==> x in prev' && prev'[x] == prev[x]
    ensures forall i :: 0 <= i < |lists| && i != index ==> Linked(heads[i], next', prev', lists[i])
  {
    forall i | 0 <= i < |lists| && i != index ensures Linked(heads[i], next', prev', lists[i]) {
      forall x | x in lists[i]
        ensures x in next' && x in prev' && x in next && x in prev && next'[x] == next[x] && prev'[x] == prev[x] {
        var k :| 0 <= k < |lists[i]| && lists[i][k] == x;
        Neighbours(heads[i], next, prev, lists[i], k);
        assert OnList(lists, x);
      }
      Unchanged(heads[i], next, prev, next', prev', lists[i]);
    }
  }

  /** Replacing one list by another with no members from elsewhere keeps lists separate. */
  lemma SeparateUpdate(lists: seq<seq<nat>>, index: nat, list: seq<nat>)
    requires Separate(lists) && index < |lists|
    requires forall x :: x in list ==> x in lists[index] || !OnList(lists, x)
    ensures Separate(lists[index := list])
  {
    var lists' := lists[index := list];
    forall i, j, h | 0 <= i < |lists'| && 0 <= j < |lists'| && h in lists'[i] && h in lists'[j] ensures i == j {
      if i == index && j != index && h !in lists[index] { assert OnList(lists, h); }
      if j == index && i != index && h !in lists[index] { assert OnList(lists, h); }
    }
  }
}
