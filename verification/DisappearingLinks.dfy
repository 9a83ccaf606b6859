/** The disappearing-link tables: every operation has the effect of the same operation on a
    map from links to objects. */
module DisappearingLinks {
  import opened HashChains
  import opened Lists

  datatype Status = Success | Duplicate | NoMemory | NotFound | Unimplemented

  /** The entries `nodes` stand for the map `model`, one entry for each link. */
  ghost predicate Stands(key: map<nat, nat>, val: map<nat, nat>, nodes: set<nat>, model: map<nat, nat>) {
    && (forall n :: n in nodes ==> n in key && n in val && key[n] in model && model[key[n]] == val[n])
    && (forall n, m :: n in nodes && m in nodes && n in key && m in key && key[n] == key[m] ==> n == m)
    && (forall k :: k in model ==> Named(key, nodes, k))
  }

  ghost predicate Named(key: map<nat, nat>, nodes: set<nat>, k: nat) {
    exists n :: n in nodes && n in key && key[n] == k
  }

  lemma StandsAdd(key: map<nat, nat>, val: map<nat, nat>, nodes: set<nat>, model: map<nat, nat>, n: nat, k: nat, v: nat)
    requires Stands(key, val, nodes, model) && n !in nodes && k !in model
    ensures Stands(key[n := k], val[n := v], nodes + {n}, model[k := v])
  {
    var key' := key[n := k];
    forall j | j in model[k := v] ensures Named(key', nodes + {n}, j) {
      if j == k {
        assert n in nodes + {n} && key'[n] == k;
      } else {
        var m :| m in nodes && m in key && key[m] == j;
        assert m in nodes + {n} && key'[m] == j;
      }
    }
  }

  lemma StandsRemove(key: map<nat, nat>, val: map<nat, nat>, nodes: set<nat>, model: map<nat, nat>, n: nat)
    requires Stands(key, val, nodes, model) && n in nodes
    ensures n in key && key[n] in model && Stands(key, val, nodes - {n}, model - {key[n]})
    ensures |model - {key[n]}| == |model| - 1
  {
    var k := key[n];
    forall j | j in model - {k} ensures Named(key, nodes - {n}, j) {
      var m :| m in nodes && m in key && key[m] == j;
      assert m in nodes - {n};
    }
    assert (model - {k}).Keys == model.Keys - {k};
    assert |(model - {k}).Keys| == |model - {k}| && |model.Keys| == |model|;
  }

  lemma StandsUpdate(key: map<nat, nat>, val: map<nat, nat>, nodes: set<nat>, model: map<nat, nat>, n: nat, v: nat)
    requires Stands(key, val, nodes, model) && n in nodes
    ensures n in key && key[n] in model && Stands(key, val[n := v], nodes, model[key[n] := v])
    ensures |model[key[n] := v]| == |model|
  {
    forall j | j in model[key[n] := v] ensures Named(key, nodes, j) {}
    assert model[key[n] := v].Keys == model.Keys;
    assert |model[key[n] := v].Keys| == |model[key[n] := v]| && |model.Keys| == |model|;
  }

  /** The links of the map whose entries satisfy `dead`. */
  ghost function Dead(model: map<nat, nat>, dead: (nat, nat) -> bool): set<nat> {
    set k | k in model && dead(k, model[k])
  }

  class LinkTable {
    const t: Table<nat>
    const findLeak: bool
    ghost var model: map<nat, nat>

    ghost predicate Valid()
      reads this, t, t.heads
    {
      t.Valid() && Stands(t.key, t.val, t.nodes, model) && t.entries == |model|
    }

    constructor (findLeak: bool)
      ensures Valid() && model == map[] && fresh(t) && fresh(t.heads) && this.findLeak == findLeak
    {
      t := new Table<nat>();
      this.findLeak := findLeak;
      model := map[];
    }

    /** GC_register_disappearing_link_inner.  `room` and `node` are the answers of the
        allocator for a larger table and for the new entry. */
    method Register(link: nat, obj: nat, room: bool, node: nat) returns (r: Status)
      requires Valid() && (room ==> t.logSize < MAX_LOG) && (t.logSize == -1 ==> room || findLeak)
      requires node == 0 || node !in t.nodes
      modifies this`model, t, t.heads
      ensures Valid() && (t.heads == old(t.heads) || fresh(t.heads))
      ensures r == if findLeak then Unimplemented else if link in old(model) then Duplicate
                   else if node == 0 then NoMemory else Success
      ensures model == if r == Success || r == Duplicate then old(model)[link := obj] else old(model)
      ensures
        t.logSize == old(t.logSize) +
          if room && !findLeak && (old(t.logSize) == -1 || |old(model)| > Pow2(old(t.logSize))) then 1 else 0
    {
      hide Stands, Hash, Placed, Chain, Pow2, SameOutside;
      if findLeak { return Unimplemented; }
      if t.logSize == -1 || t.entries > Pow2(t.logSize) {
        t.Grow(room);
      }
      r := Enter(link, obj, node);
    }

    /** The search and the insertion once the table is large enough. */
    method Enter(link: nat, obj: nat, node: nat) returns (r: Status)
      requires Valid() && t.logSize >= 0
      requires node == 0 || node !in t.nodes
      modifies this`model, t, t.heads
      ensures Valid() && t.heads == old(t.heads) && t.logSize == old(t.logSize)
      ensures r == if link in old(model) then Duplicate else if node == 0 then NoMemory else Success
      ensures model == if r != NoMemory then old(model)[link := obj] else old(model)
    {
      hide Stands, Hash, Placed, Chain, Pow2, SameOutside;
      var index, prev, curr; ghost var pos;
      index, prev, curr, pos := t.Find(link);
      Present(link, curr);
      if curr != 0 {
        StandsUpdate(t.key, t.val, t.nodes, model, curr, obj);
        t.val := t.val[curr := obj];
        model := model[link := obj];
        return Duplicate;
      }
      if node == 0 { return NoMemory; }
      StandsAdd(t.key, t.val, t.nodes, model, node, link, obj);
      t.LinkIn(index, node, link, obj);
      t.entries := t.entries + 1;
      model := model[link := obj];
      return Success;
    }

    /** A search finds an entry exactly when the map has the link. */
    lemma Present(link: nat, curr: nat)
      requires Stands(t.key, t.val, t.nodes, model)
      requires curr != 0 ==> curr in t.nodes && curr in t.key && t.key[curr] == link
      requires curr == 0 ==> forall n :: n in t.nodes ==> n in t.key && t.key[n] != link
      ensures curr != 0 <==> link in model
      ensures curr != 0 ==> curr in t.val && model[link] == t.val[curr]
    {
      if link in model { assert Named(t.key, t.nodes, link); }
    }

    /** GC_unregister_disappearing_link_inner: the entry to free, or 0. */
    method Unregister(link: nat) returns (curr: nat)
      requires Valid()
      modifies this`model, t, t.heads
      ensures Valid() && t.heads == old(t.heads)
      ensures curr != 0 <==> link in old(model)
      ensures model == old(model) - {link}
      ensures curr !in t.nodes
    {
      hide Stands, Hash, Placed, Chain, Pow2;
      if t.logSize == -1 {
        NoNodes();
        return 0;
      }
      var index, prev; ghost var pos;
      index, prev, curr, pos := t.Find(link);
      Present(link, curr);
      if curr != 0 {
        Delete(index, prev, curr, pos);
      } else {
        assert model - {link} == model;
        NullIsNone();
      }
    }

    lemma NullIsNone()
      requires Valid()
      ensures 0 !in t.nodes
    {
      t.NullIsNone();
    }

    lemma NoNodes()
      requires Valid() && t.logSize == -1
      ensures model == map[] && t.nodes == {}
    {
      t.NoneYet();
    }

    /** GC_move_disappearing_link_inner */
    method Move(link: nat, newLink: nat) returns (r: Status)
      requires Valid()
      modifies this`model, t, t.heads
      ensures Valid() && t.heads == old(t.heads)
      ensures r == if link !in old(model) then NotFound
                   else if link != newLink && newLink in old(model) then Duplicate
                   else Success
      ensures model == if r == Success then (old(model) - {link})[newLink := old(model)[link]] else old(model)
    {
      hide Stands, Hash, Placed, Chain, Pow2, SameOutside;
      if t.logSize == -1 {
        NoNodes();
        return NotFound;
      }
      var index, prev, curr; ghost var pos;
      index, prev, curr, pos := t.Find(link);
      Present(link, curr);
      if curr == 0 { return NotFound; }
      if link == newLink {
        assert (model - {link})[newLink := model[link]] == model;
        return Success;
      }
      var newIndex, newPrev, newCurr; ghost var newPos;
      newIndex, newPrev, newCurr, newPos := t.Find(newLink);
      Present(newLink, newCurr);
      if newCurr != 0 { return Duplicate; }
      Rename(index, prev, curr, pos, newIndex, newLink);
      return Success;
    }

    /** A found entry leaves its chain and joins the one of its new link. */
    method Rename(index: nat, prev: nat, curr: nat, ghost pos: nat, newIndex: nat, newLink: nat)
      requires Valid() && index < |t.chains| && pos < |t.chains[index]| && t.logSize >= 0
      requires curr == t.chains[index][pos] && prev == Item(t.chains[index], pos - 1)
      requires curr in t.nodes && curr in t.key && newIndex == Hash(newLink, t.logSize) && newLink !in model
      modifies this`model, t, t.heads
      ensures Valid() && t.heads == old(t.heads) && old(t.key)[curr] in old(model)
      ensures var link := old(t.key)[curr]; model == (old(model) - {link})[newLink := old(model)[link]]
    {
      hide Stands, Hash, Placed, Chain, Pow2, SameOutside;
      NodeModel(curr);
      t.NodeFacts(curr);
      ghost var link := t.key[curr];
      var v := t.val[curr];
      t.Unlink(index, prev, curr, pos);
      StandsRemove(t.key, t.val, old(t.nodes), model, curr);
      StandsAdd(t.key, t.val, t.nodes, model - {link}, curr, newLink, v);
      t.LinkIn(newIndex, curr, newLink, v);
      model := (model - {link})[newLink := v];
    }

    /** Taking a found entry out of the table. */
    method Delete(index: nat, prev: nat, curr: nat, ghost pos: nat)
      requires Valid() && index < |t.chains| && pos < |t.chains[index]|
      requires curr == t.chains[index][pos] && prev == Item(t.chains[index], pos - 1)
      requires curr in t.nodes && curr in t.key
      modifies this`model, t`next, t`chains, t`nodes, t`entries, t.heads
      ensures Valid() && t.key[curr] in old(model) && model == old(model) - {t.key[curr]}
      ensures t.nodes == old(t.nodes) - {curr}
      ensures t.chains == old(t.chains)[index := Without(old(t.chains)[index], pos)]
    {
      hide Stands, Hash, Placed, Chain, Pow2, SameOutside;
      ghost var k := t.key[curr];
      t.Unlink(index, prev, curr, pos);
      StandsRemove(t.key, t.val, old(t.nodes), model, curr);
      t.entries := t.entries - 1;
      model := model - {k};
    }

    /** The passes over all entries: those that satisfy `dead` are deleted.  Returns the
        links of the deleted entries. */
    method Sweep(dead: (nat, nat) -> bool) returns (removed: set<nat>)
      requires Valid()
      modifies this`model, t, t.heads
      ensures Valid() && t.heads == old(t.heads)
      ensures removed == Dead(old(model), dead)
      ensures model == old(model) - removed
    {
      hide Stands, Hash, Placed, Chain, Pow2, Dead, SameOutside, Spared, Gone;
      removed := {};
      ghost var model0 := model;
      assert model == model0 - removed;
      GoneNone(model0, dead);
      var i := 0;
      t.Buckets();
      while i < t.heads.Length
        invariant Valid() && t.heads == old(t.heads) && t.logSize == old(t.logSize) &&
          0 <= i <= t.heads.Length == |t.chains|
        invariant model == model0 - removed && Gone(model0, removed, dead)
        invariant forall j, n :: 0 <= j < i && n in t.chains[j] ==> Spared(t.key, t.val, n, dead)
      {
        ghost var chains0 := t.chains;
        var more := SweepBucket(i, dead);
        GoneUnion(model0, removed, more, dead);
        removed := removed + more;
        t.Buckets();
        i := i + 1;
      }
      AllSpared(model0, removed, dead);
    }

    /** One chain of Sweep. */
    method SweepBucket(i: nat, dead: (nat, nat) -> bool) returns (removed: set<nat>)
      requires Valid() && i < t.heads.Length == |t.chains|
      modifies this`model, t`next, t`chains, t`nodes, t`entries, t.heads
      ensures Valid() && Gone(old(model), removed, dead) && model == old(model) - removed
      ensures |t.chains| == |old(t.chains)| && forall j :: 0 <= j < |t.chains| && j != i ==>
        t.chains[j] == old(t.chains)[j]
      ensures forall n :: n in t.chains[i] ==> Spared(t.key, t.val, n, dead)
    {
      hide Stands, Hash, Placed, Chain, Pow2, SameOutside, Spared, Gone, Valid, Table.Ordered;
      TableOrdered();
      removed := {};
      ghost var model0 := model;
      assert model == model0 - removed;
      GoneNone(model0, dead);
      t.ChainFacts(i, 0);
      var prev, curr := 0, t.heads[i];
      ghost var pos := 0;
      while curr != 0
        invariant Valid() && i < t.heads.Length == |t.chains|
        invariant |t.chains| == |old(t.chains)|
        invariant forall j :: 0 <= j < |t.chains| && j != i ==> t.chains[j] == old(t.chains)[j]
        invariant model == model0 - removed && Gone(model0, removed, dead)
        invariant pos <= |t.chains[i]| && curr == Item(t.chains[i], pos) && prev == Item(t.chains[i], pos - 1)
        invariant forall n :: n in t.chains[i][..pos] ==> Spared(t.key, t.val, n, dead)
        decreases |t.chains[i]| - pos
      {
        TableOrdered();
        t.ChainFacts(i, pos);
        NodeModel(curr);
        var k, follow := t.key[curr], t.next[curr];
        ghost var list := t.chains[i];
        assert pos < |list| && list[pos] == curr;
        if dead(k, t.val[curr]) {
          GoneOne(model, k, dead);
          GoneUnion(model0, removed, {k}, dead);
          Delete(i, prev, curr, pos);
          assert t.chains[i][..pos] == list[..pos];
          removed := removed + {k};
          curr := follow;
        } else {
          IsSpared(t.key, t.val, curr, dead);
          assert list[..pos + 1] == list[..pos] + [curr];
          prev := curr;
          curr := follow;
          pos := pos + 1;
        }
      }
      TableOrdered();
      t.ChainFacts(i, pos);
      assert t.chains[i][..pos] == t.chains[i];
    }

    lemma TableOrdered()
      requires Valid()
      ensures t.Ordered()
    {
    }

    lemma NodeModel(n: nat)
      requires Valid() && n in t.nodes
      ensures n in t.key && n in t.val && t.key[n] in model && model[t.key[n]] == t.val[n]
    {
    }

    lemma AllSpared(model0: map<nat, nat>, removed: set<nat>, dead: (nat, nat) -> bool)
      requires Valid() && model == model0 - removed && Gone(model0, removed, dead)
      requires forall j, n :: 0 <= j < |t.chains| && n in t.chains[j] ==> Spared(t.key, t.val, n, dead)
      ensures removed == Dead(model0, dead)
    {
      hide Hash, Pow2, Placed;
      forall k | k in model ensures !dead(k, model[k]) {
        assert Named(t.key, t.nodes, k);
        var n :| n in t.nodes && n in t.key && t.key[n] == k;
        t.NodeFacts(n);
        t.Buckets();
        assert Spared(t.key, t.val, n, dead);
      }
      forall k ensures k in removed <==> k in Dead(model0, dead) {
        assert k in model0 && k !in removed ==> k in model;
      }
    }

    /** GC_make_disappearing_links_disappear: the links returned are the ones set to null. */
    method MakeDisappear(marked: set<nat>) returns (zeroed: set<nat>)
      requires Valid()
      modifies this`model, t, t.heads
      ensures Valid() && t.heads == old(t.heads)
      ensures forall k :: k in zeroed <==> k in old(model) && old(model)[k] !in marked
      ensures forall k :: k in model <==> k in old(model) && old(model)[k] in marked
      ensures forall k :: k in model ==> model[k] == old(model)[k]
    {
      hide Stands, Hash, Placed, Chain, Pow2;
      zeroed := Sweep((link: nat, obj: nat) => obj !in marked);
    }

    /** GC_remove_dangling_disappearing_links: entries whose link lies in an unmarked object
        are deleted.  `base` gives the object around an address, or 0. */
    method RemoveDangling(base: nat -> nat, marked: set<nat>)
      requires Valid()
      modifies this`model, t, t.heads
      ensures Valid() && t.heads == old(t.heads)
      ensures forall k :: k in model <==> k in old(model) && (base(k) == 0 || base(k) in marked)
      ensures forall k :: k in model ==> model[k] == old(model)[k]
    {
      hide Stands, Hash, Placed, Chain, Pow2;
      var removed := Sweep((link: nat, obj: nat) => base(link) != 0 && base(link) !in marked);
    }
  }

  ghost predicate Gone(model: map<nat, nat>, removed: set<nat>, dead: (nat, nat) -> bool) {
    forall k :: k in removed ==> k in model && dead(k, model[k])
  }

  lemma GoneNone(model: map<nat, nat>, dead: (nat, nat) -> bool)
    ensures Gone(model, {}, dead)
  {
  }

  lemma GoneOne(model: map<nat, nat>, k: nat, dead: (nat, nat) -> bool)
    requires k in model && dead(k, model[k])
    ensures Gone(model, {k}, dead)
  {
  }

  lemma GoneUnion(model: map<nat, nat>, removed: set<nat>, more: set<nat>, dead: (nat, nat) -> bool)
    requires Gone(model, removed, dead) && Gone(model - removed, more, dead)
    ensures Gone(model, removed + more, dead)
    ensures model - removed - more == model - (removed + more)
  {
  }

  lemma IsSpared(key: map<nat, nat>, val: map<nat, nat>, n: nat, dead: (nat, nat) -> bool)
    requires n in key && n in val && !dead(key[n], val[n])
    ensures Spared(key, val, n, dead)
  {
  }

  ghost predicate Spared(key: map<nat, nat>, val: map<nat, nat>, n: nat, dead: (nat, nat) -> bool) {
    n in key && n in val && !dead(key[n], val[n])
  }
}
