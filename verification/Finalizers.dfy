/** Finalization: the table of finalizable objects, the queue of those ready to be
    finalized, and the passes that move entries between them. */
module Finalizers {
  import opened HashChains
  import opened Lists
  import opened EntryWords
  import KeptObjects
  import MarkHeap
  import Marker
  import MarkRun

  /** The mark procedures that decide the order of finalization. */
  datatype MarkProc = NormalProc | NullProc | UnreachableProc

  datatype Fo = Fo(fn: nat, cd: nat, size: nat, proc: MarkProc)

  const FO_BYTES := 48
  const WORD_LIMIT := 0x1_0000_0000_0000_0000

  type Word = w: nat | w < WORD_LIMIT

  /** Addition that wraps around. */
  function Plus(w: Word, n: nat): Word {
    (w + n) % WORD_LIMIT
  }

  lemma PlusTwice(w: Word, a: nat, b: nat)
    ensures Plus(w, 0) == w && Plus(Plus(w, a), b) == Plus(w, b + a)
  {
  }

  /** Subtraction that wraps around. */
  function Minus(w: Word, n: nat): Word {
    (w - n) % WORD_LIMIT
  }

  lemma MinusTwice(w: Word, a: nat, b: nat)
    ensures Minus(w, 0) == w && Minus(Minus(w, a), b) == Minus(w, b + a)
  {
  }

  /** The entries of all chains, chain by chain. */
  ghost function Flat(chains: seq<seq<nat>>): seq<nat> {
    if chains == [] then [] else Flat(chains[..|chains| - 1]) + chains[|chains| - 1]
  }

  lemma FlatNone(chains: seq<seq<nat>>)
    ensures Flat(chains[..0]) == []
  {
  }

  lemma {:induction false} FlatHas(chains: seq<seq<nat>>, i: nat, n: nat)
    requires i < |chains| && n in chains[i]
    ensures n in Flat(chains)
    decreases |chains|
  {
    if i < |chains| - 1 { FlatHas(chains[..|chains| - 1], i, n); }
  }

  /** What comes first in the order of the chains. */
  lemma FlatPart(chains: seq<seq<nat>>, i: nat, pos: nat)
    requires i < |chains| && pos <= |chains[i]|
    ensures Flat(chains[..i]) + chains[i][..0] == Flat(chains[..i])
    ensures pos == |chains[i]| ==> Flat(chains[..i]) + chains[i][..pos] == Flat(chains[..i + 1])
    ensures Flat(chains[..i]) + chains[i][..pos] <= Flat(chains)
    ensures pos < |chains[i]| ==>
      && Flat(chains[..i]) + chains[i][..pos] + [chains[i][pos]] == Flat(chains[..i]) + chains[i][..pos + 1]
      && Flat(chains[..i]) + chains[i][..pos] + [chains[i][pos]] <= Flat(chains)
  {
    assert chains[..i + 1][..i] == chains[..i];
    assert chains[i][..|chains[i]|] == chains[i];
    FlatPrefix(chains, i + 1);
    if pos < |chains[i]| { assert chains[i][..pos] + [chains[i][pos]] == chains[i][..pos + 1]; }
  }

  lemma {:induction false} FlatPrefix(chains: seq<seq<nat>>, i: nat)
    requires i <= |chains|
    ensures Flat(chains[..i]) <= Flat(chains)
    decreases |chains|
  {
    if i < |chains| {
      FlatPrefix(chains[..|chains| - 1], i);
      assert chains[..|chains| - 1][..i] == chains[..i];
    } else {
      assert chains[..i] == chains;
    }
  }

  lemma MembersNone()
    ensures Members([]) == {}
  {
  }

  lemma MembersOne(n: nat)
    ensures Members([n]) == {n}
  {
  }

  ghost predicate UniqueKeys(key: map<nat, nat>, nodes: set<nat>) {
    forall n, m :: n in nodes && m in nodes && n in key && m in key && key[n] == key[m] ==> n == m
  }

  ghost predicate HasKey(key: map<nat, nat>, nodes: set<nat>, k: nat) {
    exists n :: n in nodes && n in key && key[n] == k
  }

  /** The objects with an entry in the table. */
  ghost function Registered(key: map<nat, nat>, nodes: set<nat>): set<nat> {
    set n | n in nodes && n in key :: key[n]
  }

  /** The queue is linked from `now`, and no entry is both queued and in the table. */
  ghost predicate QueueOk(next: map<nat, nat>, key: map<nat, nat>, val: map<nat, Fo>, nodes: set<nat>, now: nat,
                          queue: seq<nat>) {
    && Chain(now, next, queue)
    && forall n :: n in queue ==> n !in nodes && n in key && n in val
  }

  /** What the entry adds to GC_bytes_finalized. */
  function Bytes(fo: Fo): nat {
    fo.size + FO_BYTES
  }

  ghost function TotalBytes(val: map<nat, Fo>, list: seq<nat>): nat {
    if list == [] then 0 else (if list[0] in val then Bytes(val[list[0]]) else 0) + TotalBytes(val, list[1..])
  }

  class Finalization {
    const t: Table<Fo>
    const mk: Marker.Marker
    const java: bool
    const findLeak: bool
    var now: nat
    var bytes: Word
    ghost var queue: seq<nat>

    ghost predicate Valid()
      reads this, t, t.heads
    {
      && t.Valid() && QueueOk(t.next, t.key, t.val, t.nodes, now, queue)
      && (queue != [] ==> t.logSize >= 0)
    }

    constructor (mk: Marker.Marker, java: bool, findLeak: bool)
      ensures Valid() && t.nodes == {} && queue == [] && fresh(t) && fresh(t.heads)
      ensures this.mk == mk && this.java == java && this.findLeak == findLeak && t.logSize == -1
    {
      t := new Table<Fo>();
      this.mk, this.java, this.findLeak := mk, java, findLeak;
      now, bytes, queue := 0, 0, [];
    }

    /** Nothing is being marked, and the entries are objects of the heap. */
    ghost predicate Still()
      reads this`queue, t`nodes, t`key, mk, mk.ms, mk.ms.buf
    {
      mk.Quiet() && Laid(mk.h, t.key, t.nodes, queue)
    }

    lemma StillFacts()
      requires Still()
      ensures mk.h.Valid() && mk.h.Apart()
      ensures forall n :: n in t.nodes || n in queue ==> n in t.key && n in mk.h.descr && t.key[n] in mk.h.descr
    {
      hide MarkHeap.Heap.Valid, MarkHeap.Heap.Apart;
      mk.QuietFacts();
    }

    lemma StartStill()
      requires mk.Quiet() && mk.h.Apart() && t.nodes == {} && queue == []
      ensures Still()
    {
    }

    /** The memory for a new entry is an object, and so is what has a header. */
    ghost predicate EntryFits(obj: nat, node: nat, inHeap: bool)
      reads mk`h
    {
      (inHeap ==> obj in mk.h.descr) && (node != 0 ==> node in mk.h.descr && mk.h.descr[node] > 0)
    }

    /** Heap `h` is the present one except that the words of `list` were hidden in it. */
    ghost predicate ShownSince(h: MarkHeap.Heap, list: seq<nat>)
      reads t`key, mk`h
    {
      Shown(h, mk.h, t.key, Members(list))
    }

    // ---------------------------------------------------------------- registering

    lemma TableOrdered()
      requires Valid()
      ensures t.Ordered()
    {
    }

    lemma DistinctQueue()
      requires Valid()
      ensures Distinct(queue)
    {
    }

    lemma QueueKept(next: map<nat, nat>)
      requires QueueOk(next, t.key, t.val, t.nodes, now, queue) && SameOutside(t.nodes, next, t.next)
      ensures QueueOk(t.next, t.key, t.val, t.nodes, now, queue)
    {
      QueueFrame(next, t.next, t.key, t.key, t.val, t.val, t.nodes, t.nodes, now, queue);
    }

    /** GC_register_finalizer_inner.  `fn == 0` asks for removal; `inHeap` tells whether the
        object has a header; `node` is the memory for a new entry.  Returns the replaced
        finalizer and its data, and the entry that was replaced or removed. */
    method Register(obj: nat, fn: nat, cd: nat, proc: MarkProc, room: bool, node: nat, inHeap: bool, size: nat)
      returns (was: (nat, nat), ghost hit: nat)
      requires Valid() && (room ==> t.logSize < MAX_LOG) && (t.logSize == -1 ==> room || findLeak)
      requires node == 0 || (node !in t.nodes && node !in queue && node < |mk.h.mem|)
      modifies t, t.heads, mk`h, mk`pushed, mk`considered, mk`dropped
      ensures Valid() && (t.heads == old(t.heads) || fresh(t.heads))
      ensures
        if !findLeak && hit == 0 && fn != 0 && inHeap && node != 0
        then node < |old(mk.h).mem| && mk.h == old(mk.h).Hidden(node) else mk.h == old(mk.h)
      ensures
        t.logSize == old(t.logSize) +
          if room && !findLeak && (old(t.logSize) == -1 || old(t.entries) > Pow2(old(t.logSize))) then 1 else 0
      ensures old(Still() && EntryFits(obj, node, inHeap)) ==> Still()
      ensures !findLeak ==> (hit != 0 <==> HasKey(old(t.key), old(t.nodes), obj))
      ensures RegisterEffect(obj, Fo(fn, cd, size, proc), !findLeak && inHeap && node != 0, node, hit, was,
                             old(t.key), old(t.val), old(t.nodes), t.key, t.val, t.nodes)
    {
      hide Hash, Placed, Chain, Pow2, SameOutside, QueueOk, HasKey, Laid, Marker.Marker.Quiet;
      was, hit := (0, 0), 0;
      if findLeak { return; }
      if t.logSize == -1 || t.entries > Pow2(t.logSize) {
        ghost var next := t.next;
        t.Grow(room);
        QueueKept(next);
      }
      was, hit := Enter(obj, Fo(fn, cd, size, proc), node, inHeap);
    }

    /** The search, then replacing, removing or adding the entry of `obj`. */
    method Enter(obj: nat, fo: Fo, node: nat, inHeap: bool) returns (was: (nat, nat), ghost hit: nat)
      requires Valid() && t.logSize >= 0
      requires node == 0 || (node !in t.nodes && node !in queue && node < |mk.h.mem|)
      modifies t, t.heads, mk`h, mk`pushed, mk`considered, mk`dropped
      ensures Valid() && t.heads == old(t.heads) && t.logSize == old(t.logSize)
      ensures
        if hit == 0 && fo.fn != 0 && inHeap && node != 0
        then node < |old(mk.h).mem| && mk.h == old(mk.h).Hidden(node) else mk.h == old(mk.h)
      ensures old(Still() && EntryFits(obj, node, inHeap)) ==> Still()
      ensures hit != 0 <==> HasKey(old(t.key), old(t.nodes), obj)
      ensures RegisterEffect(obj, fo, inHeap && node != 0, node, hit, was,
                             old(t.key), old(t.val), old(t.nodes), t.key, t.val, t.nodes)
    {
      hide Hash, Placed, Chain, Pow2, Marker.Marker.Quiet, Laid;
      var index, prev, curr; ghost var pos;
      index, prev, curr, pos := t.Find(obj);
      was, hit := (0, 0), curr;
      ghost var next0, key0, val0, nodes0 := t.next, t.key, t.val, t.nodes;
      if curr != 0 {
        t.NodeFacts(curr);
        LaidFewer(mk.h, t.key, t.nodes, t.nodes - {curr}, queue);
        was := (t.val[curr].fn, t.val[curr].cd);
        if fo.fn == 0 {
          t.Unlink(index, prev, curr, pos);
          t.entries := t.entries - 1;
          QueueFrame(next0, t.next, key0, t.key, val0, t.val, nodes0, t.nodes, now, queue);
        } else {
          // The source takes the entry out of its chain while it changes.
          t.val := t.val[curr := fo.(size := t.val[curr].size)];
          QueueFrame(next0, t.next, key0, t.key, val0, t.val, nodes0, t.nodes, now, queue);
        }
      } else if fo.fn != 0 && inHeap && node != 0 {
        Add(index, obj, fo, node, inHeap);
      }
    }

    /** A new entry is made: its first word hides its object. */
    method Add(index: nat, obj: nat, fo: Fo, node: nat, inHeap: bool)
      requires Valid() && t.logSize >= 0 && index == Hash(obj, t.logSize) && inHeap
      requires node != 0 && node !in t.nodes && node !in queue && node < |mk.h.mem|
      modifies t, t.heads, mk`h, mk`pushed, mk`considered, mk`dropped
      ensures Valid() && t.heads == old(t.heads) && t.logSize == old(t.logSize)
      ensures t.nodes == old(t.nodes) + {node} && t.key == old(t.key)[node := obj] && t.val == old(t.val)[node := fo]
      ensures mk.h == old(mk.h).Hidden(node)
      ensures old(Still() && EntryFits(obj, node, inHeap)) ==> Still()
    {
      hide Hash, Placed, Chain, Pow2, Marker.Marker.Quiet, Laid, MarkHeap.Heap.Valid;
      ghost var next0, key0, val0, nodes0 := t.next, t.key, t.val, t.nodes;
      if Still() && EntryFits(obj, node, inHeap) {
        mk.QuietFacts();
        LaidMore(mk.h, t.key, t.nodes, queue, node, obj);
      }
      mk.Hide(node);
      t.LinkIn(index, node, obj, fo);
      t.entries := t.entries + 1;
      QueueFrame(next0, t.next, key0, t.key, val0, t.val, nodes0, t.nodes, now, queue);
    }

    // ---------------------------------------------------------------- marking

    /** Marking is complete and the marks are closed; every entry is marked. */
    ghost predicate Marked()
      reads this, t, mk, mk.ms, mk.ms.buf
    {
      && mk.Inv() && mk.state == Marker.None && mk.ms.entries == []
      && Laid(mk.h, t.key, t.nodes, queue) && EntriesMarked()
    }

    ghost predicate EntriesMarked()
      reads this`queue, t`nodes, mk`marked
    {
      forall n :: n in t.nodes || n in queue ==> n in mk.marked
    }

    /** The first pass of GC_finalize: mark what registered objects lead to, but not the
        objects themselves.  `overflowed` are those from which marking overflowed the mark
        stack, and which were therefore marked themselves. */
    method MarkFromRegistered() returns (overflowed: set<nat>, aborted: bool)
      requires Valid() && Marked()
      modifies mk`state, mk`scanPtr, mk`tooSmall, mk`objectsMarked, mk`marked, mk`pushed, mk`considered, mk`dropped,
        mk`just, mk.ms, mk.ms.buf
      ensures mk.ms.buf == old(mk.ms.buf) || fresh(mk.ms.buf)
      ensures !aborted ==> Marked()
      ensures !aborted ==> overflowed <= Ordering(t.key, t.val, t.nodes) - old(mk.marked)
      ensures !aborted ==> mk.marked == old(mk.marked) + Reached(mk.h, Ordering(t.key, t.val, t.nodes)) + overflowed
      ensures Limits(mk.h, old(mk.ms.buf.Length), old(mk.marked), Ordering(t.key, t.val, t.nodes), overflowed, aborted)
      ensures overflowed == {} <==>
        !FirstOverruns(mk.h, old(mk.ms.buf.Length), t.key, t.val, old(mk.marked), Flat(t.chains))
      ensures !aborted ==> old(mk.ms.buf.Length) <= mk.ms.buf.Length
      ensures !aborted && overflowed == {} ==> mk.ms.buf.Length == old(mk.ms.buf.Length)
    {
      hide *;
      TableOrdered();
      overflowed, aborted := {}, false;
      ghost var m0, size, done := mk.marked, mk.ms.buf.Length, [];
      MarkedFacts();
      StartFirst(mk.h, size, t.key, t.val, m0, Ordering(t.key, t.val, t.nodes));
      MarkingAgain(size, m0, done, overflowed);
      t.Buckets();
      FlatNone(t.chains);
      var i := 0;
      while i < t.heads.Length
        invariant 0 <= i <= t.heads.Length == |t.chains| && (mk.ms.buf == old(mk.ms.buf) || fresh(mk.ms.buf))
        invariant Marking(size, m0, done, overflowed) && done == Flat(t.chains[..i])
      {
        MarkingFacts(size, m0, done, overflowed);
        t.ChainFacts(i, 0);
        var curr := t.heads[i];
        ghost var pos := 0;
        FlatPart(t.chains, i, 0);
        while curr != 0
          invariant pos <= |t.chains[i]| && curr == Item(t.chains[i], pos)
          invariant mk.ms.buf == old(mk.ms.buf) || fresh(mk.ms.buf)
          invariant Marking(size, m0, done, overflowed) && done == Flat(t.chains[..i]) + t.chains[i][..pos]
          decreases |t.chains[i]| - pos
        {
          MarkingFacts(size, m0, done, overflowed);
          AtChain(i, pos);
          FlatPart(t.chains, i, pos);
          var overflow;
          overflow, aborted := MarkOne(curr, size, m0, done, overflowed);
          overflowed := overflowed + if overflow then {t.key[curr]} else {};
          done := done + [curr];
          if aborted {
            AbortedFirst(mk.h, size, t.key, t.val, m0, done, Flat(t.chains));
            return;
          }
          curr := t.next[curr];
          pos := pos + 1;
        }
        MarkingFacts(size, m0, done, overflowed);
        AtChain(i, pos);
        FlatPart(t.chains, i, pos);
        i := i + 1;
      }
      MarkingFacts(size, m0, done, overflowed);
      AllSeen(done);
      EndFirst(mk.h, size, mk.ms.buf.Length, t.key, t.val, m0, done, overflowed, mk.marked,
        Ordering(t.key, t.val, t.nodes));
    }

    lemma AtChain(i: nat, pos: nat)
      requires t.Ordered() && i < |t.chains| && pos <= |t.chains[i]|
      ensures if pos < |t.chains[i]| then
          var n := t.chains[i][pos];
          && Item(t.chains[i], pos) == n && n != 0 && n in t.nodes && n in t.next && n in t.val && n in t.key
          && t.next[n] == Item(t.chains[i], pos + 1)
        else Item(t.chains[i], pos) == 0
    {
      hide Hash, Placed, Pow2;
      t.ChainFacts(i, pos);
      if pos < |t.chains[i]| { t.NodeFacts(t.chains[i][pos]); }
    }

    /** How far MarkFromRegistered has come: it has dealt with the entries in `done`. */
    ghost predicate Marking(size: nat, m0: set<nat>, done: seq<nat>, over: set<nat>)
      reads this, t, t.heads, mk, mk.ms, mk.ms.buf
    {
      && t.Ordered() && Marked()
      && FirstPass(mk.h, size, mk.ms.buf.Length, t.key, t.val, m0, done, over, mk.marked,
        Ordering(t.key, t.val, t.nodes))
    }

    lemma MarkedFacts()
      requires Marked()
      ensures mk.Inv() && mk.state == Marker.None && mk.ms.entries == []
      ensures Laid(mk.h, t.key, t.nodes, queue) && (forall n :: n in t.nodes || n in queue ==> n in mk.marked)
      ensures forall n :: n in t.nodes || n in queue ==> n in t.key && t.key[n] in mk.h.descr
      ensures MarkHeap.INITIAL_MARK_STACK_SIZE <= mk.ms.buf.Length && mk.marked <= mk.h.descr.Keys
      ensures MarkHeap.MARK_STACK_DISCARDS <= mk.ms.buf.Length
    {
      hide MarkHeap.Heap.Apart, Marker.Marker.Inv;
      mk.InvFacts();
    }

    lemma MarkedAgain(m: set<nat>)
      requires mk.Inv() && mk.state == Marker.None && mk.ms.entries == [] && m <= mk.marked
      requires Laid(mk.h, t.key, t.nodes, queue) && forall n :: n in t.nodes || n in queue ==> n in m
      ensures Marked()
    {
      hide Laid, Marker.Marker.Inv;
    }

    /** One entry: its object is left alone when already marked; GC_MARK_FO otherwise. */
    method MarkOne(n: nat, ghost size: nat, ghost m0: set<nat>, ghost done: seq<nat>, ghost over: set<nat>)
      returns (overflow: bool, aborted: bool)
      requires Marking(size, m0, done, over) && n in t.nodes && n in t.key && n in t.val
      modifies mk`state, mk`scanPtr, mk`tooSmall, mk`objectsMarked, mk`marked, mk`pushed, mk`considered, mk`dropped,
        mk`just, mk.ms, mk.ms.buf
      ensures mk.ms.buf == old(mk.ms.buf) || fresh(mk.ms.buf)
      ensures
        var more, ord := over + (if overflow then {t.key[n]} else {}), Ordering(t.key, t.val, t.nodes);
        if aborted then
          Limits(mk.h, size, m0, ord, more, true) && more != {} &&
            FirstOverruns(mk.h, size, t.key, t.val, m0, done + [n])
        else Marking(size, m0, done + [n], more)
    {
      hide *;
      MarkingFacts(size, m0, done, over);
      MarkedFacts();
      var o := t.key[n];
      overflow, aborted := false, false;
      ghost var h, m, now, ord := mk.h, mk.marked, mk.ms.buf.Length, Ordering(t.key, t.val, t.nodes);
      MarkHeap.PlusNone(over);
      if t.val[n].proc == NullProc {
        FirstNull(h, size, now, t.key, t.val, m0, done, over, m, ord, n);
      } else if o in mk.marked {
        OrderingAt(n);
        MarkedReaches(o);
        FirstMarked(h, size, now, t.key, t.val, m0, done, over, m, ord, n);
      } else {
        OrderingAt(n);
        overflow, aborted := mk.MarkDescendants(o);
        FirstUnmarked(h, size, now, mk.ms.buf.Length, t.key, t.val, m0, done, over, m, ord, n, mk.marked, overflow,
          aborted);
        if aborted { return; }
        MarkedAgain(m);
      }
      MarkingAgain(size, m0, done + [n], over + if overflow then {o} else {});
    }

    lemma OrderingAt(n: nat)
      requires n in t.nodes && n in t.key && n in t.val && t.val[n].proc != NullProc
      ensures Orders(t.val, n) && t.key[n] in Ordering(t.key, t.val, t.nodes)
    {
    }

    lemma MarkingFacts(size: nat, m0: set<nat>, done: seq<nat>, over: set<nat>)
      requires Marking(size, m0, done, over)
      ensures t.Ordered() && Marked()
      ensures
        FirstPass(mk.h, size, mk.ms.buf.Length, t.key, t.val, m0, done, over, mk.marked,
          Ordering(t.key, t.val, t.nodes))
    {
      hide Marked, Table.Ordered, FirstPass;
    }

    lemma MarkingAgain(size: nat, m0: set<nat>, done: seq<nat>, over: set<nat>)
      requires t.Ordered() && Marked()
      requires
        FirstPass(mk.h, size, mk.ms.buf.Length, t.key, t.val, m0, done, over, mk.marked,
          Ordering(t.key, t.val, t.nodes))
      ensures Marking(size, m0, done, over)
    {
      hide Marked, Table.Ordered, FirstPass;
    }

    /** Every ordered object is in some chain. */
    lemma AllSeen(done: seq<nat>)
      requires t.Ordered() && done == Flat(t.chains[..|t.chains|])
      ensures done == Flat(t.chains) && Ordering(t.key, t.val, t.nodes) <= OrderedKeys(t.key, t.val, done)
    {
      hide Hash, Placed, Pow2;
      assert t.chains[..|t.chains|] == t.chains;
      forall o | o in Ordering(t.key, t.val, t.nodes) ensures o in OrderedKeys(t.key, t.val, done) {
        var n :| n in t.nodes && n in t.key && Orders(t.val, n) && t.key[n] == o;
        t.NodeFacts(n);
        t.Buckets();
        FlatHas(t.chains, Hash(t.key[n], t.logSize), n);
      }
    }

    lemma MarkedReaches(o: nat)
      requires Marked() && o in mk.marked
      ensures o in mk.h.descr && mk.h.Descendants(o) <= mk.marked
    {
      hide Marker.PhaseOk, MarkHeap.Heap.RootsDone, MarkHeap.Heap.RangeDone;
      Marker.MarksClosed(mk.h, mk.state, mk.scanPtr, mk.marked);
      Marker.ClosedMember(mk.h, mk.marked, o);
      mk.h.DescendantsStayInside(mk.marked, o);
    }

    // ---------------------------------------------------------------- enqueueing

    /** An entry leaves its chain and becomes the first of the queue. */
    method MoveToQueue(index: nat, prev: nat, curr: nat, ghost pos: nat)
      requires Valid() && index < |t.chains| && pos < |t.chains[index]|
      requires curr == t.chains[index][pos] && prev == Item(t.chains[index], pos - 1) && Still()
      modifies this`now, this`bytes, this`queue, t`next, t`chains, t`nodes, t`entries, t.heads,
        mk`h, mk`pushed, mk`considered, mk`dropped
      ensures Valid() && t.nodes == old(t.nodes) - {curr} && curr in old(t.nodes)
      ensures t.chains == old(t.chains)[index := Without(old(t.chains)[index], pos)]
      ensures queue == [curr] + old(queue) && Still() && ShownSince(old(mk.h), [curr])
      ensures curr in t.key && curr < |old(mk.h).mem| && mk.h == old(mk.h).Unhidden(curr, t.key[curr])
      ensures curr in t.val && bytes == Plus(old(bytes), Bytes(t.val[curr]))
    {
      hide *;
      StillParts();
      StillFacts();
      LinkedAt(index, pos);
      LaidShown(mk.h, t.key, t.nodes, queue, curr);
      MembersOne(curr);
      ShownIs(mk.h, [curr]);
      Relist(index, prev, curr, pos);
      ghost var h := mk.h;
      mk.Unhide(curr, t.key[curr]);
      StillAgain();
      ShownIs(h, [curr]);
    }

    lemma LinkedAt(index: nat, pos: nat)
      requires Valid() && index < |t.chains| && pos < |t.chains[index]|
      ensures var n := t.chains[index][pos]; n in t.nodes && n !in queue && n in t.key
    {
      hide Hash, Placed, Chain, Pow2;
      t.ChainFacts(index, pos);
    }

    /** The links and counts of the above. */
    method Relist(index: nat, prev: nat, curr: nat, ghost pos: nat)
      requires Valid() && index < |t.chains| && pos < |t.chains[index]|
      requires curr == t.chains[index][pos] && prev == Item(t.chains[index], pos - 1)
      modifies this`now, this`bytes, this`queue, t`next, t`chains, t`nodes, t`entries, t.heads
      ensures Valid() && t.nodes == old(t.nodes) - {curr}
      ensures t.chains == old(t.chains)[index := Without(old(t.chains)[index], pos)]
      ensures queue == [curr] + old(queue)
      ensures curr in t.val && bytes == Plus(old(bytes), Bytes(t.val[curr]))
    {
      hide Hash, Placed, Chain, Pow2;
      t.ChainFacts(index, pos);
      ghost var next0, nodes0 := t.next, t.nodes;
      t.Unlink(index, prev, curr, pos);
      t.entries := t.entries - 1;
      QueueFrame(next0, t.next, t.key, t.key, t.val, t.val, nodes0, t.nodes, now, queue);
      ChainPush(now, t.next, queue, curr);
      t.Relink(curr, now);
      now := curr;
      queue := [curr] + queue;
      bytes := Plus(bytes, Bytes(t.val[curr]));
    }

    /** The second pass of GC_finalize: entries of unmarked objects move to the queue.  Each
        such object is marked at once, unless finalization follows Java rules.  What it leads
        to stays as it is. */
    method EnqueueUnmarked() returns (ghost ready: seq<nat>)
      requires Valid() && Still()
      modifies this`now, this`bytes, this`queue, t`next, t`chains, t`nodes, t`entries, t.heads,
        mk`marked, mk`h, mk`pushed, mk`considered, mk`dropped
      ensures Valid() && Still() && ShownSince(old(mk.h), ready)
      ensures queue == ready + old(queue) && bytes == Plus(0, TotalBytes(t.val, ready))
      ensures Swept(t.key, old(t.nodes), t.nodes, old(mk.marked), mk.marked, java, ready) && old(mk.marked) <= mk.marked
      ensures forall n :: n in t.nodes ==> n in t.key && t.key[n] in mk.marked
    {
      hide *;
      StillParts();
      ready := [];
      ResetBytes();
      StillAgain();
      ShownNone(mk.h, t.key);
      MembersNone();
      ShownIs(mk.h, ready);
      PlusTwice(0, 0, 0);
      StartReady(t.key, t.val, t.nodes, mk.marked, java);
      TableOrdered();
      t.Buckets();
      var i := 0;
      while i < t.heads.Length
        invariant Valid() && Still() && t.heads == old(t.heads) && 0 <= i <= t.heads.Length == |t.chains|
        invariant ShownSince(old(mk.h), ready)
        invariant queue == ready + old(queue) && bytes == Plus(0, TotalBytes(t.val, ready))
        invariant Swept(t.key, old(t.nodes), t.nodes, old(mk.marked), mk.marked, java, ready) &&
          old(mk.marked) <= mk.marked
        invariant forall j, n :: 0 <= j < i && n in t.chains[j] ==> n in t.key && t.key[n] in mk.marked
      {
        ghost var mid, marks, h, list := t.nodes, mk.marked, mk.h, ready;
        ShownIs(old(mk.h), ready);
        ghost var more := EnqueueBucket(i);
        ShownIs(h, more);
        ShownMore(old(mk.h), h, mk.h, t.key, list, more);
        BytesConcat(t.val, more, list);
        PlusTwice(0, TotalBytes(t.val, list), TotalBytes(t.val, more));
        SweptTrans(t.key, old(t.nodes), mid, t.nodes, old(mk.marked), marks, mk.marked, java, list, more);
        assert queue == (more + list) + old(queue);
        ready := more + list;
        ShownIs(old(mk.h), ready);
        i := i + 1;
      }
      forall n | n in t.nodes ensures n in t.key && t.key[n] in mk.marked { SomeLeft(n); }
    }

    method EnqueueOne(index: nat, prev: nat, curr: nat, ghost pos: nat)
      requires Valid() && Still() && index < |t.chains| && pos < |t.chains[index]|
      requires curr == t.chains[index][pos] && prev == Item(t.chains[index], pos - 1)
      requires curr in t.nodes && curr in t.key && t.key[curr] !in mk.marked
      modifies this`now, this`bytes, this`queue, t`next, t`chains, t`nodes, t`entries, t.heads,
        mk`marked, mk`h, mk`pushed, mk`considered, mk`dropped
      ensures Valid() && Still() && ShownSince(old(mk.h), [curr]) && old(mk.marked) <= mk.marked
      ensures t.chains == old(t.chains)[index := Without(old(t.chains)[index], pos)]
      ensures queue == [curr] + old(queue)
      ensures curr in t.val && bytes == Plus(old(bytes), Bytes(t.val[curr]))
      ensures Swept(t.key, old(t.nodes), t.nodes, old(mk.marked), mk.marked, java, [curr])
    {
      hide Hash, Placed, Chain, Pow2, QueueOk, Marker.Marker.Inv, MarkHeap.Heap.Descendants, Swept, Shown,
        Marker.Marker.Quiet, Laid;
      SweptOne(t.key, t.nodes, mk.marked, java, curr);
      if !java { mk.SetBit(t.key[curr]); }
      MoveToQueue(index, prev, curr, pos);
    }

    /** One chain of EnqueueUnmarked. */
    method EnqueueBucket(i: nat) returns (ghost ready: seq<nat>)
      requires Valid() && Still() && i < t.heads.Length == |t.chains|
      modifies this`now, this`bytes, this`queue, t`next, t`chains, t`nodes, t`entries, t.heads,
        mk`marked, mk`h, mk`pushed, mk`considered, mk`dropped
      ensures Valid() && Still() && ShownSince(old(mk.h), ready) && t.heads.Length == |t.chains|
      ensures |t.chains| == |old(t.chains)| && forall j :: 0 <= j < |t.chains| && j != i ==>
        t.chains[j] == old(t.chains)[j]
      ensures queue == ready + old(queue)
      ensures bytes == Plus(old(bytes), TotalBytes(t.val, ready))
      ensures Swept(t.key, old(t.nodes), t.nodes, old(mk.marked), mk.marked, java, ready) && old(mk.marked) <= mk.marked
      ensures forall n :: n in t.chains[i] ==> n in t.key && t.key[n] in mk.marked
    {
      hide Hash, Placed, Chain, Pow2, QueueOk, Marker.Marker.Inv, MarkHeap.Heap.Descendants, TotalBytes, Swept,
        Bytes, Valid, Table.Ordered, Plus, Still, Shown;
      ShownNone(mk.h, t.key);
      MembersNone();
      TableOrdered();
      ready := [];
      PlusTwice(bytes, 0, 0);
      StartReady(t.key, t.val, t.nodes, mk.marked, java);
      t.ChainFacts(i, 0);
      var prev, curr := 0, t.heads[i];
      ghost var pos := 0;
      while curr != 0
        invariant Valid() && Still() && ShownSince(old(mk.h), ready) && i < t.heads.Length == |t.chains|
        invariant |t.chains| == |old(t.chains)|
        invariant forall j :: 0 <= j < |t.chains| && j != i ==> t.chains[j] == old(t.chains)[j]
        invariant queue == ready + old(queue) && bytes == Plus(old(bytes), TotalBytes(t.val, ready))
        invariant Swept(t.key, old(t.nodes), t.nodes, old(mk.marked), mk.marked, java, ready) &&
          old(mk.marked) <= mk.marked
        invariant pos <= |t.chains[i]| && curr == Item(t.chains[i], pos) && prev == Item(t.chains[i], pos - 1)
        invariant forall n :: n in t.chains[i][..pos] ==> n in t.key && t.key[n] in mk.marked
        decreases |t.chains[i]| - pos
      {
        TableOrdered();
        t.ChainFacts(i, pos);
        var o, follow := t.key[curr], t.next[curr];
        ghost var list := t.chains[i];
        if o !in mk.marked {
          ghost var marks, mid, h := mk.marked, t.nodes, mk.h;
          EnqueueOne(i, prev, curr, pos);
          ShownMore(old(mk.h), h, mk.h, t.key, ready, [curr]);
          SweptTrans(t.key, old(t.nodes), mid, t.nodes, old(mk.marked), marks, mk.marked, java, ready, [curr]);
          BytesConcat(t.val, [curr], ready);
          PlusTwice(old(bytes), TotalBytes(t.val, ready), Bytes(t.val[curr]));
          assert t.chains[i][..pos] == list[..pos];
          assert queue == ([curr] + ready) + old(queue);
          ready := [curr] + ready;
          curr := follow;
        } else {
          assert list[..pos + 1] == list[..pos] + [curr];
          prev := curr;
          curr := follow;
          pos := pos + 1;
        }
      }
      TableOrdered();
      t.ChainFacts(i, pos);
      assert t.chains[i][..pos] == t.chains[i];
    }

    // ---------------------------------------------------------------- Java finalization

    /** The marks are closed in `h`, the heap in which the entries `newly` still hid their objects. */
    ghost predicate Led(h: MarkHeap.Heap, newly: seq<nat>)
      reads this`queue, t`nodes, t`key, t`val, mk, mk.ms, mk.ms.buf
    {
      && Still() && ShownSince(h, newly) && EntriesMarked()
      && LedIn(h, t.key, t.val, queue, newly, mk.marked)
    }

    /** First Java pass over the queue: what entries without an order lead to is marked, and so
        are all queued objects but the unreachable kind.  When that overflows the mark stack the
        marks are made anew, and since the entries themselves are marked and show their objects
        by then, all queued objects are marked. */
    method MarkQueue(ghost h: MarkHeap.Heap, ghost newly: seq<nat>) returns (rescanned: bool, aborted: bool)
      requires Valid() && Led(h, newly)
      modifies mk`state, mk`scanPtr, mk`tooSmall, mk`objectsMarked, mk`marked, mk`pushed, mk`considered, mk`dropped,
        mk`just, mk.ms, mk.ms.buf
      ensures mk.ms.buf == old(mk.ms.buf) || fresh(mk.ms.buf)
      ensures Marker.FewPushed(h.roots, old(mk.ms.buf.Length)) ==> !aborted
      ensures rescanned <==> QueueOverruns(h, old(mk.ms.buf.Length), t.key, t.val, old(mk.marked), queue)
      ensures rescanned ==> old(mk.ms.buf.Length) <= |Reached(h, NullKeys(t.key, t.val, queue)) - old(mk.marked)|
      ensures !aborted ==> Led(h, newly) && mk.marked == QueueMarks(h, t.key, t.val, old(mk.marked), queue, rescanned)
    {
      hide *;
      rescanned, aborted := false, false;
      QueueStart(0);
      LedFacts(h, newly);
      StartPass(h, mk.ms.buf.Length, t.key, t.val, mk.marked, queue, newly);
      var curr := now;
      ghost var pos, m0, size := 0, mk.marked, mk.ms.buf.Length;
      while curr != 0
        invariant pos <= |queue| && curr == Item(queue, pos)
        invariant Led(h, newly) && size <= mk.ms.buf.Length && (rescanned || size == mk.ms.buf.Length)
        invariant mk.ms.buf == old(mk.ms.buf) || fresh(mk.ms.buf)
        invariant PassedTo(h, size, t.key, t.val, m0, queue, newly, pos, rescanned, mk.marked)
        decreases |queue| - pos
      {
        QueueStart(pos);
        LedFacts(h, newly);
        ghost var m, now := mk.marked, mk.ms.buf.Length;
        var overflow;
        overflow, aborted := MarkQueued(h, newly, pos, curr);
        if !aborted { LedFacts(h, newly); }
        PassNext(h, size, now, t.key, t.val, m0, queue, newly, pos, rescanned, m, overflow, mk.marked, aborted);
        rescanned := rescanned || overflow;
        if aborted { return; }
        curr := t.next[curr];
        pos := pos + 1;
      }
      QueueStart(pos);
      EndPass(h, size, t.key, t.val, m0, queue, newly, pos, rescanned, mk.marked);
    }

    /** One queue entry. */
    method MarkQueued(ghost h: MarkHeap.Heap, ghost newly: seq<nat>, ghost pos: nat, curr: nat)
      returns (overflow: bool, aborted: bool)
      requires Valid() && Led(h, newly) && pos < |queue| && curr == queue[pos] && curr in t.key && curr in t.val
      modifies mk`state, mk`scanPtr, mk`tooSmall, mk`objectsMarked, mk`marked, mk`pushed, mk`considered, mk`dropped,
        mk`just, mk.ms, mk.ms.buf
      ensures mk.ms.buf == old(mk.ms.buf) || fresh(mk.ms.buf)
      ensures QueuedStep(h, old(mk.ms.buf.Length), t.key, t.val, newly, old(mk.marked), curr, overflow, mk.marked,
        aborted)
      ensures !aborted ==> Led(h, newly)
      ensures old(mk.ms.buf.Length) <= mk.ms.buf.Length && (!overflow ==> mk.ms.buf == old(mk.ms.buf))
    {
      hide *;
      overflow, aborted := false, false;
      LedFacts(h, newly);
      ghost var m, size, n := mk.marked, mk.ms.buf.Length, curr;
      var o := t.key[curr];
      if o in mk.marked {
        StepMarked(h, size, t.key, t.val, queue, newly, m, n);
        return;
      }
      StepUnmarked(h, mk.h, size, t.key, t.val, queue, newly, m, n);
      if t.val[curr].proc == NullProc {
        overflow, aborted := mk.MarkFo(o);
      }
      if t.val[curr].proc != UnreachableProc && !aborted { mk.SetBit(o); }
      StepDone(h, mk.h, size, t.key, t.val, queue, newly, m, n, overflow, mk.marked, aborted);
      if !aborted { LedAgain(h, newly, m); }
    }

    lemma LedFacts(h: MarkHeap.Heap, newly: seq<nat>)
      requires Led(h, newly)
      ensures mk.Quiet() && Laid(mk.h, t.key, t.nodes, queue) && Shown(h, mk.h, t.key, Members(newly))
      ensures LedIn(h, t.key, t.val, queue, newly, mk.marked)
      ensures forall n :: n in t.nodes || n in queue ==> n in mk.marked
      ensures MarkHeap.MARK_STACK_DISCARDS <= mk.ms.buf.Length && mk.h.Valid() && mk.h.roots == h.roots
      ensures mk.marked <= mk.h.descr.Keys
      ensures forall n :: n in queue ==> n in t.key && n in t.val && t.key[n] in mk.h.descr
    {
      hide MarkHeap.Heap.Valid, MarkHeap.Heap.Closed, MarkHeap.Heap.RootsDone, MarkHeap.Heap.Apart,
        MarkHeap.Heap.Descendants, Marker.Marker.Quiet;
      mk.QuietFacts();
      Marker.ClosedObjects(h, mk.marked);
    }

    lemma LedAgain(h: MarkHeap.Heap, newly: seq<nat>, m: set<nat>)
      requires mk.Quiet() && Laid(mk.h, t.key, t.nodes, queue) && Shown(h, mk.h, t.key, Members(newly))
      requires LedIn(h, t.key, t.val, queue, newly, mk.marked)
      requires m <= mk.marked && forall n :: n in t.nodes || n in queue ==> n in m
      ensures Led(h, newly)
    {
      hide LedIn, Laid, Shown, Marker.Marker.Quiet;
    }

    lemma QueueStart(pos: nat)
      requires Valid()
      ensures now == Item(queue, 0)
      ensures if pos < |queue| then
          var n := queue[pos];
          Item(queue, pos) == n && n != 0 && n in queue && n in t.key && n in t.val && n in t.next &&
          t.next[n] == Item(queue, pos + 1)
        else Item(queue, pos) == 0
    {
      hide Hash, Placed, Pow2, Chain;
      QueueFacts(pos);
    }

    lemma QueueFacts(pos: nat)
      requires QueueOk(t.next, t.key, t.val, t.nodes, now, queue)
      ensures now == Item(queue, 0)
      ensures pos < |queue| ==>
        var n := queue[pos];
        n != 0 && n !in t.nodes && n in t.key && n in t.val && n in t.next && t.next[n] == Item(queue, pos + 1)
    {
      if pos < |queue| { assert queue[pos] in queue && At(t.next, queue, pos); }
    }

    /** An entry of the queue goes back into the table. */
    method ReturnToTable(prev: nat, curr: nat, ghost pos: nat)
      requires Valid() && Still() && pos < |queue| && curr == queue[pos] && prev == Item(queue, pos - 1)
      modifies this`now, this`queue, this`bytes, t`next, t`key, t`val, t`chains, t`nodes, t`entries, t.heads,
        mk`h, mk`pushed, mk`considered, mk`dropped
      ensures Valid() && Still() && t.heads == old(t.heads) && Shown(mk.h, old(mk.h), t.key, {curr})
      ensures t.nodes == old(t.nodes) + {curr} && t.key == old(t.key) && t.val == old(t.val)
      ensures queue == Without(old(queue), pos)
      ensures curr in t.val && bytes == Minus(old(bytes), Bytes(t.val[curr]))
    {
      hide Hash, Placed, Pow2, Chain, SameOutside, QueueOk, Laid, Shown, Marker.Marker.Quiet, MarkHeap.Heap.Valid;
      HideQueued(pos);
      mk.Hide(curr);
      LeaveQueue(prev, curr, pos);
      bytes := Minus(bytes, Bytes(t.val[curr]));
      ghost var next0, nodes0 := t.next, t.nodes;
      var i, o := Hash(t.key[curr], t.logSize), t.key[curr];
      assert t.key[curr := o] == t.key && t.val[curr := t.val[curr]] == t.val;
      t.LinkIn(i, curr, o, t.val[curr]);
      t.entries := t.entries + 1;
      Rejoined(next0, nodes0, curr);
    }

    lemma HideQueued(pos: nat)
      requires Valid() && Still() && pos < |queue|
      ensures mk.Quiet() && queue[pos] in t.key && queue[pos] < |mk.h.mem|
      ensures var n := queue[pos]; var h := mk.h.Hidden(n);
        h.Valid() && Shown(h, mk.h, t.key, {n}) && Laid(h, t.key, t.nodes + {n}, Without(queue, pos))
    {
      hide Hash, Placed, Pow2, Laid, Shown, Marker.Marker.Quiet, MarkHeap.Heap.Valid;
      mk.QuietFacts();
      QueueFacts(pos);
      ChainDistinct(now, t.next, queue);
      LaidHidden(mk.h, t.key, t.nodes, queue, pos);
    }

    lemma Rejoined(next: map<nat, nat>, nodes: set<nat>, curr: nat)
      requires QueueOk(next, t.key, t.val, nodes, now, queue) && curr !in queue
      requires t.nodes == nodes + {curr} && SameOutside({curr}, next, t.next)
      ensures QueueOk(t.next, t.key, t.val, t.nodes, now, queue)
    {
      hide Chain;
      QueueFrame(next, t.next, t.key, t.key, t.val, t.val, nodes, t.nodes, now, queue) by {
        assert SameOutside(t.nodes, next, t.next);
      }
    }

    method LeaveQueue(prev: nat, curr: nat, ghost pos: nat)
      requires Valid() && pos < |queue| && curr == queue[pos] && prev == Item(queue, pos - 1)
      modifies this`now, this`queue, t`next
      ensures Valid() && queue == Without(old(queue), pos) && curr !in queue
      ensures curr != 0 && curr !in t.nodes && curr in t.key && curr in t.val && t.logSize >= 0
    {
      hide Hash, Placed, Pow2, Chain;
      QueueFacts(pos);
      if pos > 0 { QueueFacts(pos - 1); }
      ChainRemove(now, t.next, queue, pos);
      ChainDistinct(now, t.next, queue);
      WithoutMembers(queue, pos);
      if prev == 0 {
        now := t.next[curr];
      } else {
        t.Relink(prev, t.next[curr]);
      }
      queue := Without(queue, pos);
    }

    /** How far Revive has come: the first `i` entries of the queue it started with are dealt
        with, and `pos` of them are still queued. */
    ghost predicate Reviving(queue0: seq<nat>, nodes0: set<nat>, marks0: set<nat>, bytes0: Word, revived: seq<nat>,
                             pos: nat, i: nat)
      reads this, t, mk
    {
      && pos <= |queue| && i <= |queue0| && queue[pos..] == queue0[i..]
      && Returned(queue0, queue, nodes0, t.nodes, revived)
      && RevivedUpTo(t.key, t.val, marks0, mk.marked, queue0, revived, i)
      && bytes == Minus(bytes0, TotalBytes(t.val, revived))
    }

    /** Second Java pass over the queue: unreachable-kind entries whose objects turned out to
        be marked go back into the table, the others have their objects marked. */
    method Revive() returns (ghost revived: seq<nat>)
      requires Valid() && Still()
      modifies this`now, this`queue, this`bytes, t`next, t`key, t`val, t`chains, t`nodes, t`entries, t.heads,
        mk`marked, mk`h, mk`pushed, mk`considered, mk`dropped
      ensures Valid() && Still() && t.heads == old(t.heads) && Shown(mk.h, old(mk.h), t.key, Members(revived))
      ensures t.key == old(t.key) && t.val == old(t.val)
      ensures Returned(old(queue), queue, old(t.nodes), t.nodes, revived)
      ensures RevivedExactly(t.key, t.val, old(mk.marked), mk.marked, old(queue), revived)
      ensures bytes == Minus(old(bytes), TotalBytes(t.val, revived))
    {
      hide Hash, Placed, Pow2, Chain, QueueOk, Still, Reviving, RevivedExactly, Shown;
      revived := [];
      StartReviving();
      ShownNone(mk.h, t.key);
      MembersNone();
      QueueFacts(0);
      var prev, curr := 0, now;
      ghost var pos, i := 0, 0;
      while curr != 0
        invariant Valid() && Still() && t.heads == old(t.heads)
        invariant t.key == old(t.key) && t.val == old(t.val)
        invariant Shown(mk.h, old(mk.h), t.key, Members(revived))
        invariant Reviving(old(queue), old(t.nodes), old(mk.marked), old(bytes), revived, pos, i)
        invariant pos <= |queue| && curr == Item(queue, pos) && prev == Item(queue, pos - 1)
        decreases |queue| - pos
      {
        QueueFacts(pos);
        var follow := t.next[curr];
        if t.val[curr].proc == UnreachableProc && t.key[curr] in mk.marked {
          ghost var h := mk.h;
          ReviveOne(prev, curr, pos, i, old(queue), old(t.nodes), old(mk.marked), old(bytes), revived);
          HiddenMore(mk.h, h, old(mk.h), t.key, curr, revived);
          revived := [curr] + revived;
          curr := follow;
        } else {
          KeepOne(curr, pos, i, old(queue), old(t.nodes), old(mk.marked), old(bytes), revived);
          prev := curr;
          curr := follow;
          pos := pos + 1;
        }
        i := i + 1;
      }
      QueueFacts(pos);
      EndReviving(old(queue), old(t.nodes), old(mk.marked), old(bytes), revived, pos, i);
    }

    lemma StartReviving()
      requires Valid()
      ensures Reviving(queue, t.nodes, mk.marked, bytes, [], 0, 0)
    {
      hide Hash, Placed, Pow2;
      ReturnedNone(queue, t.nodes, t.val);
      RevivedNone(t.key, t.val, mk.marked, queue);
      MinusTwice(bytes, 0, 0);
    }

    lemma EndReviving(queue0: seq<nat>, nodes0: set<nat>, marks0: set<nat>, bytes0: Word, revived: seq<nat>,
                      pos: nat, i: nat)
      requires Reviving(queue0, nodes0, marks0, bytes0, revived, pos, i) && pos == |queue|
      ensures Returned(queue0, queue, nodes0, t.nodes, revived)
      ensures RevivedExactly(t.key, t.val, marks0, mk.marked, queue0, revived)
      ensures bytes == Minus(bytes0, TotalBytes(t.val, revived))
    {
      assert |queue0[i..]| == |queue[pos..]| == 0;
    }

    method KeepOne(curr: nat, ghost pos: nat, ghost i: nat,
                   ghost queue0: seq<nat>, ghost nodes0: set<nat>, ghost marks0: set<nat>, ghost bytes0: Word,
                   ghost revived: seq<nat>)
      requires Valid() && Still() && pos < |queue| && curr == queue[pos] && curr in t.key && curr in t.val
      requires t.val[curr].proc == UnreachableProc ==> t.key[curr] !in mk.marked
      requires Reviving(queue0, nodes0, marks0, bytes0, revived, pos, i)
      modifies mk`marked
      ensures Still() && Reviving(queue0, nodes0, marks0, bytes0, revived, pos + 1, i + 1)
    {
      hide Hash, Placed, Pow2, Chain, Marker.Marker.Quiet, Laid, TotalBytes, Minus, QueueOk, RevivedUpTo;
      ReturnedAt(queue0, queue, nodes0, t.nodes, revived, pos, i);
      RevivedKeep(t.key, t.val, marks0, mk.marked, queue0, revived, i);
      if t.val[curr].proc == UnreachableProc {
        mk.SetBit(t.key[curr]);
      } else {
        assert mk.marked + {} == mk.marked;
      }
    }

    method ReviveOne(prev: nat, curr: nat, ghost pos: nat, ghost i: nat,
                     ghost queue0: seq<nat>, ghost nodes0: set<nat>, ghost marks0: set<nat>, ghost bytes0: Word,
                     ghost revived: seq<nat>)
      requires Valid() && Still() && pos < |queue| && curr == queue[pos] && prev == Item(queue, pos - 1)
      requires curr in t.key && curr in t.val && t.val[curr].proc == UnreachableProc && t.key[curr] in mk.marked
      requires Reviving(queue0, nodes0, marks0, bytes0, revived, pos, i)
      modifies this`now, this`queue, this`bytes, t`next, t`key, t`val, t`chains, t`nodes, t`entries, t.heads,
        mk`h, mk`pushed, mk`considered, mk`dropped
      ensures Valid() && Still() && t.heads == old(t.heads) && Shown(mk.h, old(mk.h), t.key, {curr})
      ensures t.key == old(t.key) && t.val == old(t.val) && queue == Without(old(queue), pos)
      ensures Reviving(queue0, nodes0, marks0, bytes0, [curr] + revived, pos, i + 1)
    {
      hide Hash, Placed, Pow2, Chain, Still, Shown, TotalBytes, Returned, Minus, RevivedUpTo, Bytes;
      QueueFacts(pos);
      ChainDistinct(now, t.next, queue);
      WithoutMembers(queue, pos);
      ReturnedAt(queue0, queue, nodes0, t.nodes, revived, pos, i);
      ReturnedMore(queue0, queue, nodes0, t.nodes, revived, pos);
      BytesConcat(t.val, [curr], revived);
      MinusTwice(bytes0, TotalBytes(t.val, revived), Bytes(t.val[curr]));
      RevivedMove(t.key, t.val, marks0, mk.marked, queue0, revived, i);
      assert Without(queue, pos)[pos..] == queue[pos..][1..] == queue0[i..][1..] == queue0[i + 1..];
      ReturnToTable(prev, curr, pos);
    }

    // ---------------------------------------------------------------- whole passes

    /** GC_finalize without Java rules.  Whatever the entries' mark procedures, each entry
        stays or is queued, and which ones are queued is determined by the marks before; the
        marks afterwards are closed exactly if nothing unmarked is left behind an object that
        was registered without an order only. */
    method Finalize() returns (ghost ready: seq<nat>, overflowed: set<nat>, aborted: bool)
      requires Valid() && Marked() && !java
      modifies this`now, this`bytes, this`queue, t`next, t`chains, t`nodes, t`entries, t.heads, mk, mk.ms, mk.ms.buf
      ensures
        Limits(old(mk.h), old(mk.ms.buf.Length), old(mk.marked), Ordering(t.key, t.val, old(t.nodes)), overflowed,
          aborted)
      ensures overflowed == {} <==>
        !FirstOverruns(old(mk.h), old(mk.ms.buf.Length), t.key, t.val, old(mk.marked), Flat(old(t.chains)))
      ensures !aborted ==> Valid() && Still() && EntriesMarked() && ShownSince(old(mk.h), ready)
      ensures !aborted ==> queue == ready + old(queue) && Partition(old(t.nodes), t.nodes, ready)
      ensures !aborted ==> bytes == Plus(0, TotalBytes(t.val, ready))
      ensures t.key == old(t.key) && t.val == old(t.val)
      ensures !aborted ==>
        Selection(old(mk.h), t.key, t.val, old(t.nodes), old(mk.marked), overflowed, ready, mk.marked)
      ensures !aborted ==>
        (mk.h.Closed(mk.marked) <==> NothingBehind(old(mk.h), t.key, t.val, old(t.nodes), old(mk.marked)))
      ensures !aborted && mk.h.Closed(mk.marked) ==> Marked()
      ensures ExactIfSmall(old(mk.h), old(mk.ms.buf.Length), old(mk.marked), Registered(t.key, old(t.nodes)),
                           Ordering(t.key, t.val, old(t.nodes)), KeysOf(t.key, ready), aborted)
    {
      hide *;
      ready := [];
      ghost var h0, m0, nodes0, size := mk.h, mk.marked, t.nodes, mk.ms.buf.Length;
      MarkedFacts();
      MarkedCloses();
      NodesHaveKeys();
      ghost var reg, ord := Registered(t.key, t.nodes), Ordering(t.key, t.val, t.nodes);
      overflowed, aborted := MarkFromRegistered();
      if aborted {
        ExactlyReady(h0, size, m0, reg, ord, overflowed, KeysOf(t.key, ready), aborted);
        return;
      }
      ghost var m1 := mk.marked;
      MarkedFacts();
      MarkedCloses();
      ready := EnqueueUnmarked();
      Queueing(h0, m0, nodes0, overflowed, m1, size, ready, old(queue));
      SettledIs();
      if mk.h.Closed(mk.marked) { Resettle(); }
    }

    /** The marks are closed. */
    ghost predicate Settled()
      reads mk`h, mk`marked
    {
      mk.h.Closed(mk.marked) && mk.h.RootsDone(mk.marked, [])
    }

    lemma SettledIs()
      ensures Settled() <==> mk.h.Closed(mk.marked) && mk.h.RootsDone(mk.marked, [])
    {
    }

    lemma EntriesIn()
      ensures EntriesMarked() <==> forall n :: n in t.nodes || n in queue ==> n in mk.marked
    {
    }

    ghost method Resettle()
      requires Still() && EntriesMarked() && Settled()
      modifies mk`just
      ensures Marked() && Still() && EntriesMarked()
    {
      hide Laid, Marker.Marker.Inv, Marker.Marker.Quiet, MarkHeap.Heap.Closed, MarkHeap.Heap.RootsDone;
      mk.QuietFacts();
      mk.Settle();
    }

    /** What follows from the two passes. */
    lemma Queueing(h0: MarkHeap.Heap, m0: set<nat>, nodes0: set<nat>, over: set<nat>, m1: set<nat>, size: nat,
                   ready: seq<nat>, queue0: seq<nat>)
      requires Still() && ShownSince(h0, ready) && queue == ready + queue0
      requires h0.Valid() && h0.Closed(m0) && h0.RootsDone(m0, []) && h0.Closed(m1) && h0.RootsDone(m1, [])
      requires forall n :: n in nodes0 || n in queue0 ==> n in m1
      requires nodes0 <= t.key.Keys && Registered(t.key, nodes0) <= h0.descr.Keys
      requires over <= Ordering(t.key, t.val, nodes0) - m0
      requires m1 == m0 + Reached(h0, Ordering(t.key, t.val, nodes0)) + over
      requires Swept(t.key, nodes0, t.nodes, m1, mk.marked, false, ready) && m1 <= mk.marked
      requires forall n :: n in t.nodes ==> n in t.key && t.key[n] in mk.marked
      requires Limits(h0, size, m0, Ordering(t.key, t.val, nodes0), over, false)
      ensures EntriesMarked() && Partition(nodes0, t.nodes, ready) && mk.h.RootsDone(mk.marked, [])
      ensures Selection(h0, t.key, t.val, nodes0, m0, over, ready, mk.marked)
      ensures mk.h.Closed(mk.marked) <==> NothingBehind(h0, t.key, t.val, nodes0, m0)
      ensures ExactIfSmall(h0, size, m0, Registered(t.key, nodes0), Ordering(t.key, t.val, nodes0),
                           KeysOf(t.key, ready), false)
    {
      hide *;
      var reg, ord := Registered(t.key, nodes0), Ordering(t.key, t.val, nodes0);
      SweptParts(t.key, nodes0, t.nodes, m1, mk.marked, false, ready);
      EntriesStay(nodes0, ready, queue0);
      ReadySelected(h0, t.key, t.val, nodes0, t.nodes, m0, over, m1, mk.marked, ready);
      SelectionIs(h0, t.key, t.val, nodes0, m0, over, ready, mk.marked);
      ExactlyReady(h0, size, m0, reg, ord, over, KeysOf(t.key, ready), false);
      ClosedExactly(h0, t.key, t.val, nodes0, m0);
      RootsStayDone(h0, m1, mk.marked);
      ShownIs(h0, ready);
      NewlyKeys(t.key, ready);
      ClosedShown(h0, mk.h, t.key, Members(ready), mk.marked);
    }

    lemma EntriesStay(nodes0: set<nat>, ready: seq<nat>, queue0: seq<nat>)
      requires Partition(nodes0, t.nodes, ready) && queue == ready + queue0
      requires forall n :: n in nodes0 || n in queue0 ==> n in mk.marked
      ensures EntriesMarked()
    {
    }

    lemma ShownIs(h: MarkHeap.Heap, list: seq<nat>)
      ensures ShownSince(h, list) <==> Shown(h, mk.h, t.key, Members(list))
    {
    }

    lemma MarkedCloses()
      requires Marked()
      ensures mk.h.Valid() && mk.h.Apart() && mk.h.Closed(mk.marked) && mk.h.RootsDone(mk.marked, []) && Still()
      ensures Registered(t.key, t.nodes) <= mk.h.descr.Keys
    {
      hide MarkHeap.Heap.Apart, MarkHeap.Heap.Valid, Marker.Marker.Inv, MarkHeap.Heap.Closed,
        MarkHeap.Heap.RootsDone;
      mk.InvQuiet();
      StillFacts();
    }

    lemma NodesHaveKeys()
      requires Valid()
      ensures t.nodes <= t.key.Keys && forall n :: n in t.nodes ==> n in t.key && n in t.val
    {
      hide Hash, Placed, Pow2;
      forall n | n in t.nodes ensures n in t.key && n in t.val { t.NodeFacts(n); }
    }

    /** GC_finalize with Java rules: entries move between table and queue, none is lost, none
        is duplicated, and none is changed.  Queued are the entries of all unmarked objects,
        revived the unreachable-kind entries whose objects are marked by then.  `rescanned`
        tells whether the pass over the queue overflowed the mark stack, whose size was
        `size` by then. */
    method FinalizeJava(needUnreachable: bool)
      returns (ghost ready: seq<nat>, ghost revived: seq<nat>, overflowed: set<nat>, rescanned: bool, ghost size: nat,
               aborted: bool)
      requires Valid() && Marked() && java
      modifies this`now, this`bytes, this`queue, t, t.heads, mk, mk.ms, mk.ms.buf
      ensures Marker.FewPushed(old(mk.h).roots, old(mk.ms.buf.Length)) ==> !aborted
      ensures !aborted ==>
        Limits(old(mk.h), old(mk.ms.buf.Length), old(mk.marked), Ordering(t.key, t.val, old(t.nodes)), overflowed,
          false)
      ensures !aborted ==>
        (overflowed == {} <==>
          !FirstOverruns(old(mk.h), old(mk.ms.buf.Length), t.key, t.val, old(mk.marked), Flat(old(t.chains))))
      ensures !aborted ==> Valid() && Still() && EntriesMarked() && t.key == old(t.key) && t.val == old(t.val)
      ensures !aborted ==> Shuffled(old(t.nodes), old(queue), t.nodes, queue, ready, revived)
      ensures !aborted ==> old(mk.ms.buf.Length) <= size && (overflowed == {} ==> size == old(mk.ms.buf.Length))
      ensures !aborted ==>
        JavaPasses(old(mk.h), t.key, t.val, old(t.nodes), old(queue), old(mk.marked), overflowed, size, needUnreachable,
                   ready, rescanned, revived, mk.marked)
      ensures !aborted ==> Rewritten(old(mk.h), mk.h, t.key, Members(ready), Members(revived))
      ensures !aborted && needUnreachable ==> forall n :: n in queue ==> n in t.key && t.key[n] in mk.marked
      ensures !aborted && (forall n :: n in queue ==> n in t.key && t.key[n] in mk.marked) ==> Marked()
      ensures !aborted ==> bytes == Minus(Plus(0, TotalBytes(t.val, ready)), TotalBytes(t.val, revived))
      ensures mk.ms.buf == old(mk.ms.buf) || fresh(mk.ms.buf)
      ensures !aborted ==> t.heads == old(t.heads)
    {
      hide *;
      revived, rescanned, size := [], false, 0;
      ghost var h0, m0, nodes0, queue0, size0 := mk.h, mk.marked, t.nodes, queue, mk.ms.buf.Length;
      MarkedCloses();
      OldShown();
      QueueHasKeys();
      ready, overflowed, aborted := MarkAndEnqueue();
      if aborted { return; }
      ghost var queue1, nodes1, m1 := queue, t.nodes, mk.marked;
      size := mk.ms.buf.Length;
      ShuffledStart(nodes0, queue0, nodes1, ready);
      MinusTwice(bytes, 0, 0);
      if Marker.FewPushed(h0.roots, size0) { Marker.FewerPushed(h0.roots, size0, size); }
      rescanned, aborted := MarkQueue(h0, ready);
      if aborted { return; }
      ghost var m2 := mk.marked;
      MarksHave(h0, t.key, t.val, m1, queue1, rescanned);
      revived := ReviveUnreachable(needUnreachable, h0, ready);
      if needUnreachable { ShuffledMore(nodes0, queue0, nodes1, queue1, t.nodes, queue, ready, revived); }
      JavaDone(h0, t.key, t.val, nodes0, queue0, m0, overflowed, size, needUnreachable, ready, rescanned, revived, m1,
               m2, mk.marked);
    }

    /** The second Java pass over the queue, if there can be unreachable-kind entries. */
    method ReviveUnreachable(needUnreachable: bool, ghost h: MarkHeap.Heap, ghost newly: seq<nat>)
      returns (ghost revived: seq<nat>)
      requires Valid() && Led(h, newly)
      requires forall n :: n in queue && n in t.key && n in t.val && t.val[n].proc != UnreachableProc ==>
        t.key[n] in mk.marked
      modifies this`now, this`queue, this`bytes, t`next, t`key, t`val, t`chains, t`nodes, t`entries, t.heads,
        mk`marked, mk`h, mk`pushed, mk`considered, mk`dropped, mk`just
      ensures Valid() && Still() && EntriesMarked() && t.heads == old(t.heads)
      ensures t.key == old(t.key) && t.val == old(t.val)
      ensures
        if needUnreachable then
          && Returned(old(queue), queue, old(t.nodes), t.nodes, revived)
          && RevivedExactly(t.key, t.val, old(mk.marked), mk.marked, old(queue), revived)
        else
          revived == [] && queue == old(queue) && t.nodes == old(t.nodes) && mk.marked == old(mk.marked)
      ensures bytes == Minus(old(bytes), TotalBytes(t.val, revived))
      ensures Rewritten(h, mk.h, t.key, Members(newly), Members(revived))
      ensures needUnreachable ==> forall n :: n in queue ==> n in t.key && t.key[n] in mk.marked
      ensures (forall n :: n in queue ==> n in t.key && t.key[n] in mk.marked) ==> Marked()
    {
      hide *;
      revived := [];
      ghost var queue1, nodes1, m2, h1 := queue, t.nodes, mk.marked, mk.h;
      LedFacts(h, newly);
      LedStill(h, newly);
      MembersNone();
      ShownNone(h1, t.key);
      NoBytes(t.val);
      MinusTwice(bytes, 0, 0);
      if needUnreachable {
        revived := Revive();
        RevivedGrows(t.key, t.val, m2, mk.marked, queue1, revived);
        QueueHasKeys();
        AllMarked(t.key, t.val, m2, mk.marked, queue1, queue, revived, nodes1, t.nodes);
      }
      EntriesKeep(nodes1, queue1, m2, revived);
      RewrittenIs(h, h1, mk.h, t.key, Members(newly), Members(revived));
      if forall n :: n in queue ==> n in t.key && t.key[n] in mk.marked {
        JavaClosed(h, h1, mk.h, t.key, t.val, queue1, newly, m2, mk.marked, revived, queue, nodes1, t.nodes);
        SettledIs();
        Resettle();
      }
    }

    lemma LedStill(h: MarkHeap.Heap, newly: seq<nat>)
      requires Led(h, newly)
      ensures Still() && EntriesMarked()
    {
    }

    lemma EntriesKeep(nodes1: set<nat>, queue1: seq<nat>, m: set<nat>, revived: seq<nat>)
      requires forall n :: n in nodes1 || n in queue1 ==> n in m
      requires m <= mk.marked
      requires (revived == [] && t.nodes == nodes1 && queue == queue1) ||
        Returned(queue1, queue, nodes1, t.nodes, revived)
      ensures EntriesMarked()
    {
    }

    /** The first two passes under Java rules. */
    method MarkAndEnqueue() returns (ghost ready: seq<nat>, overflowed: set<nat>, aborted: bool)
      requires Valid() && Marked() && java
      modifies this`now, this`bytes, this`queue, t`next, t`chains, t`nodes, t`entries, t.heads, mk, mk.ms, mk.ms.buf
      ensures mk.ms.buf == old(mk.ms.buf) || fresh(mk.ms.buf)
      ensures Limits(old(mk.h), old(mk.ms.buf.Length), old(mk.marked),
                     Ordering(t.key, t.val, old(t.nodes)), overflowed, aborted)
      ensures overflowed == {} <==>
        !FirstOverruns(old(mk.h), old(mk.ms.buf.Length), t.key, t.val, old(mk.marked), Flat(old(t.chains)))
      ensures Marker.FewPushed(old(mk.h).roots, old(mk.ms.buf.Length)) ==> !aborted
      ensures t.key == old(t.key) && t.val == old(t.val)
      ensures !aborted ==> Valid() && Led(old(mk.h), ready) && t.heads == old(t.heads)
      ensures !aborted ==> old(mk.ms.buf.Length) <= mk.ms.buf.Length
      ensures !aborted && overflowed == {} ==> mk.ms.buf.Length == old(mk.ms.buf.Length)
      ensures !aborted ==> queue == ready + old(queue) && Partition(old(t.nodes), t.nodes, ready)
      ensures !aborted ==> Distinct(queue) && forall n :: n in queue ==> n !in t.nodes
      ensures !aborted ==> bytes == Plus(0, TotalBytes(t.val, ready))
      ensures !aborted ==>
        mk.marked == old(mk.marked) + Reached(old(mk.h), Ordering(t.key, t.val, old(t.nodes))) + overflowed
      ensures !aborted ==> Queued(t.key, old(t.nodes), mk.marked, ready)
    {
      hide *;
      ready := [];
      ghost var nodes0, queue0, h0 := t.nodes, queue, mk.h;
      MarkedFacts();
      NodesHaveKeys();
      QueueHasKeys();
      overflowed, aborted := MarkFromRegistered();
      LimitsFew(h0, old(mk.ms.buf.Length), old(mk.marked), Ordering(t.key, t.val, t.nodes), overflowed, aborted);
      if aborted { return; }
      MarkedFacts();
      MarkedCloses();
      OldShown();
      OrderedLeads(h0, t.key, t.val, t.nodes, mk.marked);
      ghost var m1 := mk.marked;
      ready := EnqueueUnmarked();
      SweptMarks(t.key, nodes0, t.nodes, m1, mk.marked, ready);
      SweptParts(t.key, nodes0, t.nodes, m1, mk.marked, true, ready);
      SweptExactly(t.key, nodes0, t.nodes, m1, mk.marked, ready);
      QueueHasKeys();
      DistinctQueue();
      LedFirst(h0, t.key, t.val, nodes0, t.nodes, queue0, ready, m1);
      StillParts();
      ShownIs(h0, ready);
      LedAgain(h0, ready, m1);
    }

    lemma StillParts()
      requires Still()
      ensures mk.Quiet() && Laid(mk.h, t.key, t.nodes, queue)
    {
    }

    /** The entries queued before are marked and show their objects, so these are marked. */
    lemma OldShown()
      requires Marked()
      ensures forall n :: n in queue ==> n in t.key && t.key[n] in mk.marked && mk.h.Descendants(t.key[n]) <= mk.marked
    {
      MarkedCloses();
      hide MarkHeap.Heap.Apart, MarkHeap.Heap.Valid, Marker.Marker.Inv, Marker.Marker.Quiet;
      forall n | n in queue ensures n in t.key && t.key[n] in mk.marked && mk.h.Descendants(t.key[n]) <= mk.marked {
        assert EntryAt(mk.h, t.key, n, true) && n in mk.marked;
        assert mk.h.Scanned(mk.marked, [], n) && mk.h.Done(mk.marked, n);
        MarkedReaches(t.key[n]);
      }
    }

    lemma QueueHasKeys()
      requires Valid()
      ensures forall n :: n in queue ==> n in t.key && n in t.val && n !in t.nodes
    {
    }

    /** GC_enqueue_all_finalizers, at any time: every entry is queued and its object kept.  The
        marks need not be closed; once the mark stack has overflowed they are. */
    method EnqueueAll() returns (ghost ready: seq<nat>, overflowed: bool, aborted: bool)
      requires Valid() && Still() && mk.marked <= mk.h.descr.Keys
      modifies this`now, this`bytes, this`queue, t`next, t`chains, t`nodes, t`entries, t.heads, mk, mk.ms, mk.ms.buf
      ensures Marker.FewPushed(old(mk.h).roots, old(mk.ms.buf.Length)) ==> !aborted
      ensures !aborted ==> Valid() && Still() && t.nodes == {} && t.entries == 0 && ShownSince(old(mk.h), ready)
      ensures !aborted ==> queue == ready + old(queue) && Partition(old(t.nodes), {}, ready)
      ensures !aborted ==> forall n :: n in ready ==> n in t.key && t.key[n] in mk.marked
      ensures !aborted ==> old(mk.marked) <= mk.marked <= mk.h.descr.Keys
      ensures !aborted ==> bytes == Plus(0, TotalBytes(t.val, ready))
      ensures !aborted && (overflowed || old(Settled())) ==> Settled()
      ensures !aborted && old(Marked()) ==> Marked()
      ensures
        !aborted ==>
          (overflowed <==> KeptObjects.KeptOverruns(old(mk.h), old(mk.ms.buf.Length), t.key, old(mk.marked), ready))
      ensures
        !aborted && !overflowed ==> KeptObjects.Least(mk.h, old(mk.marked), Keys(t.key, Members(ready)), mk.marked)
      ensures !aborted && overflowed ==> mk.marked == mk.h.LiveSet(old(mk.marked) + Keys(t.key, Members(ready)))
    {
      hide *;
      ready, overflowed, aborted := [], false, false;
      ghost var was, settled, h0, m0, nodes0, queue0, size := Marked(), Settled(), mk.h, mk.marked, t.nodes, queue,
        mk.ms.buf.Length;
      if was {
        MarkedCloses();
        SettledIs();
        MarkedFacts();
      }
      StillParts();
      ResetBytes();
      StillAgain();
      StartEnqueuing(settled);
      TableOrdered();
      t.Buckets();
      var i := 0;
      while i < t.heads.Length
        invariant Enqueuing(h0, size, nodes0, queue0, m0, settled, ready, overflowed)
        invariant 0 <= i <= t.heads.Length == |t.chains| && t.heads == old(t.heads)
        invariant mk.ms.buf == old(mk.ms.buf) || fresh(mk.ms.buf)
        invariant size <= mk.ms.buf.Length
        invariant forall j :: 0 <= j < i ==> t.chains[j] == []
        decreases |t.nodes|, t.heads.Length - i
      {
        EnqueuingFacts(h0, size, nodes0, queue0, m0, settled, ready, overflowed);
        TableOrdered();
        AtChain(i, 0);
        t.ChainFacts(i, 0);
        var curr := t.heads[i];
        if curr == 0 {
          NoHead(i);
          i := i + 1;
        } else {
          if Marker.FewPushed(h0.roots, size) { Marker.FewerPushed(h0.roots, size, mk.ms.buf.Length); }
          var overflow;
          overflow, aborted := EnqueueKept(i, curr, h0, size, nodes0, queue0, m0, settled, ready, overflowed);
          overflowed := overflowed || overflow;
          if aborted { return; }
          ready := [curr] + ready;
        }
      }
      EnqueuingFacts(h0, size, nodes0, queue0, m0, settled, ready, overflowed);
      KeptObjects.OutcomeIs(h0, size, t.key, m0, ready, overflowed, mk.h, mk.ms.buf.Length, mk.marked);
      KeptObjects.KeptSetIs(mk.h, m0, Keys(t.key, Members(ready)), overflowed, mk.marked);
      forall n ensures n !in t.nodes { if n in t.nodes { SomeLeft(n); } }
      assert t.nodes == {};
      NoEntries();
      if was {
        EnqueuedMarked(nodes0, queue0, ready, m0);
        Resettle();
      }
    }

    /** How far EnqueueAll has come: it has queued the entries `ready`. */
    ghost predicate Enqueuing(h0: MarkHeap.Heap, size: nat, nodes0: set<nat>, queue0: seq<nat>, m0: set<nat>,
                              settled: bool, ready: seq<nat>, overflowed: bool)
      reads this, t, t.heads, mk, mk.ms, mk.ms.buf
    {
      && Valid() && Still() && queue == ready + queue0 && Partition(nodes0, t.nodes, ready) && ShownSince(h0, ready)
      && (forall n :: n in ready ==> n in t.key && t.key[n] in mk.marked)
      && m0 <= mk.marked <= mk.h.descr.Keys && bytes == Plus(0, TotalBytes(t.val, ready))
      && (overflowed || settled ==> Settled()) && mk.h.roots == h0.roots
      && KeptObjects.KeptOutcome(h0, size, t.key, m0, ready, overflowed, mk.h, mk.ms.buf.Length, mk.marked)
    }

    lemma EnqueuingFacts(h0: MarkHeap.Heap, size: nat, nodes0: set<nat>, queue0: seq<nat>, m0: set<nat>, settled: bool,
                         ready: seq<nat>, overflowed: bool)
      requires Enqueuing(h0, size, nodes0, queue0, m0, settled, ready, overflowed)
      ensures Valid() && Still() && queue == ready + queue0 && Partition(nodes0, t.nodes, ready) &&
        ShownSince(h0, ready)
      ensures forall n :: n in ready ==> n in t.key && t.key[n] in mk.marked
      ensures m0 <= mk.marked <= mk.h.descr.Keys && bytes == Plus(0, TotalBytes(t.val, ready))
      ensures (overflowed || settled ==> Settled()) && mk.h.roots == h0.roots
      ensures KeptObjects.KeptOutcome(h0, size, t.key, m0, ready, overflowed, mk.h, mk.ms.buf.Length, mk.marked)
    {
      hide Valid, Still, Settled, Partition, ShownSince, KeptObjects.KeptOutcome;
    }

    lemma StartEnqueuing(settled: bool)
      requires Valid() && Still() && mk.marked <= mk.h.descr.Keys && bytes == 0 && settled == Settled()
      ensures Enqueuing(mk.h, mk.ms.buf.Length, t.nodes, queue, mk.marked, settled, [], false)
    {
      KeptObjects.OutcomeStart(mk.h, mk.ms.buf.Length, t.key, mk.marked);
      hide Valid, Still, Settled, Partition, Shown, KeptObjects.KeptOutcome;
      NoBytes(t.val);
      PartitionNone(t.nodes);
      ShownNone(mk.h, t.key);
      MembersNone();
      assert [] + queue == queue;
    }

    /** The entry `curr` has been queued next. */
    lemma EnqueuedNext(h0: MarkHeap.Heap, size: nat, h: MarkHeap.Heap, nodes0: set<nat>, mid: set<nat>,
                       queue0: seq<nat>, m0: set<nat>, m: set<nat>, settled: bool, ready: seq<nat>, overflowed: bool,
                       curr: nat)
      requires Valid() && Still() && Partition(nodes0, mid, ready) && curr in mid && curr in t.val && curr in t.key
      requires Shown(h0, h, t.key, Members(ready)) && Shown(h, mk.h, t.key, Members([curr]))
      requires t.nodes == mid - {curr} && queue == [curr] + (ready + queue0)
      requires (forall n :: n in ready ==> n in t.key && t.key[n] in m) && m0 <= m
      requires m <= mk.marked <= mk.h.descr.Keys && t.key[curr] in mk.marked
      requires bytes == Plus(Plus(0, TotalBytes(t.val, ready)), Bytes(t.val[curr]))
      requires overflowed || settled ==> Settled()
      requires KeptObjects.KeptOutcome(h0, size, t.key, m0, [curr] + ready, overflowed, mk.h, mk.ms.buf.Length,
                                       mk.marked)
      ensures Enqueuing(h0, size, nodes0, queue0, m0, settled, [curr] + ready, overflowed)
    {
      hide Valid, Still, Settled, Partition, Shown, TotalBytes, Bytes, Plus, KeptObjects.KeptOutcome;
      PartitionMore(nodes0, mid, ready, curr);
      BytesConcat(t.val, [curr], ready);
      PlusTwice(0, TotalBytes(t.val, ready), Bytes(t.val[curr]));
      ShownMore(h0, h, mk.h, t.key, ready, [curr]);
      ShownDescr(h0, mk.h, t.key, Members([curr] + ready));
      assert queue == ([curr] + ready) + queue0;
    }

    lemma NoHead(i: nat)
      requires t.Ordered() && i < |t.chains| && Item(t.chains[i], 0) == 0
      ensures t.chains[i] == []
    {
      AtChain(i, 0);
    }

    /** All entries were marked and still are. */
    lemma EnqueuedMarked(nodes0: set<nat>, queue0: seq<nat>, ready: seq<nat>, m: set<nat>)
      requires m <= mk.marked && queue == ready + queue0 && Partition(nodes0, t.nodes, ready)
      requires forall n :: n in nodes0 || n in queue0 ==> n in m
      ensures EntriesMarked()
    {
    }

    lemma SomeLeft(n: nat)
      requires Valid() && n in t.nodes
      ensures exists j :: 0 <= j < |t.chains| && n in t.chains[j]
    {
      hide Hash, Placed, Pow2;
      t.NodeFacts(n);
      t.Buckets();
      assert n in t.chains[Hash(t.key[n], t.logSize)];
    }

    method ResetBytes()
      requires Valid()
      modifies this`bytes
      ensures Valid() && bytes == 0
    {
      bytes := 0;
    }

    lemma NoEntries()
      requires Valid() && t.nodes == {}
      ensures t.entries == 0
    {
    }

    /** One entry: what its object leads to is marked, and then the object. */
    method EnqueueKept(i: nat, curr: nat, ghost h0: MarkHeap.Heap, ghost size: nat, ghost nodes0: set<nat>,
                       ghost queue0: seq<nat>, ghost m0: set<nat>, ghost settled: bool, ghost ready: seq<nat>,
                       ghost overflowed: bool)
      returns (overflow: bool, aborted: bool)
      requires Enqueuing(h0, size, nodes0, queue0, m0, settled, ready, overflowed)
      requires i < t.heads.Length == |t.chains| && curr == Item(t.chains[i], 0) && curr != 0
      modifies this`now, this`bytes, this`queue, t`next, t`chains, t`nodes, t`entries, t.heads, mk, mk.ms, mk.ms.buf
      ensures mk.ms.buf == old(mk.ms.buf) || fresh(mk.ms.buf)
      ensures Marker.FewPushed(h0.roots, old(mk.ms.buf.Length)) ==> !aborted
      ensures !aborted ==> Enqueuing(h0, size, nodes0, queue0, m0, settled, [curr] + ready, overflowed || overflow)
      ensures !aborted ==> old(mk.ms.buf.Length) <= mk.ms.buf.Length
      ensures t.heads.Length == |t.chains| && curr in old(t.nodes)
      ensures !aborted ==> t.nodes == old(t.nodes) - {curr}
      ensures !aborted ==> forall j :: 0 <= j < |t.chains| && j != i ==> t.chains[j] == old(t.chains)[j]
    {
      hide *;
      EnqueuingFacts(h0, size, nodes0, queue0, m0, settled, ready, overflowed);
      TableOrdered();
      AtChain(i, 0);
      ShownIs(h0, ready);
      SettledIs();
      ghost var h, m, mid, now0 := mk.h, mk.marked, t.nodes, mk.ms.buf.Length;
      overflow, aborted := Keep(curr);
      if aborted { return; }
      HeadOf(i, curr);
      MoveToQueue(i, 0, curr, 0);
      ShownIs(h, [curr]);
      MembersOne(curr);
      MovedClosed(h, mk.h, t.key, curr, mk.marked);
      SettledIs();
      StillFacts();
      KeptObjects.OutcomeNext(h0, size, t.key, m0, ready, overflowed, h, now0, m, curr, overflow, mk.h,
                              mk.ms.buf.Length, mk.marked);
      EnqueuedNext(h0, size, h, nodes0, mid, queue0, m0, m, settled, ready, overflowed || overflow, curr);
    }

    /** The object of the entry `n` and what it leads to are marked. */
    method Keep(n: nat) returns (overflow: bool, aborted: bool)
      requires Still() && mk.marked <= mk.h.descr.Keys && n in t.nodes
      modifies mk, mk.ms, mk.ms.buf
      ensures mk.ms.buf == old(mk.ms.buf) || fresh(mk.ms.buf)
      ensures n in t.key && t.key[n] in old(mk.h).descr && old(mk.h).Valid() &&
        MarkHeap.MARK_STACK_DISCARDS <= old(mk.ms.buf.Length)
      ensures mk.h == old(mk.h) && (Marker.FewPushed(mk.h.roots, old(mk.ms.buf.Length)) ==> !aborted)
      ensures overflow <==> MarkRun.Overruns(mk.h, old(mk.ms.buf.Length), old(mk.marked), t.key[n])
      ensures old(mk.ms.buf.Length) <= mk.ms.buf.Length && (!overflow ==> mk.ms.buf == old(mk.ms.buf))
      ensures
        !aborted ==>
          var o, m := t.key[n], old(mk.marked);
          && Still() && m <= mk.marked <= mk.h.descr.Keys
          && mk.marked == (if overflow then mk.h.LiveSet(m + {o}) else m + mk.h.Onward(m, o)) + {o}
          && (overflow || (mk.h.Closed(m) && mk.h.RootsDone(m, [])) ==>
                mk.h.Closed(mk.marked) && mk.h.RootsDone(mk.marked, []))
    {
      hide *;
      StillParts();
      StillFacts();
      mk.QuietFacts();
      ghost var h, m := mk.h, mk.marked;
      var o := t.key[n];
      overflow, aborted := mk.MarkFo(o);
      if aborted { return; }
      mk.SetBit(o);
      KeptClosed(h, m, o, overflow, mk.marked);
      StillAgain();
    }

    lemma StillAgain()
      requires mk.Quiet() && Laid(mk.h, t.key, t.nodes, queue)
      ensures Still()
    {
    }

    lemma HeadOf(i: nat, curr: nat)
      requires i < |t.chains| && curr == Item(t.chains[i], 0) && curr != 0
      ensures |t.chains[i]| > 0 && t.chains[i][0] == curr && 0 == Item(t.chains[i], -1)
    {
    }
  }

  /** Of the entries in table and queue, `ready` went to the queue and `revived` left it for
      the table; all others are where they were, and none is in both. */
  ghost predicate Shuffled(nodes: set<nat>, queue: seq<nat>, nodes': set<nat>, queue': seq<nat>,
                           ready: seq<nat>, revived: seq<nat>)
  {
    && (forall n :: n in ready ==> n in nodes)
    && (forall n :: n in revived ==> n in ready || n in queue)
    && (forall n :: n in queue' <==> (n in ready || n in queue) && n !in revived)
    && (forall n :: n in nodes' <==> (n in nodes && n !in ready) || n in revived)
    && Distinct(queue') && Distinct(revived) && forall n :: n in queue' ==> n !in nodes'
  }

  lemma ShuffledStart(nodes: set<nat>, queue: seq<nat>, nodes': set<nat>, ready: seq<nat>)
    requires Partition(nodes, nodes', ready) && Distinct(ready + queue)
    requires forall n :: n in ready + queue ==> n !in nodes'
    ensures Shuffled(nodes, queue, nodes', ready + queue, ready, [])
  {
  }

  lemma ShuffledMore(nodes: set<nat>, queue: seq<nat>, nodes1: set<nat>, queue1: seq<nat>,
                     nodes2: set<nat>, queue2: seq<nat>, ready: seq<nat>, revived: seq<nat>)
    requires Shuffled(nodes, queue, nodes1, queue1, ready, [])
    requires Returned(queue1, queue2, nodes1, nodes2, revived)
    ensures Shuffled(nodes, queue, nodes2, queue2, ready, revived)
  {
  }

  lemma SweptMarks(key: map<nat, nat>, nodes: set<nat>, left: set<nat>, marked: set<nat>, marked': set<nat>,
                   ready: seq<nat>)
    requires Swept(key, nodes, left, marked, marked', true, ready)
    ensures marked' == marked
  {
  }

  lemma SweptExactly(key: map<nat, nat>, nodes: set<nat>, left: set<nat>, marked: set<nat>, marked': set<nat>,
                     ready: seq<nat>)
    requires Swept(key, nodes, left, marked, marked', true, ready)
    requires forall n :: n in left ==> n in key && key[n] in marked'
    ensures Queued(key, nodes, marked, ready)
  {
  }

  /** Exactly the entries of unmarked objects are in `ready`. */
  ghost predicate Queued(key: map<nat, nat>, nodes: set<nat>, marked: set<nat>, ready: seq<nat>) {
    forall n :: n in ready <==> n in nodes && n in key && key[n] !in marked
  }

  /** What the passes under Java rules do to marks, table and queue; `size` is the size of the
      mark stack when the pass over the queue begins. */
  ghost predicate JavaPasses(h: MarkHeap.Heap, key: map<nat, nat>, val: map<nat, Fo>, nodes: set<nat>, queue: seq<nat>,
                             marked: set<nat>, over: set<nat>, size: nat, needUnreachable: bool,
                             ready: seq<nat>, rescanned: bool, revived: seq<nat>, marked': set<nat>)
  {
    var m1 := marked + Reached(h, Ordering(key, val, nodes)) + over;
    var m2 := QueueMarks(h, key, val, m1, ready + queue, rescanned);
    && Queued(key, nodes, m1, ready) && Distinct(ready + queue)
    && (forall n :: n in queue ==> n in key && n in val && key[n] in marked && h.Descendants(key[n]) <= marked)
    && (rescanned <==> QueueOverruns(h, size, key, val, m1, ready + queue))
    && (rescanned ==> size <= |Reached(h, NullKeys(key, val, ready + queue)) - m1|)
    && if needUnreachable then RevivedExactly(key, val, m2, marked', ready + queue, revived)
       else revived == [] && marked' == m2
  }

  lemma JavaDone(h: MarkHeap.Heap, key: map<nat, nat>, val: map<nat, Fo>, nodes: set<nat>, queue: seq<nat>,
                 marked: set<nat>, over: set<nat>, size: nat, needUnreachable: bool, ready: seq<nat>, rescanned: bool,
                 revived: seq<nat>, m1: set<nat>, m2: set<nat>, marked': set<nat>)
    requires m1 == marked + Reached(h, Ordering(key, val, nodes)) + over
    requires m2 == QueueMarks(h, key, val, m1, ready + queue, rescanned)
    requires Queued(key, nodes, m1, ready) && Distinct(ready + queue)
    requires forall n :: n in queue ==> n in key && n in val && key[n] in marked && h.Descendants(key[n]) <= marked
    requires rescanned <==> QueueOverruns(h, size, key, val, m1, ready + queue)
    requires rescanned ==> size <= |Reached(h, NullKeys(key, val, ready + queue)) - m1|
    requires if needUnreachable then RevivedExactly(key, val, m2, marked', ready + queue, revived)
             else revived == [] && marked' == m2
    ensures JavaPasses(h, key, val, nodes, queue, marked, over, size, needUnreachable, ready, rescanned, revived,
      marked')
  {
    hide Reached, Ordering, QueueMarks, Queued, QueueOverruns, NullKeys, RevivedExactly, MarkHeap.Heap.Descendants;
  }

  lemma RevivedGrows(key: map<nat, nat>, val: map<nat, Fo>, marks: set<nat>, marks': set<nat>, queue: seq<nat>,
                     revived: seq<nat>)
    requires RevivedExactly(key, val, marks, marks', queue, revived)
    ensures marks <= marks' && marks' == marks + UnreachableKeys(key, val, queue)
  {
    assert queue[..|queue|] == queue;
  }

  /** Queued objects are marked after the first Java pass, except those of the unreachable kind. */
  lemma MarksHave(h: MarkHeap.Heap, key: map<nat, nat>, val: map<nat, Fo>, m: set<nat>, queue: seq<nat>,
                  rescanned: bool)
    ensures m <= QueueMarks(h, key, val, m, queue, rescanned)
    ensures forall n :: n in queue && n in key && n in val && val[n].proc != UnreachableProc ==>
      key[n] in QueueMarks(h, key, val, m, queue, rescanned)
  {
    hide Reached, AfterQueue;
    AfterHas(h, key, val, m, queue);
  }

  /** What is marked, once all queued objects are, is closed in the heap in which they show. */
  lemma JavaClosed(h: MarkHeap.Heap, h1: MarkHeap.Heap, h2: MarkHeap.Heap, key: map<nat, nat>, val: map<nat, Fo>,
                   queue1: seq<nat>, newly: seq<nat>, m: set<nat>, m': set<nat>, revived: seq<nat>, queue2: seq<nat>,
                   nodes1: set<nat>, nodes2: set<nat>)
    requires LedIn(h, key, val, queue1, newly, m)
    requires Shown(h, h1, key, Members(newly)) && Shown(h2, h1, key, Members(revived))
    requires m' == m + if revived == [] && queue2 == queue1 then m' - m else UnreachableKeys(key, val, queue1)
    requires m' - m <= UnreachableKeys(key, val, queue1)
    requires (revived == [] && queue2 == queue1) || Returned(queue1, queue2, nodes1, nodes2, revived)
    requires forall n :: n in queue2 ==> n in key && key[n] in m'
    ensures h2.Closed(m') && h2.RootsDone(m', [])
  {
    UnreachableClosed(h, key, val, queue1, newly, m, m');
    hide LedIn, UnreachableKeys;
    forall a: nat ensures h.Done(m', a) ==> h2.Done(m', a) {
      if a in h2.target && a !in h.target { assert a in newly; }
    }
    DoneEverywhere(h, h2, m');
  }

  lemma DoneEverywhere(h: MarkHeap.Heap, h': MarkHeap.Heap, m: set<nat>)
    requires h'.descr == h.descr && h'.roots == h.roots && h.Closed(m) && h.RootsDone(m, [])
    requires forall a: nat :: h.Done(m, a) ==> h'.Done(m, a)
    ensures h'.Closed(m) && h'.RootsDone(m, [])
  {
    hide MarkHeap.Heap.Done;
    forall o | o in m ensures h'.Scanned(m, [], o) { assert h.Scanned(m, [], o); }
    forall i | 0 <= i < |h'.roots| ensures h'.RangeDone(m, [], h'.roots[i].start, h'.roots[i].len) {
      assert h.RangeDone(m, [], h.roots[i].start, h.roots[i].len);
    }
  }

  lemma UnreachableClosed(h: MarkHeap.Heap, key: map<nat, nat>, val: map<nat, Fo>, queue: seq<nat>, newly: seq<nat>,
                          m: set<nat>, m': set<nat>)
    requires LedIn(h, key, val, queue, newly, m) && m <= m' && m' - m <= UnreachableKeys(key, val, queue)
    ensures h.Closed(m') && h.RootsDone(m', [])
  {
    LedParts(h, key, val, queue, newly, m);
    forall o | o in m' - m ensures o in h.descr && h.Descendants(o) <= m' {
      var n :| n in queue && IsUnreachable(key, val, n) && key[n] == o;
      LedMember(h, key, val, queue, newly, m, n);
    }
    hide MarkHeap.Heap.Valid, MarkHeap.Heap.Closed, MarkHeap.Heap.RootsDone, MarkHeap.Heap.Descendants,
      UnreachableKeys, LedIn;
    assert m' == m + (m' - m);
    ClosedGrows(h, m, m' - m, m');
    RootsStayDone(h, m, m');
  }

  /** Between the second pass and the third. */
  lemma LedFirst(h: MarkHeap.Heap, key: map<nat, nat>, val: map<nat, Fo>, nodes: set<nat>, left: set<nat>,
                 queue: seq<nat>, ready: seq<nat>, m: set<nat>)
    requires h.Valid() && h.Apart() && h.Closed(m) && h.RootsDone(m, []) && Partition(nodes, left, ready)
    requires forall n :: n in nodes || n in queue ==> n in m && n in key && n in val && key[n] in h.descr
    requires forall n :: n in nodes && n in key && Orders(val, n) ==> h.Descendants(key[n]) <= m
    requires forall n :: n in queue ==> key[n] in m && h.Descendants(key[n]) <= m
    ensures LedIn(h, key, val, ready + queue, ready, m)
  {
    hide MarkHeap.Heap.Valid, MarkHeap.Heap.Apart, MarkHeap.Heap.Closed, MarkHeap.Heap.RootsDone,
      MarkHeap.Heap.Descendants;
  }

  /** After one object and what it leads to has been marked. */
  lemma KeptClosed(h: MarkHeap.Heap, m: set<nat>, o: nat, overflow: bool, m': set<nat>)
    requires h.Valid() && m <= h.descr.Keys && o in h.descr
    requires m' == (if overflow then h.LiveSet(m + {o}) else m + h.Onward(m, o)) + {o}
    ensures m <= m' <= h.descr.Keys
    ensures overflow || (h.Closed(m) && h.RootsDone(m, [])) ==> h.Closed(m') && h.RootsDone(m', [])
  {
    hide *;
    h.LiveHas(m + {o});
    Marker.LiveObjects(h, m + {o});
    h.LiveSetClosed(m + {o});
    h.OnwardDone(m, o);
    if overflow {
      assert m' == h.LiveSet(m + {o});
    } else if h.Closed(m) && h.RootsDone(m, []) {
      Marker.FromClosed(h, m, o);
      h.DescendantsClosed(m, o);
      RootsStayDone(h, m, m');
      assert m' == m + h.Descendants(o) + {o};
    }
  }

  lemma MovedClosed(h: MarkHeap.Heap, h': MarkHeap.Heap, key: map<nat, nat>, n: nat, m: set<nat>)
    requires Shown(h, h', key, {n}) && n in key && key[n] in m
    ensures h.Closed(m) && h.RootsDone(m, []) ==> h'.Closed(m) && h'.RootsDone(m, [])
    ensures h'.descr == h.descr && h'.roots == h.roots
  {
    ShownDescr(h, h', key, {n});
    assert Keys(key, {n}) == {key[n]};
    hide *;
    ClosedShown(h, h', key, {n}, m);
  }

  lemma AllMarked(key: map<nat, nat>, val: map<nat, Fo>, marks: set<nat>, marks': set<nat>,
                  queue: seq<nat>, queue': seq<nat>, revived: seq<nat>, nodes: set<nat>, nodes': set<nat>)
    requires RevivedExactly(key, val, marks, marks', queue, revived) && Returned(queue, queue', nodes, nodes', revived)
    requires forall n :: n in queue && n in key && n in val && val[n].proc != UnreachableProc ==> key[n] in marks
    requires forall n :: n in queue' ==> n in key && n in val
    ensures forall n :: n in queue' ==> n in key && key[n] in marks'
  {
    assert queue[..|queue|] == queue;
    forall n | n in queue' ensures key[n] in marks' {
      if val[n].proc == UnreachableProc { assert n in queue && IsUnreachable(key, val, n); }
    }
  }

  /** When fewer unmarked objects than the mark stack has entries are behind registered ones,
      neither pass overflows it. */
  lemma JavaSmall(h: MarkHeap.Heap, key: map<nat, nat>, val: map<nat, Fo>, nodes: set<nat>, queue: seq<nat>,
                  marked: set<nat>, over: set<nat>, size0: nat, size: nat, need: bool, ready: seq<nat>, rescanned: bool,
                  revived: seq<nat>, marked': set<nat>)
    requires JavaPasses(h, key, val, nodes, queue, marked, over, size, need, ready, rescanned, revived, marked')
    requires Limits(h, size0, marked, Ordering(key, val, nodes), over, false) && size0 <= size
    requires |Reached(h, Registered(key, nodes)) - marked| < size0
    ensures over == {} && !rescanned
  {
    var reg, ord, r := Registered(key, nodes), Ordering(key, val, nodes), Reached(h, Registered(key, nodes));
    var nulls := NullKeys(key, val, ready + queue);
    var m1 := marked + Reached(h, ord) + over;
    BehindRegistered(h, key, val, nodes, queue, marked, ready, m1);
    hide Reached, QueueMarks, QueueOverruns, MarkHeap.Heap.Descendants, Verdict, RevivedExactly, Ordering, NullKeys,
      Registered;
    assert Reached(h, ord) - marked <= r - marked && Reached(h, nulls) - m1 <= r - marked;
    MarkRun.Larger(Reached(h, ord) - marked, r - marked);
    MarkRun.Larger(Reached(h, nulls) - m1, r - marked);
    SelectedIsReady(h, size0, marked, reg, ord, over, false);
  }

  lemma BehindRegistered(h: MarkHeap.Heap, key: map<nat, nat>, val: map<nat, Fo>, nodes: set<nat>, queue: seq<nat>,
                         marked: set<nat>, ready: seq<nat>, m1: set<nat>)
    requires Queued(key, nodes, m1, ready)
    requires forall n :: n in queue ==> n in key && n in val && key[n] in marked && h.Descendants(key[n]) <= marked
    ensures var r := Reached(h, Registered(key, nodes));
      Reached(h, Ordering(key, val, nodes)) <= r && Reached(h, NullKeys(key, val, ready + queue)) <= r + marked
  {
    ReachedMonotone(h, Ordering(key, val, nodes), Registered(key, nodes));
    hide MarkHeap.Heap.Descendants, Reached;
    forall o | o in NullKeys(key, val, ready + queue)
      ensures h.Descendants(o) <= Reached(h, Registered(key, nodes)) + marked
    {
      var n :| n in ready + queue && n in key && key[n] == o;
      if n in ready { ReachedHas(h, Registered(key, nodes), o); }
    }
    ReachedWithin(h, NullKeys(key, val, ready + queue), Reached(h, Registered(key, nodes)) + marked);
  }

  /** Which entries revive: of those queued before all of the unreachable kind. */
  lemma OldRevive(h: MarkHeap.Heap, key: map<nat, nat>, val: map<nat, Fo>, nodes: set<nat>, queue: seq<nat>,
                  marked: set<nat>, over: set<nat>, size: nat, ready: seq<nat>, rescanned: bool, revived: seq<nat>,
                  marked': set<nat>)
    requires JavaPasses(h, key, val, nodes, queue, marked, over, size, true, ready, rescanned, revived, marked')
    ensures forall n :: n in revived ==> IsUnreachable(key, val, n) && (n in ready || n in queue)
    ensures forall n :: n in queue && IsUnreachable(key, val, n) ==> n in revived
    ensures forall n :: n in ready ==> n in nodes && n in key && key[n] !in marked
    ensures forall n :: n in nodes && n in key && key[n] in marked ==> n !in ready
    ensures forall n :: n in queue ==> n in key && key[n] in marked
  {
    var m1 := marked + Reached(h, Ordering(key, val, nodes)) + over;
    var m2 := QueueMarks(h, key, val, m1, ready + queue, rescanned);
    MarksHave(h, key, val, m1, ready + queue, rescanned);
    hide Reached, QueueMarks, QueueOverruns, MarkHeap.Heap.Descendants, Ordering, NullKeys;
    forall n | n in revived ensures IsUnreachable(key, val, n) && (n in ready || n in queue) {
      var i := RevivedIndex(key, val, m2, marked', ready + queue, revived, n);
      assert (ready + queue)[i] in ready + queue;
    }
    forall n | n in queue && IsUnreachable(key, val, n) ensures n in revived {
      var k :| 0 <= k < |queue| && queue[k] == n;
      assert (ready + queue)[|ready| + k] == n && RevivesAt(key, val, m2, ready + queue, |ready| + k);
    }
  }

  /** No unreachable-kind entry of the queue has its object registered again, and no two of
      them share an object. */
  ghost predicate NoClash(key: map<nat, nat>, val: map<nat, Fo>, queue: seq<nat>, nodes: set<nat>) {
    && (forall n :: n in queue && IsUnreachable(key, val, n) ==> !HasKey(key, nodes, key[n]))
    && (forall n, m :: n in queue && m in queue && n != m && IsUnreachable(key, val, n) && IsUnreachable(key, val, m)
          ==> key[n] != key[m])
  }

  /** Whether an object has two table entries after GC_finalize under Java rules is known from
      table and queue before. */
  lemma UniqueAfterJava(h: MarkHeap.Heap, key: map<nat, nat>, val: map<nat, Fo>, nodes: set<nat>, queue: seq<nat>,
                        marked: set<nat>, over: set<nat>, size: nat, ready: seq<nat>, rescanned: bool,
                        revived: seq<nat>, marked': set<nat>, nodes': set<nat>, queue': seq<nat>)
    requires JavaPasses(h, key, val, nodes, queue, marked, over, size, true, ready, rescanned, revived, marked')
    requires Shuffled(nodes, queue, nodes', queue', ready, revived)
    requires UniqueKeys(key, nodes) && nodes <= key.Keys && forall n :: n in queue ==> n !in nodes
    ensures UniqueKeys(key, nodes') <==> NoClash(key, val, queue, nodes)
  {
    OldRevive(h, key, val, nodes, queue, marked, over, size, ready, rescanned, revived, marked');
    hide JavaPasses;
    assert forall n :: n in nodes' ==> n in nodes || (n in queue && n in revived);
    if UniqueKeys(key, nodes') {
      forall n | n in queue && IsUnreachable(key, val, n) ensures !HasKey(key, nodes, key[n]) {}
    }
    if NoClash(key, val, queue, nodes) {
      forall n, m | n in nodes' && m in nodes' && n in key && m in key && key[n] == key[m] ensures n == m {}
    }
  }

  lemma RevivedIndex(key: map<nat, nat>, val: map<nat, Fo>, marks: set<nat>, marks': set<nat>,
                     queue: seq<nat>, revived: seq<nat>, n: nat) returns (i: nat)
    requires RevivedExactly(key, val, marks, marks', queue, revived) && n in revived
    ensures i < |queue| && queue[i] == n && RevivesAt(key, val, marks, queue, i)
  {
    i :| 0 <= i < |queue| && queue[i] == n;
  }

  /** The bytes of the entries of `list` that are in `s`. */
  ghost function BytesIn(val: map<nat, Fo>, list: seq<nat>, s: set<nat>): nat {
    if list == [] then 0
    else (if list[0] in s && list[0] in val then Bytes(val[list[0]]) else 0) + BytesIn(val, list[1..], s)
  }

  lemma {:induction false} BytesApart(val: map<nat, Fo>, list: seq<nat>, s: set<nat>, r: set<nat>)
    requires forall n :: n in list ==> (n in s) != (n in r)
    ensures BytesIn(val, list, s) + BytesIn(val, list, r) == TotalBytes(val, list)
  {
    if list != [] {
      assert list[0] in list && forall n :: n in list[1..] ==> n in list;
      BytesApart(val, list[1..], s, r);
    }
  }

  lemma {:induction false} BytesSame(val: map<nat, Fo>, list: seq<nat>, s: set<nat>, r: set<nat>)
    requires forall n :: n in list ==> (n in s <==> n in r)
    ensures BytesIn(val, list, s) == BytesIn(val, list, r)
  {
    if list != [] {
      assert list[0] in list && forall n :: n in list[1..] ==> n in list;
      BytesSame(val, list[1..], s, r);
    }
  }

  lemma {:induction false} BytesJoin(val: map<nat, Fo>, a: seq<nat>, b: seq<nat>, s: set<nat>)
    ensures BytesIn(val, a + b, s) == BytesIn(val, a, s) + BytesIn(val, b, s)
  {
    if a == [] {
      assert a + b == b;
    } else {
      assert (a + b)[1..] == a[1..] + b;
      BytesJoin(val, a[1..], b, s);
    }
  }

  lemma {:induction false} BytesPlus(val: map<nat, Fo>, list: seq<nat>, s: set<nat>, n: nat)
    requires Distinct(list) && n in list && n !in s && n in val
    ensures BytesIn(val, list, s + {n}) == BytesIn(val, list, s) + Bytes(val[n])
  {
    if list[0] == n {
      assert n !in list[1..];
      BytesSame(val, list[1..], s, s + {n});
    } else {
      BytesPlus(val, list[1..], s, n);
    }
  }

  /** The total over some entries of a list, in any order. */
  lemma {:induction false} BytesAnyOrder(val: map<nat, Fo>, some: seq<nat>, list: seq<nat>)
    requires Distinct(some) && Distinct(list) && forall n :: n in some ==> n in list && n in val
    ensures TotalBytes(val, some) == BytesIn(val, list, Members(some))
    decreases |some|
  {
    if some == [] {
      BytesNone(val, list);
    } else {
      var n, rest := some[0], some[1..];
      assert n in some && n !in rest && forall m :: m in rest ==> m in some;
      BytesAnyOrder(val, rest, list);
      BytesPlus(val, list, Members(rest), n);
      assert Members(some) == Members(rest) + {n};
    }
  }

  lemma {:induction false} BytesNone(val: map<nat, Fo>, list: seq<nat>)
    ensures BytesIn(val, list, Members([])) == 0
  {
    if list != [] { BytesNone(val, list[1..]); }
  }

  /** GC_bytes_finalized counts the entries newly queued that do not revive, less the
      unreachable-kind entries that were queued before: these revive without having been
      counted.  It is that difference, without wrapping around, exactly if it is not negative. */
  lemma BytesWrap(h: MarkHeap.Heap, key: map<nat, nat>, val: map<nat, Fo>, nodes: set<nat>, queue: seq<nat>,
                  marked: set<nat>, over: set<nat>, size: nat, ready: seq<nat>, rescanned: bool, revived: seq<nat>,
                  marked': set<nat>)
    requires JavaPasses(h, key, val, nodes, queue, marked, over, size, true, ready, rescanned, revived, marked')
    requires Distinct(revived) && TotalBytes(val, ready) < WORD_LIMIT && TotalBytes(val, revived) < WORD_LIMIT
    ensures
      var counted := BytesIn(val, ready, Members(ready) - Members(revived));
      var before := BytesIn(val, queue, Unreachable(key, val, queue));
      var bytes := Minus(Plus(0, TotalBytes(val, ready)), TotalBytes(val, revived));
      && (before <= counted <==> bytes == counted - before)
      && (counted < before ==> bytes == WORD_LIMIT - (before - counted))
      && (Unreachable(key, val, queue) == {} ==> bytes == counted)
  {
    OldRevive(h, key, val, nodes, queue, marked, over, size, ready, rescanned, revived, marked');
    assert Distinct(ready + queue);
    hide *;
    BytesMoved(key, val, ready, queue, revived);
    BytesWithout(key, val, queue);
    Wraps(TotalBytes(val, ready), TotalBytes(val, revived));
  }

  /** The entries that revive are the unreachable kind of those queued before, and some of
      those newly queued. */
  lemma BytesMoved(key: map<nat, nat>, val: map<nat, Fo>, ready: seq<nat>, queue: seq<nat>, revived: seq<nat>)
    requires Distinct(revived) && Distinct(ready + queue)
    requires forall n :: n in revived ==> IsUnreachable(key, val, n) && (n in ready || n in queue)
    requires forall n :: n in queue && IsUnreachable(key, val, n) ==> n in revived
    ensures TotalBytes(val, ready) + BytesIn(val, queue, Unreachable(key, val, queue)) ==
      TotalBytes(val, revived) + BytesIn(val, ready, Members(ready) - Members(revived))
  {
    var r := Members(revived);
    BytesAnyOrder(val, revived, ready + queue);
    BytesJoin(val, ready, queue, r);
    BytesApart(val, ready, Members(ready) - r, r);
    BytesSame(val, queue, r, Unreachable(key, val, queue));
  }

  lemma BytesWithout(key: map<nat, nat>, val: map<nat, Fo>, queue: seq<nat>)
    ensures Unreachable(key, val, queue) == {} ==> BytesIn(val, queue, Unreachable(key, val, queue)) == 0
  {
    BytesNone(val, queue);
    assert Members([]) == {};
  }

  lemma Wraps(ready: nat, revived: nat)
    requires ready < WORD_LIMIT && revived < WORD_LIMIT
    ensures revived <= ready <==> Minus(Plus(0, ready), revived) == ready - revived
    ensures revived > ready ==> Minus(Plus(0, ready), revived) == WORD_LIMIT - (revived - ready)
  {
  }

  /** The entries of the unreachable kind. */
  ghost function Unreachable(key: map<nat, nat>, val: map<nat, Fo>, list: seq<nat>): set<nat> {
    set n | n in list && IsUnreachable(key, val, n)
  }

  lemma NoBytes(val: map<nat, Fo>)
    ensures TotalBytes(val, []) == 0
  {
  }

  lemma PartitionNone(nodes: set<nat>)
    ensures Partition(nodes, nodes, [])
  {
  }

  lemma PartitionMore(nodes: set<nat>, left: set<nat>, moved: seq<nat>, n: nat)
    requires Partition(nodes, left, moved) && n in left
    ensures Partition(nodes, left - {n}, [n] + moved)
  {
    var list := [n] + moved;
    forall k, l | 0 <= k < l < |list| ensures list[k] != list[l] {
      assert list[l] in moved;
    }
  }

  // ------------------------------------------------------- who is finalized

  /** Ready as documented: an unmarked registered object that no object registered with an
      order, itself included, leads to. */
  ghost predicate Ready(h: MarkHeap.Heap, marked: set<nat>, reg: set<nat>, ord: set<nat>, o: nat) {
    o in reg && o !in marked && forall p :: p in ord ==> !h.ReachesPlus(p, o)
  }

  /** What the code selects: a ready object from which marking did not overflow. */
  ghost predicate Selected(h: MarkHeap.Heap, marked: set<nat>, reg: set<nat>, ord: set<nat>, over: set<nat>, o: nat) {
    Ready(h, marked, reg, ord, o) && o !in over
  }

  /** When fewer unmarked objects than the mark stack has room for can be reached from
      registered objects, it does not overflow, and the ready objects are selected exactly. */
  lemma SelectedIsReady(h: MarkHeap.Heap, size: nat, m0: set<nat>, reg: set<nat>, ord: set<nat>, over: set<nat>,
                        aborted: bool)
    requires Limits(h, size, m0, ord, over, aborted) && |Reached(h, ord) - m0| < size
    ensures over == {} && !aborted
    ensures forall o :: Selected(h, m0, reg, ord, over, o) <==> Ready(h, m0, reg, ord, o)
  {
    hide MarkHeap.Heap.ReachesPlus;
    if over != {} {
      var o :| o in over;
      assert h.Descendants(o) <= Reached(h, ord);
      MarkRun.Larger(h.Descendants(o) - m0, Reached(h, ord) - m0);
    }
  }

  /** With fewer reachable unmarked objects than stack entries the objects `keys` are those ready. */
  ghost predicate ExactIfSmall(h: MarkHeap.Heap, size: nat, m0: set<nat>, reg: set<nat>, ord: set<nat>, keys: set<nat>,
                               aborted: bool)
  {
    |Reached(h, ord) - m0| < size ==> !aborted && forall o :: o in keys <==> Ready(h, m0, reg, ord, o)
  }

  lemma ExactlyReady(h: MarkHeap.Heap, size: nat, m0: set<nat>, reg: set<nat>, ord: set<nat>, over: set<nat>,
                     keys: set<nat>, aborted: bool)
    requires Limits(h, size, m0, ord, over, aborted)
    requires !aborted ==> forall o :: o in keys <==> Selected(h, m0, reg, ord, over, o)
    ensures ExactIfSmall(h, size, m0, reg, ord, keys, aborted)
  {
    hide Selected, Ready, Reached, Limits;
    if |Reached(h, ord) - m0| < size { SelectedIsReady(h, size, m0, reg, ord, over, aborted); }
  }

  /** Who was selected, and the marks that result. */
  ghost predicate Selection(h: MarkHeap.Heap, key: map<nat, nat>, val: map<nat, Fo>, nodes: set<nat>, m0: set<nat>,
                            over: set<nat>, ready: seq<nat>, m2: set<nat>)
  {
    var reg, ord := Registered(key, nodes), Ordering(key, val, nodes);
    && over <= ord - m0
    && (forall o :: o in KeysOf(key, ready) <==> Selected(h, m0, reg, ord, over, o))
    && m2 == m0 + reg + Reached(h, ord)
  }

  lemma SelectionIs(h: MarkHeap.Heap, key: map<nat, nat>, val: map<nat, Fo>, nodes: set<nat>, m0: set<nat>,
                    over: set<nat>, ready: seq<nat>, m2: set<nat>)
    requires over <= Ordering(key, val, nodes) - m0
    requires forall o :: o in KeysOf(key, ready) <==>
      Selected(h, m0, Registered(key, nodes), Ordering(key, val, nodes), over, o)
    requires m2 == m0 + Registered(key, nodes) + Reached(h, Ordering(key, val, nodes))
    ensures Selection(h, key, val, nodes, m0, over, ready, m2)
  {
    hide KeysOf, Selected, Reached, Registered, Ordering;
  }

  /** No object with an order leads to a queued one, itself included; so with normal finalizers
      no queued object leads to another, and none that lies on a cycle is queued. */
  lemma ReadyAreUnordered(h: MarkHeap.Heap, key: map<nat, nat>, val: map<nat, Fo>, nodes: set<nat>, m0: set<nat>,
                          over: set<nat>, ready: seq<nat>, m2: set<nat>)
    requires Selection(h, key, val, nodes, m0, over, ready, m2)
    ensures forall o, p :: o in Ordering(key, val, nodes) && p in KeysOf(key, ready) ==> !h.ReachesPlus(o, p)
    ensures Registered(key, nodes) == Ordering(key, val, nodes) ==>
      forall o, p :: o in KeysOf(key, ready) && p in KeysOf(key, ready) ==> !h.ReachesPlus(o, p)
  {
    hide MarkHeap.Heap.ReachesPlus, Reached, KeysOf, Ordering, Registered;
    forall o, p | o in Ordering(key, val, nodes) && p in KeysOf(key, ready) ensures !h.ReachesPlus(o, p) {
      assert Ready(h, m0, Registered(key, nodes), Ordering(key, val, nodes), p);
    }
    forall o | o in KeysOf(key, ready) ensures o in Registered(key, nodes) {}
  }

  /** Nothing unmarked is behind an object that is registered without an order only: what it
      leads to is marked before, registered, or behind an ordered object. */
  ghost predicate NothingBehind(h: MarkHeap.Heap, key: map<nat, nat>, val: map<nat, Fo>, nodes: set<nat>,
                                m0: set<nat>) {
    var reg, ord := Registered(key, nodes), Ordering(key, val, nodes);
    forall o :: o in reg && o !in ord ==> h.Descendants(o) <= m0 + reg + Reached(h, ord)
  }

  lemma OrderedLeads(h: MarkHeap.Heap, key: map<nat, nat>, val: map<nat, Fo>, nodes: set<nat>, m: set<nat>)
    requires Reached(h, Ordering(key, val, nodes)) <= m
    ensures forall n :: n in nodes && n in key && Orders(val, n) ==> h.Descendants(key[n]) <= m
  {
    hide MarkHeap.Heap.ReachesPlus;
    forall n, x | n in nodes && n in key && Orders(val, n) && x in h.Descendants(key[n]) ensures x in m {
      OrderingHas(key, val, nodes, n);
      assert x in Reached(h, Ordering(key, val, nodes));
    }
  }

  /** From what the two passes do to who was selected. */
  lemma ReadySelected(h: MarkHeap.Heap, key: map<nat, nat>, val: map<nat, Fo>, nodes: set<nat>, left: set<nat>,
                      m0: set<nat>, over: set<nat>, m1: set<nat>, m2: set<nat>, ready: seq<nat>)
    requires nodes <= key.Keys && Registered(key, nodes) <= h.descr.Keys
    requires over <= Ordering(key, val, nodes)
    requires m1 == m0 + Reached(h, Ordering(key, val, nodes)) + over
    requires Swept(key, nodes, left, m1, m2, false, ready)
    requires forall n :: n in left ==> n in key && key[n] in m2
    ensures forall o :: o in KeysOf(key, ready) <==>
      Selected(h, m0, Registered(key, nodes), Ordering(key, val, nodes), over, o)
    ensures m2 == m0 + Registered(key, nodes) + Reached(h, Ordering(key, val, nodes))
  {
    hide MarkHeap.Heap.ReachesPlus;
    var reg, ord := Registered(key, nodes), Ordering(key, val, nodes);
    forall o ensures o in KeysOf(key, ready) <==> o in reg && o !in m1 {
      if o in reg && o !in m1 {
        var n :| n in nodes && n in key && key[n] == o;
        if n in left {
          assert o in KeysOf(key, ready);
        }
      }
    }
    forall o | o in reg ensures o in m1 <==> !Selected(h, m0, reg, ord, over, o) {
    }
    forall o | o in reg ensures o in m2 {
      var n :| n in nodes && n in key && key[n] == o;
      assert n in left || n in ready;
    }
    assert over <= reg;
  }

  /** The marks that result are closed exactly if nothing is left behind; in particular when
      every object is registered with an order. */
  lemma ClosedExactly(h: MarkHeap.Heap, key: map<nat, nat>, val: map<nat, Fo>, nodes: set<nat>, m0: set<nat>)
    requires h.Valid() && h.Closed(m0) && Registered(key, nodes) <= h.descr.Keys
    ensures
      var reg, ord := Registered(key, nodes), Ordering(key, val, nodes);
      && (h.Closed(m0 + reg + Reached(h, ord)) <==> NothingBehind(h, key, val, nodes, m0))
      && (reg == ord ==> NothingBehind(h, key, val, nodes, m0))
  {
    var reg, ord := Registered(key, nodes), Ordering(key, val, nodes);
    var m2 := m0 + reg + Reached(h, ord);
    if h.Closed(m2) {
      forall o | o in reg ensures h.Descendants(o) <= m2 {
        Marker.ClosedMember(h, m2, o);
        h.DescendantsStayInside(m2, o);
      }
    }
    if NothingBehind(h, key, val, nodes, m0) {
      ReachedWords(h, ord, m2);
      hide MarkHeap.Heap.Valid, MarkHeap.Heap.Descendants, Reached, Registered, Ordering;
      forall x | x in m2 ensures h.RangeDone(m2, [], x, h.descr[x]) {
        if x in m0 {
          assert h.Scanned(m0, [], x);
          h.RangeDoneMore(m0, m2, x, h.descr[x]);
        } else if x in reg {
          if x in ord { ReachedHas(h, ord, x); }
          OwnWordsDone(h, m2, x);
        }
      }
      h.ClosedFromRanges(m2);
    }
  }

  /** The words of what is reached lead to what is reached. */
  lemma ReachedWords(h: MarkHeap.Heap, from: set<nat>, m: set<nat>)
    requires h.Valid() && Reached(h, from) <= m
    ensures Reached(h, from) <= h.descr.Keys
    ensures forall x :: x in Reached(h, from) ==> h.RangeDone(m, [], x, h.descr[x])
  {
    forall x | x in Reached(h, from) ensures h.RangeDone(m, [], x, h.descr[x]) {
      var o :| o in from && h.ReachesPlus(o, x);
      ReachedHas(h, from, o);
      BehindDone(h, m, o, x);
    }
  }

  lemma BehindDone(h: MarkHeap.Heap, m: set<nat>, o: nat, x: nat)
    requires h.Valid() && h.Descendants(o) <= m && x in h.Descendants(o)
    ensures h.RangeDone(m, [], x, h.descr[x])
  {
    MarkHeap.Absorbs(m, h.Descendants(o));
    assert o in h.descr;
    forall a | x <= a < x + h.descr[x] ensures h.Done(m, a) { h.DescendantWord(m, o, x, a); }
  }

  lemma ClosedGrows(h: MarkHeap.Heap, m1: set<nat>, more: set<nat>, m2: set<nat>)
    requires h.Valid() && h.Closed(m1) && m2 == m1 + more && more <= h.descr.Keys
    requires forall o :: o in more ==> h.Descendants(o) <= m2
    ensures h.Closed(m2)
  {
    forall o | o in m2 ensures h.Scanned(m2, [], o) {
      if o in m1 {
        h.RangeDoneMore(m1, m2, o, h.descr[o]) by { assert h.Scanned(m1, [], o); }
      } else {
        OwnWordsDone(h, m2, o);
      }
    }
  }

  lemma OwnWordsDone(h: MarkHeap.Heap, m: set<nat>, o: nat)
    requires h.Valid() && o in h.descr && h.Descendants(o) <= m
    ensures h.Scanned(m, [], o)
  {
    forall a | o <= a < o + h.descr[o] ensures h.Done(m, a) {
      if a in h.target {
        assert h.Edge(o, h.target[a]);
        h.ReachRefl(h.target[a]);
      }
    }
  }

  lemma RootsStayDone(h: MarkHeap.Heap, m: set<nat>, m': set<nat>)
    requires h.RootsDone(m, []) && m <= m'
    ensures h.RootsDone(m', [])
  {
    forall i | 0 <= i < |h.roots| ensures h.RangeDone(m', [], h.roots[i].start, h.roots[i].len) {
      h.RangeDoneMore(m, m', h.roots[i].start, h.roots[i].len);
    }
  }

  /** The entries `revived` have moved from the queue to the table; nothing else has. */
  ghost predicate Returned(queue: seq<nat>, queue': seq<nat>, nodes: set<nat>, nodes': set<nat>, revived: seq<nat>) {
    && (forall n :: n in queue <==> n in queue' || n in revived)
    && (forall n :: n in revived ==> n !in queue')
    && Distinct(queue) && Distinct(queue') && Distinct(revived)
    && (forall n :: n in nodes' <==> n in nodes || n in revived)
  }

  /** The entry at index `i` is of the unreachable kind and its object is marked when its turn
      comes: it was marked before, or an earlier entry of that kind has the same object. */
  ghost predicate RevivesAt(key: map<nat, nat>, val: map<nat, Fo>, marked: set<nat>, queue: seq<nat>, i: nat) {
    && i < |queue| && IsUnreachable(key, val, queue[i])
    && (key[queue[i]] in marked ||
        exists j :: 0 <= j < i && IsUnreachable(key, val, queue[j]) && key[queue[j]] == key[queue[i]])
  }

  predicate IsUnreachable(key: map<nat, nat>, val: map<nat, Fo>, n: nat) {
    n in key && n in val && val[n].proc == UnreachableProc
  }

  ghost function UnreachableKeys(key: map<nat, nat>, val: map<nat, Fo>, list: seq<nat>): set<nat> {
    set n | n in list && IsUnreachable(key, val, n) :: key[n]
  }

  /** Of the first `k` entries exactly those that revive are in `revived`, and the objects of
      all unreachable-kind entries among them are marked. */
  ghost predicate RevivedUpTo(key: map<nat, nat>, val: map<nat, Fo>, marked: set<nat>, marked': set<nat>,
                              queue: seq<nat>, revived: seq<nat>, k: nat)
  {
    && k <= |queue|
    && marked' == marked + UnreachableKeys(key, val, queue[..k])
    && (forall n :: n in revived ==> exists i :: 0 <= i < k && queue[i] == n)
    && (forall i :: 0 <= i < k ==> (queue[i] in revived <==> RevivesAt(key, val, marked, queue, i)))
  }

  ghost predicate RevivedExactly(key: map<nat, nat>, val: map<nat, Fo>, marked: set<nat>, marked': set<nat>,
                                 queue: seq<nat>, revived: seq<nat>)
  {
    RevivedUpTo(key, val, marked, marked', queue, revived, |queue|)
  }

  lemma RevivedNone(key: map<nat, nat>, val: map<nat, Fo>, marked: set<nat>, queue: seq<nat>)
    ensures RevivedUpTo(key, val, marked, marked, queue, [], 0)
  {
  }

  lemma UnreachableMore(key: map<nat, nat>, val: map<nat, Fo>, queue: seq<nat>, k: nat)
    requires k < |queue|
    ensures UnreachableKeys(key, val, queue[..k + 1]) ==
      UnreachableKeys(key, val, queue[..k]) + if IsUnreachable(key, val, queue[k]) then {key[queue[k]]} else {}
    ensures forall o :: o in UnreachableKeys(key, val, queue[..k]) <==>
      exists j :: 0 <= j < k && IsUnreachable(key, val, queue[j]) && key[queue[j]] == o
  {
    assert queue[..k + 1] == queue[..k] + [queue[k]];
    forall o ensures o in UnreachableKeys(key, val, queue[..k]) <==>
      exists j :: 0 <= j < k && IsUnreachable(key, val, queue[j]) && key[queue[j]] == o
    {
      if o in UnreachableKeys(key, val, queue[..k]) {
        var n :| n in queue[..k] && IsUnreachable(key, val, n) && key[n] == o;
        var j :| 0 <= j < k && queue[..k][j] == n;
        assert queue[j] == n;
      }
      if j :| 0 <= j < k && IsUnreachable(key, val, queue[j]) && key[queue[j]] == o {
        assert queue[j] in queue[..k];
      }
    }
  }

  lemma RevivedKeep(key: map<nat, nat>, val: map<nat, Fo>, marked: set<nat>, marked': set<nat>,
                    queue: seq<nat>, revived: seq<nat>, k: nat)
    requires RevivedUpTo(key, val, marked, marked', queue, revived, k) && k < |queue| && queue[k] !in revived
    requires IsUnreachable(key, val, queue[k]) ==> key[queue[k]] !in marked'
    ensures RevivedUpTo(key, val, marked, marked' + if IsUnreachable(key, val, queue[k]) then {key[queue[k]]} else {},
                        queue, revived, k + 1)
  {
    UnreachableMore(key, val, queue, k);
    hide UnreachableKeys;
  }

  lemma RevivedMove(key: map<nat, nat>, val: map<nat, Fo>, marked: set<nat>, marked': set<nat>,
                    queue: seq<nat>, revived: seq<nat>, k: nat)
    requires RevivedUpTo(key, val, marked, marked', queue, revived, k) && k < |queue|
    requires IsUnreachable(key, val, queue[k]) && key[queue[k]] in marked'
    requires forall i :: 0 <= i < k ==> queue[i] != queue[k]
    ensures RevivedUpTo(key, val, marked, marked', queue, [queue[k]] + revived, k + 1)
  {
    UnreachableMore(key, val, queue, k);
    hide UnreachableKeys;
    var list := [queue[k]] + revived;
    assert forall n :: n in list <==> n == queue[k] || n in revived;
  }

  /** The entry that comes next has not been dealt with before. */
  lemma ReturnedAt(queue: seq<nat>, queue': seq<nat>, nodes: set<nat>, nodes': set<nat>, revived: seq<nat>, pos: nat,
                   i: nat)
    requires Returned(queue, queue', nodes, nodes', revived)
    requires pos < |queue'| && i <= |queue| && queue'[pos..] == queue[i..]
    ensures i < |queue| && queue'[pos] == queue[i] && queue[i] !in revived
    ensures forall j :: 0 <= j < i ==> queue[j] != queue[i]
    ensures queue'[pos + 1..] == queue[i + 1..]
  {
    assert queue'[pos..][0] == queue[i..][0];
    assert queue'[pos + 1..] == queue'[pos..][1..] == queue[i..][1..] == queue[i + 1..];
    assert queue'[pos] in queue';
  }

  lemma ReturnedNone(queue: seq<nat>, nodes: set<nat>, val: map<nat, Fo>)
    requires Distinct(queue)
    ensures Returned(queue, queue, nodes, nodes, []) && TotalBytes(val, []) == 0
  {
  }

  lemma ReturnedMore(queue: seq<nat>, queue': seq<nat>, nodes: set<nat>, nodes': set<nat>, revived: seq<nat>, k: nat)
    requires Returned(queue, queue', nodes, nodes', revived) && k < |queue'|
    ensures Returned(queue, Without(queue', k), nodes, nodes' + {queue'[k]}, [queue'[k]] + revived)
  {
    WithoutMembers(queue', k);
    assert queue'[k] in queue';
    assert forall n :: n in [queue'[k]] + revived <==> n == queue'[k] || n in revived;
  }

  /** `nodes` has been divided into what is left and the distinct entries of `moved`. */
  ghost predicate Partition(nodes: set<nat>, left: set<nat>, moved: seq<nat>) {
    && (forall n :: n in nodes <==> n in left || n in moved)
    && (forall n :: n in moved ==> n !in left)
    && Distinct(moved)
  }

  ghost function KeysOf(key: map<nat, nat>, list: seq<nat>): set<nat> {
    set n | n in list && n in key :: key[n]
  }

  /** The entries `ready` left the table because their objects were unmarked, and unless
      finalization follows Java rules those objects were marked since. */
  ghost predicate Swept(key: map<nat, nat>, nodes: set<nat>, left: set<nat>, marked: set<nat>, marked': set<nat>,
                        java: bool, ready: seq<nat>)
  {
    && Partition(nodes, left, ready)
    && (forall n :: n in ready ==> n in key && key[n] !in marked)
    && marked' == marked + if java then {} else KeysOf(key, ready)
  }

  lemma ShownMore(h: MarkHeap.Heap, h1: MarkHeap.Heap, h2: MarkHeap.Heap, key: map<nat, nat>, list: seq<nat>,
                  more: seq<nat>)
    requires Shown(h, h1, key, Members(list)) && Shown(h1, h2, key, Members(more))
    ensures Shown(h, h2, key, Members(more + list))
  {
    hide Shown;
    assert Members(more + list) == Members(list) + Members(more);
    ShownTrans(h, h1, h2, key, Members(list), Members(more));
  }

  lemma HiddenMore(h: MarkHeap.Heap, h1: MarkHeap.Heap, h2: MarkHeap.Heap, key: map<nat, nat>, n: nat, list: seq<nat>)
    requires Shown(h, h1, key, {n}) && Shown(h1, h2, key, Members(list))
    ensures Shown(h, h2, key, Members([n] + list))
  {
    hide Shown;
    assert Members([n] + list) == {n} + Members(list);
    ShownTrans(h, h1, h2, key, {n}, Members(list));
  }

  lemma StartReady(key: map<nat, nat>, val: map<nat, Fo>, nodes: set<nat>, marked: set<nat>, java: bool)
    ensures Swept(key, nodes, nodes, marked, marked, java, []) && TotalBytes(val, []) == 0
  {
  }

  lemma SweptParts(key: map<nat, nat>, nodes: set<nat>, left: set<nat>, marked: set<nat>, marked': set<nat>,
                   java: bool, ready: seq<nat>)
    requires Swept(key, nodes, left, marked, marked', java, ready)
    ensures Partition(nodes, left, ready) && (java || KeysOf(key, ready) <= marked')
  {
  }

  lemma SweptOne(key: map<nat, nat>, nodes: set<nat>, marked: set<nat>, java: bool, n: nat)
    requires n in nodes && n in key && key[n] !in marked
    ensures Swept(key, nodes, nodes - {n}, marked, marked + if java then {} else {key[n]}, java, [n])
  {
    assert KeysOf(key, [n]) == {key[n]};
  }

  lemma SweptTrans(key: map<nat, nat>, nodes: set<nat>, mid: set<nat>, left: set<nat>,
                   marked: set<nat>, marks: set<nat>, marked': set<nat>, java: bool, ready: seq<nat>, more: seq<nat>)
    requires Swept(key, nodes, mid, marked, marks, java, ready) && Swept(key, mid, left, marks, marked', java, more)
    ensures Swept(key, nodes, left, marked, marked', java, more + ready)
  {
    var list := more + ready;
    assert KeysOf(key, list) == KeysOf(key, more) + KeysOf(key, ready);
    forall k, l | 0 <= k < l < |list| ensures list[k] != list[l] {
      if k < |more| && l >= |more| { assert more[k] in more && ready[l - |more|] in ready; }
    }
  }

  lemma {:induction false} BytesConcat(val: map<nat, Fo>, a: seq<nat>, b: seq<nat>)
    ensures TotalBytes(val, a + b) == TotalBytes(val, a) + TotalBytes(val, b)
    ensures |a| == 1 && a[0] in val ==> TotalBytes(val, a) == Bytes(val[a[0]])
  {
    if a == [] {
      assert a + b == b;
    } else {
      assert (a + b)[1..] == a[1..] + b;
      BytesConcat(val, a[1..], b);
    }
  }

  predicate Orders(val: map<nat, Fo>, n: nat) {
    n in val && val[n].proc != NullProc
  }

  /** The registered objects that must be finalized before what they lead to. */
  ghost function Ordering(key: map<nat, nat>, val: map<nat, Fo>, nodes: set<nat>): set<nat> {
    set n | n in nodes && n in key && Orders(val, n) :: key[n]
  }

  lemma OrderingHas(key: map<nat, nat>, val: map<nat, Fo>, nodes: set<nat>, n: nat)
    requires n in nodes && n in key && Orders(val, n)
    ensures key[n] in Ordering(key, val, nodes)
  {
  }

  // ------------------------------------------------------- the queue under Java rules

  /** The marks are closed; the entries `newly` are marked and so are the objects of the others,
      and what ordered ones lead to is marked. */
  ghost predicate LedIn(h: MarkHeap.Heap, key: map<nat, nat>, val: map<nat, Fo>, queue: seq<nat>, newly: seq<nat>,
                        m: set<nat>)
  {
    && h.Valid() && h.Apart() && h.Closed(m) && h.RootsDone(m, [])
    && (forall n :: n in newly ==> n in queue && n in m)
    && (forall n :: n in queue ==> n in key && n in val && key[n] in h.descr)
    && (forall n :: n in queue && Orders(val, n) ==> h.Descendants(key[n]) <= m)
    && (forall n :: n in queue && n !in newly ==> key[n] in m)
  }

  /** Marking from the unmarked object of entry `n`, which has no order, overruns the stack. */
  ghost predicate OverrunNow(h: MarkHeap.Heap, size: nat, key: map<nat, nat>, val: map<nat, Fo>, m: set<nat>, n: nat) {
    && n in key && n in val && val[n].proc == NullProc && key[n] in h.descr && key[n] !in m
    && MarkHeap.MARK_STACK_DISCARDS <= size && MarkRun.Overruns(h, size, m, key[n])
  }

  /** The marks when they are made anew: the objects of all unhidden entries, and what these
      lead to, are added. */
  ghost function WithAll(h: MarkHeap.Heap, m: set<nat>, ks: set<nat>): set<nat> {
    m + ks + Reached(h, ks)
  }

  /** What dealing with the queue entry `n` does. */
  ghost predicate QueuedStep(h: MarkHeap.Heap, size: nat, key: map<nat, nat>, val: map<nat, Fo>, newly: seq<nat>,
                             m: set<nat>, n: nat, overflow: bool, m': set<nat>, aborted: bool)
  {
    && (overflow <==> OverrunNow(h, size, key, val, m, n))
    && (overflow && n in key ==> size <= |h.Descendants(key[n]) - m|)
    && (aborted ==> overflow && !Marker.FewPushed(h.roots, size))
    && (!aborted ==> m' == if overflow then WithAll(h, m, KeysOf(key, newly)) else m + Adds(h, key, val, n))
  }

  lemma LedMember(h: MarkHeap.Heap, key: map<nat, nat>, val: map<nat, Fo>, queue: seq<nat>, newly: seq<nat>,
                  m: set<nat>, n: nat)
    requires LedIn(h, key, val, queue, newly, m) && n in queue
    ensures n in key && n in val && key[n] in h.descr
    ensures Orders(val, n) || key[n] in m ==> h.Descendants(key[n]) <= m
    ensures key[n] !in m ==> n in newly && n in m && key[n] in KeysOf(key, newly)
  {
    hide MarkHeap.Heap.Valid, MarkHeap.Heap.Apart, MarkHeap.Heap.RootsDone, MarkHeap.Heap.Descendants,
      MarkHeap.Heap.Closed;
    if key[n] in m {
      Marker.ClosedMember(h, m, key[n]);
      h.DescendantsStayInside(m, key[n]);
    }
  }

  lemma StepMarked(h: MarkHeap.Heap, size: nat, key: map<nat, nat>, val: map<nat, Fo>, queue: seq<nat>,
                   newly: seq<nat>, m: set<nat>, n: nat)
    requires LedIn(h, key, val, queue, newly, m) && n in queue && n in key && key[n] in m
    ensures QueuedStep(h, size, key, val, newly, m, n, false, m, false)
  {
    LedMember(h, key, val, queue, newly, m, n);
    hide LedIn, MarkHeap.Heap.Descendants, Reached;
    assert m + Adds(h, key, val, n) == m;
  }

  /** What marking from the object of a newly queued entry means in the heap before. */
  lemma StepUnmarked(h: MarkHeap.Heap, h': MarkHeap.Heap, size: nat, key: map<nat, nat>, val: map<nat, Fo>,
                     queue: seq<nat>, newly: seq<nat>, m: set<nat>, n: nat)
    requires LedIn(h, key, val, queue, newly, m) && n in queue && n in key && key[n] !in m
    requires h'.Valid() && Shown(h, h', key, Members(newly)) && MarkHeap.MARK_STACK_DISCARDS <= size
    ensures
      var o := key[n];
      && o in h'.descr && o in h.descr && n in val
      && m + h'.Onward(m, o) == m + h.Descendants(o) && h'.Onward(m, o) - m == h.Descendants(o) - m
      && h'.LiveSet(m + {o}) == WithAll(h, m, KeysOf(key, newly))
      && (MarkRun.Overruns(h', size, m, o) <==> MarkRun.Overruns(h, size, m, o))
      && h'.roots == h.roots
  {
    LedMember(h, key, val, queue, newly, m, n);
    LedParts(h, key, val, queue, newly, m);
    hide *;
    var o, ws := key[n], Members(newly);
    NewlyKeys(key, newly);
    ShownDescr(h, h', key, ws);
    OverrunsShown(h, h', key, ws, size, m, o);
    OnwardShown(h, h', key, ws, m, o);
    LiveShown(h, h', key, ws, m, o);
    WithAllIs(h, m, Keys(key, ws));
    MarkHeap.SameMinus(m, h'.Onward(m, o), h.Descendants(o));
  }

  lemma WithAllIs(h: MarkHeap.Heap, m: set<nat>, ks: set<nat>)
    ensures WithAll(h, m, ks) == m + ks + Reached(h, ks)
  {
  }

  lemma NewlyKeys(key: map<nat, nat>, newly: seq<nat>)
    ensures Keys(key, Members(newly)) == KeysOf(key, newly)
  {
  }

  lemma LedParts(h: MarkHeap.Heap, key: map<nat, nat>, val: map<nat, Fo>, queue: seq<nat>, newly: seq<nat>, m: set<nat>)
    requires LedIn(h, key, val, queue, newly, m)
    ensures h.Valid() && h.Apart() && h.Closed(m) && h.RootsDone(m, []) && Members(newly) <= m
    ensures forall n :: n in newly ==> n in queue
    ensures KeysOf(key, newly) <= KeysOf(key, queue) <= h.descr.Keys
  {
    hide MarkHeap.Heap.Valid, MarkHeap.Heap.Apart, MarkHeap.Heap.RootsDone, MarkHeap.Heap.Descendants,
      MarkHeap.Heap.Closed;
  }

  lemma StepDone(h: MarkHeap.Heap, h': MarkHeap.Heap, size: nat, key: map<nat, nat>, val: map<nat, Fo>,
                 queue: seq<nat>, newly: seq<nat>, m: set<nat>, n: nat, overflow: bool, m': set<nat>, aborted: bool)
    requires LedIn(h, key, val, queue, newly, m) && n in queue && n in key && n in val && key[n] !in m
    requires var o := key[n];
      && o in h'.descr && o in h.descr && MarkHeap.MARK_STACK_DISCARDS <= size && h'.roots == h.roots
      && m + h'.Onward(m, o) == m + h.Descendants(o) && h'.Onward(m, o) - m == h.Descendants(o) - m
      && h'.LiveSet(m + {o}) == WithAll(h, m, KeysOf(key, newly))
      && (MarkRun.Overruns(h', size, m, o) <==> MarkRun.Overruns(h, size, m, o))
      && if val[n].proc == NullProc then
           && (overflow <==> MarkRun.Overruns(h', size, m, o))
           && (overflow ==> size <= |h'.Onward(m, o) - m|)
           && (aborted ==> overflow && !Marker.FewPushed(h'.roots, size))
           && (!aborted ==> m' == (if overflow then h'.LiveSet(m + {o}) else m + h'.Onward(m, o)) + {o})
         else
           !overflow && !aborted && m' == if val[n].proc == UnreachableProc then m else m + {o}
    ensures QueuedStep(h, size, key, val, newly, m, n, overflow, m', aborted)
    ensures !aborted ==> m <= m' && LedIn(h, key, val, queue, newly, m')
  {
    LedMember(h, key, val, queue, newly, m, n);
    LedParts(h, key, val, queue, newly, m);
    var o := key[n];
    AddsAre(h, key, val, n);
    StepIs(h, size, key, val, newly, m, n, overflow, m', aborted);
    hide *;
    if aborted {
    } else if overflow {
      var ks := KeysOf(key, newly);
      AddedClosed(h, m, ks);
      WithAllIs(h, m, ks);
      MarkHeap.Absorbs(WithAll(h, m, ks), {o});
      LedGrows(h, key, val, queue, newly, m, m');
    } else {
      AddsClosed(h, key, val, m, n);
      if val[n].proc == NullProc { PlusBoth(m, h.Descendants(o), o); }
      MarkHeap.PlusNone(m);
      LedGrows(h, key, val, queue, newly, m, m');
    }
  }

  lemma PlusBoth(m: set<nat>, d: set<nat>, o: nat)
    ensures m + d + {o} == m + ({o} + d)
  {
  }

  lemma AddsAre(h: MarkHeap.Heap, key: map<nat, nat>, val: map<nat, Fo>, n: nat)
    requires n in key && n in val
    ensures Adds(h, key, val, n) ==
      if val[n].proc == UnreachableProc then {}
      else if val[n].proc == NullProc then {key[n]} + h.Descendants(key[n]) else {key[n]}
  {
  }

  lemma StepIs(h: MarkHeap.Heap, size: nat, key: map<nat, nat>, val: map<nat, Fo>, newly: seq<nat>, m: set<nat>, n: nat,
               overflow: bool, m': set<nat>, aborted: bool)
    requires n in key && n in val && key[n] in h.descr && key[n] !in m && MarkHeap.MARK_STACK_DISCARDS <= size
    ensures
      && (overflow <==> val[n].proc == NullProc && MarkRun.Overruns(h, size, m, key[n]))
      && (overflow ==> size <= |h.Descendants(key[n]) - m|)
      && (aborted ==> overflow && !Marker.FewPushed(h.roots, size))
      && (!aborted ==> m' == if overflow then WithAll(h, m, KeysOf(key, newly)) else m + Adds(h, key, val, n)) ==>
      QueuedStep(h, size, key, val, newly, m, n, overflow, m', aborted)
  {
    hide MarkRun.Overruns, MarkHeap.Heap.Descendants, Marker.FewPushed, WithAll, Adds, KeysOf;
  }

  lemma AddsClosed(h: MarkHeap.Heap, key: map<nat, nat>, val: map<nat, Fo>, m: set<nat>, n: nat)
    requires h.Valid() && h.Closed(m) && h.RootsDone(m, []) && n in key && n in val && key[n] in h.descr
    requires Orders(val, n) ==> h.Descendants(key[n]) <= m
    ensures var s := m + Adds(h, key, val, n); h.Closed(s) && h.RootsDone(s, [])
  {
    var o, s := key[n], m + Adds(h, key, val, n);
    h.DescendantsClosed(m, o);
    hide MarkHeap.Heap.Valid, MarkHeap.Heap.Descendants, MarkHeap.Heap.RootsDone, MarkHeap.Heap.Closed;
    RootsStayDone(h, m, s);
    if val[n].proc == UnreachableProc {
      assert s == m;
    } else {
      assert s == m + h.Descendants(o) + {o};
    }
  }

  lemma LedGrows(h: MarkHeap.Heap, key: map<nat, nat>, val: map<nat, Fo>, queue: seq<nat>, newly: seq<nat>,
                 m: set<nat>, m': set<nat>)
    requires LedIn(h, key, val, queue, newly, m) && m <= m' && h.Closed(m') && h.RootsDone(m', [])
    ensures LedIn(h, key, val, queue, newly, m')
  {
    hide MarkHeap.Heap.Valid, MarkHeap.Heap.Apart, MarkHeap.Heap.Closed, MarkHeap.Heap.RootsDone,
      MarkHeap.Heap.Descendants;
  }

  /** Marking from the object of the entry at index `k` overruns the stack, when those before
      have been dealt with and none of them did. */
  ghost predicate OverrunsAt(h: MarkHeap.Heap, size: nat, key: map<nat, nat>, val: map<nat, Fo>, m: set<nat>,
                             queue: seq<nat>, k: nat)
  {
    k < |queue| && OverrunNow(h, size, key, val, AfterQueue(h, key, val, m, queue[..k]), queue[k])
  }

  /** The first Java pass over the queue overflows a stack of that size. */
  ghost predicate QueueOverruns(h: MarkHeap.Heap, size: nat, key: map<nat, nat>, val: map<nat, Fo>, m: set<nat>,
                                queue: seq<nat>)
  {
    exists k: nat :: OverrunsAt(h, size, key, val, m, queue, k)
  }

  /** The marks after the first Java pass, depending on whether it overflowed. */
  ghost function QueueMarks(h: MarkHeap.Heap, key: map<nat, nat>, val: map<nat, Fo>, m: set<nat>, queue: seq<nat>,
                            rescanned: bool): set<nat>
  {
    if rescanned then WithAll(h, m, KeysOf(key, queue)) else AfterQueue(h, key, val, m, queue)
  }

  /** The objects registered without an order among these entries. */
  ghost function NullKeys(key: map<nat, nat>, val: map<nat, Fo>, list: seq<nat>): set<nat> {
    set n | n in list && n in key && n in val && val[n].proc == NullProc :: key[n]
  }

  /** How far the pass has come that began with marks `m0` and a stack of that size. */
  ghost predicate PassedTo(h: MarkHeap.Heap, size: nat, key: map<nat, nat>, val: map<nat, Fo>, m0: set<nat>,
                           queue: seq<nat>, newly: seq<nat>, pos: nat, rescanned: bool, m: set<nat>)
  {
    && pos <= |queue| && LedIn(h, key, val, queue, newly, m0) && LedIn(h, key, val, queue, newly, m)
    && (rescanned <==> exists k: nat :: k < pos && OverrunsAt(h, size, key, val, m0, queue, k))
    && (rescanned ==> size <= |Reached(h, NullKeys(key, val, queue)) - m0|)
    && m == if rescanned then WithAll(h, m0, KeysOf(key, queue)) else AfterQueue(h, key, val, m0, queue[..pos])
  }

  lemma StartPass(h: MarkHeap.Heap, size: nat, key: map<nat, nat>, val: map<nat, Fo>, m: set<nat>, queue: seq<nat>,
                  newly: seq<nat>)
    requires LedIn(h, key, val, queue, newly, m)
    ensures PassedTo(h, size, key, val, m, queue, newly, 0, false, m)
  {
    hide LedIn, OverrunsAt;
  }

  lemma EndPass(h: MarkHeap.Heap, size: nat, key: map<nat, nat>, val: map<nat, Fo>, m0: set<nat>, queue: seq<nat>,
                newly: seq<nat>, pos: nat, rescanned: bool, m: set<nat>)
    requires PassedTo(h, size, key, val, m0, queue, newly, pos, rescanned, m) && pos == |queue|
    ensures rescanned <==> QueueOverruns(h, size, key, val, m0, queue)
    ensures rescanned ==> size <= |Reached(h, NullKeys(key, val, queue)) - m0|
    ensures m == QueueMarks(h, key, val, m0, queue, rescanned)
  {
    hide LedIn, AfterQueue, OverrunNow, WithAll;
    assert queue[..pos] == queue;
  }

  /** One more entry of the queue. */
  lemma PassNext(h: MarkHeap.Heap, size: nat, now: nat, key: map<nat, nat>, val: map<nat, Fo>, m0: set<nat>,
                 queue: seq<nat>, newly: seq<nat>, pos: nat, rescanned: bool, m: set<nat>, overflow: bool,
                 m': set<nat>, aborted: bool)
    requires PassedTo(h, size, key, val, m0, queue, newly, pos, rescanned, m) && pos < |queue|
    requires QueuedStep(h, now, key, val, newly, m, queue[pos], overflow, m', aborted)
    requires size <= now && (rescanned || now == size)
    requires !aborted ==> LedIn(h, key, val, queue, newly, m')
    ensures aborted ==>
      && QueueOverruns(h, size, key, val, m0, queue) && size <= |Reached(h, NullKeys(key, val, queue)) - m0|
      && !Marker.FewPushed(h.roots, size)
    ensures !aborted ==> PassedTo(h, size, key, val, m0, queue, newly, pos + 1, rescanned || overflow, m')
    ensures aborted ==> overflow
  {
    var n := queue[pos];
    assert n in queue;
    LedMember(h, key, val, queue, newly, m, n);
    hide LedIn, MarkHeap.Heap.Descendants, Reached, MarkRun.Overruns, Marker.FewPushed, AfterQueue, WithAll, KeysOf,
      NullKeys, Adds;
    if rescanned {
      RescannedHas(h, key, m0, queue, n, m);
      AddsMarked(h, key, val, m, n);
    } else {
      AfterMore(h, key, val, m0, queue, pos, m);
      AfterHas(h, key, val, m0, queue[..pos]);
      assert OverrunsAt(h, size, key, val, m0, queue, pos) <==> overflow;
      if overflow {
        NullReached(h, size, key, val, m0, queue, n, m);
        if Marker.FewPushed(h.roots, size) { Marker.FewerPushed(h.roots, size, now); }
        if !aborted { RescanMarks(h, key, val, m0, queue, newly, pos, m); }
      }
    }
  }

  lemma RescannedHas(h: MarkHeap.Heap, key: map<nat, nat>, m0: set<nat>, queue: seq<nat>, n: nat, m: set<nat>)
    requires n in queue && n in key && m == WithAll(h, m0, KeysOf(key, queue))
    ensures key[n] in m
  {
    hide Reached;
  }

  lemma AddsMarked(h: MarkHeap.Heap, key: map<nat, nat>, val: map<nat, Fo>, m: set<nat>, n: nat)
    requires n in key && key[n] in m && h.Descendants(key[n]) <= m
    ensures m + Adds(h, key, val, n) == m
  {
  }

  lemma NullReached(h: MarkHeap.Heap, size: nat, key: map<nat, nat>, val: map<nat, Fo>, m0: set<nat>, queue: seq<nat>,
                    n: nat, m: set<nat>)
    requires n in queue && n in key && n in val && val[n].proc == NullProc && m0 <= m
    requires size <= |h.Descendants(key[n]) - m|
    ensures size <= |Reached(h, NullKeys(key, val, queue)) - m0|
  {
    hide MarkHeap.Heap.Descendants, Reached;
    ReachedHas(h, NullKeys(key, val, queue), key[n]);
    MarkRun.Larger(h.Descendants(key[n]) - m, Reached(h, NullKeys(key, val, queue)) - m0);
  }

  /** Whenever the marks are made anew, they are those of all queued objects. */
  lemma RescanMarks(h: MarkHeap.Heap, key: map<nat, nat>, val: map<nat, Fo>, m0: set<nat>, queue: seq<nat>,
                    newly: seq<nat>, pos: nat, m: set<nat>)
    requires LedIn(h, key, val, queue, newly, m0) && pos <= |queue| && m == AfterQueue(h, key, val, m0, queue[..pos])
    ensures WithAll(h, m, KeysOf(key, newly)) == WithAll(h, m0, KeysOf(key, queue))
  {
    hide *;
    var ks, all := KeysOf(key, newly), KeysOf(key, queue);
    var s := WithAll(h, m0, all);
    LedParts(h, key, val, queue, newly, m0);
    AfterHas(h, key, val, m0, queue[..pos]);
    WithAllIs(h, m0, all);
    WithAllIs(h, m, ks);
    AddsWithin(h, key, val, m0, queue);
    PrefixMembers(queue, pos);
    AfterWithin(h, key, val, m0, queue[..pos], s);
    OldKeys(h, key, val, queue, newly, m0);
    ReachedMonotone(h, ks, all);
    ReachedEither(h, m0, ks, all);
    SameUnion(m0, m, ks, all, Reached(h, ks), Reached(h, all));
  }

  lemma SameUnion(m0: set<nat>, m: set<nat>, ks: set<nat>, all: set<nat>, r: set<nat>, more: set<nat>)
    requires m0 <= m <= m0 + all + more && ks <= all && r <= more <= m0 + r
    requires forall o :: o in all && o !in ks ==> o in m0
    ensures m + ks + r == m0 + all + more
  {
  }

  lemma PrefixMembers(list: seq<nat>, k: nat)
    requires k <= |list|
    ensures forall n :: n in list[..k] ==> n in list
  {
  }

  lemma AddsWithin(h: MarkHeap.Heap, key: map<nat, nat>, val: map<nat, Fo>, m: set<nat>, queue: seq<nat>)
    ensures forall n :: n in queue ==> Adds(h, key, val, n) <= WithAll(h, m, KeysOf(key, queue))
  {
    hide MarkHeap.Heap.Descendants, Reached;
    forall n | n in queue ensures Adds(h, key, val, n) <= WithAll(h, m, KeysOf(key, queue)) {
      if n in key { ReachedHas(h, KeysOf(key, queue), key[n]); }
    }
  }

  lemma OldKeys(h: MarkHeap.Heap, key: map<nat, nat>, val: map<nat, Fo>, queue: seq<nat>, newly: seq<nat>, m: set<nat>)
    requires LedIn(h, key, val, queue, newly, m)
    ensures forall o :: o in KeysOf(key, queue) && o !in KeysOf(key, newly) ==> o in m && h.Descendants(o) <= m
  {
    forall o | o in KeysOf(key, queue) && o !in KeysOf(key, newly) ensures o in m && h.Descendants(o) <= m {
      var n :| n in queue && n in key && key[n] == o;
      LedMember(h, key, val, queue, newly, m, n);
    }
  }

  lemma ReachedMonotone(h: MarkHeap.Heap, from: set<nat>, more: set<nat>)
    requires from <= more
    ensures Reached(h, from) <= Reached(h, more)
  {
    hide MarkHeap.Heap.ReachesPlus;
  }

  lemma ReachedEither(h: MarkHeap.Heap, m: set<nat>, from: set<nat>, more: set<nat>)
    requires forall o :: o in more && o !in from ==> h.Descendants(o) <= m
    ensures Reached(h, more) <= m + Reached(h, from)
  {
    forall o | o in more ensures h.Descendants(o) <= m + Reached(h, from) {
      if o in from { ReachedHas(h, from, o); }
    }
    hide Reached, MarkHeap.Heap.Descendants;
    ReachedWithin(h, more, m + Reached(h, from));
  }

  lemma {:induction false} AfterWithin(h: MarkHeap.Heap, key: map<nat, nat>, val: map<nat, Fo>, m: set<nat>,
                                       queue: seq<nat>, s: set<nat>)
    requires m <= s && forall n :: n in queue ==> Adds(h, key, val, n) <= s
    ensures AfterQueue(h, key, val, m, queue) <= s
    decreases |queue|
  {
    hide Adds;
    if queue != [] {
      var rest, last := queue[..|queue| - 1], queue[|queue| - 1];
      assert queue == rest + [last];
      AfterWithin(h, key, val, m, rest, s);
    }
  }

  /** What the first Java pass marks on account of one queue entry. */
  ghost function Adds(h: MarkHeap.Heap, key: map<nat, nat>, val: map<nat, Fo>, n: nat): set<nat> {
    if n !in key || n !in val || val[n].proc == UnreachableProc then {}
    else if val[n].proc == NullProc then {key[n]} + h.Descendants(key[n])
    else {key[n]}
  }

  /** The marks after the first Java pass over the queue. */
  ghost function AfterQueue(h: MarkHeap.Heap, key: map<nat, nat>, val: map<nat, Fo>, marked: set<nat>,
                            queue: seq<nat>): set<nat> {
    if queue == [] then marked
    else AfterQueue(h, key, val, marked, queue[..|queue| - 1]) + Adds(h, key, val, queue[|queue| - 1])
  }

  lemma AfterMore(h: MarkHeap.Heap, key: map<nat, nat>, val: map<nat, Fo>, marked: set<nat>, queue: seq<nat>,
                  pos: nat, m: set<nat>)
    requires pos < |queue| && m == AfterQueue(h, key, val, marked, queue[..pos])
    ensures AfterQueue(h, key, val, marked, queue[..pos + 1]) == m + Adds(h, key, val, queue[pos])
  {
    assert queue[..pos + 1][..pos] == queue[..pos];
  }

  /** Queued objects are marked then, except those of the unreachable kind. */
  lemma {:induction false} AfterHas(h: MarkHeap.Heap, key: map<nat, nat>, val: map<nat, Fo>, marked: set<nat>,
                                    queue: seq<nat>)
    ensures marked <= AfterQueue(h, key, val, marked, queue)
    ensures forall n :: n in queue && n in key && n in val && val[n].proc != UnreachableProc ==>
      key[n] in AfterQueue(h, key, val, marked, queue)
    decreases |queue|
  {
    hide MarkHeap.Heap.Descendants;
    if queue != [] {
      var rest, last := queue[..|queue| - 1], queue[|queue| - 1];
      AfterHas(h, key, val, marked, rest);
      assert queue == rest + [last];
    }
  }

  /** When marking from registered objects can overflow the mark stack, of `size` entries at
      first: only from an object that leads to at least as many objects not marked before;
      and when there is only one object, exactly if marking from it overruns the stack. */
  ghost predicate Limits(h: MarkHeap.Heap, size: nat, m0: set<nat>, ord: set<nat>, over: set<nat>, aborted: bool)
  {
    && over <= ord
    && (forall o :: o in over ==> size <= |h.Descendants(o) - m0|)
    && (aborted ==> over != {} && !Marker.FewPushed(h.roots, size))
    && (forall o :: ord == {o} ==> Verdict(h, size, m0, o, over))
  }

  ghost predicate Verdict(h: MarkHeap.Heap, size: nat, m0: set<nat>, o: nat, over: set<nat>) {
    o !in m0 && o in h.descr && MarkHeap.MARK_STACK_DISCARDS <= size ==>
      (o in over <==> MarkRun.Overruns(h, size, m0, o))
  }

  lemma LimitsMore(h: MarkHeap.Heap, size: nat, now: nat, m0: set<nat>, seen: set<nat>, over: set<nat>, o: nat,
                   m: set<nat>, overflow: bool, aborted: bool)
    requires Limits(h, size, m0, seen, over, false) && over <= seen && size <= now &&
      MarkHeap.MARK_STACK_DISCARDS < size
    requires m == m0 + Reached(h, seen) + over && o in h.descr && o !in m && (seen == {} ==> now == size)
    requires overflow <==> MarkRun.Overruns(h, now, m, o)
    requires overflow ==> now <= |h.Descendants(o) - m|
    requires aborted ==> overflow && !Marker.FewPushed(h.roots, now)
    ensures Limits(h, size, m0, seen + {o}, over + (if overflow then {o} else {}), aborted)
  {
    hide MarkRun.Overruns, MarkHeap.Heap.Descendants, Reached, Marker.FewPushed, Verdict;
    if overflow { MarkRun.Larger(h.Descendants(o) - m, h.Descendants(o) - m0); }
    if aborted && Marker.FewPushed(h.roots, size) { Marker.FewerPushed(h.roots, size, now); }
    var over' := over + if overflow then {o} else {};
    forall p | seen + {o} == {p} ensures Verdict(h, size, m0, p, over') {
      assert p == o by { assert o in seen + {o}; }
      if o in seen { assert seen == {o}; } else { assert seen == {}; }
      VerdictMore(h, size, now, m0, seen, over, o, m, overflow);
    }
  }

  lemma VerdictMore(h: MarkHeap.Heap, size: nat, now: nat, m0: set<nat>, seen: set<nat>, over: set<nat>, o: nat,
                    m: set<nat>, overflow: bool)
    requires seen == {} || (seen == {o} && Verdict(h, size, m0, o, over))
    requires over <= seen && MarkHeap.MARK_STACK_DISCARDS < size <= now
    requires m == m0 + Reached(h, seen) + over && o in h.descr && (seen == {} ==> now == size)
    requires overflow <==> MarkRun.Overruns(h, now, m, o)
    requires overflow ==> now <= |h.Descendants(o) - m|
    ensures Verdict(h, size, m0, o, over + if overflow then {o} else {})
  {
    hide MarkRun.Overruns, MarkHeap.Heap.Descendants, Reached;
    if seen == {} {
      ReachedNone(h, m0);
      assert m == m0 && over == {};
    } else {
      DescendantsReached(h, o);
      assert h.Descendants(o) - m == {};
      assert over + {} == over;
    }
  }

  lemma LimitsMarked(h: MarkHeap.Heap, size: nat, m0: set<nat>, seen: set<nat>, over: set<nat>, o: nat, m: set<nat>)
    requires Limits(h, size, m0, seen, over, false) && m == m0 + Reached(h, seen) + over && o in m && over <= seen
    ensures Limits(h, size, m0, seen + {o}, over, false)
  {
    hide MarkRun.Overruns, MarkHeap.Heap.Descendants, Reached, Verdict;
    forall p | seen + {o} == {p} ensures Verdict(h, size, m0, p, over) {
      assert p == o by { assert o in seen + {o}; }
      if o in seen {
        assert seen == {o};
      } else {
        assert seen == {};
        ReachedNone(h, m0);
        AlreadyMarked(h, size, m0, o, over);
      }
    }
  }

  lemma AlreadyMarked(h: MarkHeap.Heap, size: nat, m0: set<nat>, o: nat, over: set<nat>)
    requires o in m0
    ensures Verdict(h, size, m0, o, over)
  {
  }

  /** What Marking says about sets, after one more object that was marked already. */
  lemma MarkedMore(h: MarkHeap.Heap, size: nat, m0: set<nat>, seen: set<nat>, over: set<nat>, o: nat, m: set<nat>,
                   ord: set<nat>)
    requires m == m0 + Reached(h, seen) + over && over <= seen - m0 && seen <= ord &&
      Limits(h, size, m0, seen, over, false)
    requires o in m && o in ord && h.Descendants(o) <= m
    ensures m == m0 + Reached(h, seen + {o}) + over && over <= (seen + {o}) - m0 && seen + {o} <= ord
    ensures Limits(h, size, m0, seen + {o}, over, false)
  {
    hide Limits, MarkHeap.Heap.Descendants, Reached;
    assert over + {} == over;
    ReachedMore(h, m0, seen, over, o, m, false);
    LimitsMarked(h, size, m0, seen, over, o, m);
  }

  /** The same for an object from which marking was done. */
  lemma UnmarkedMore(h: MarkHeap.Heap, size: nat, now: nat, m0: set<nat>, seen: set<nat>, over: set<nat>, o: nat,
                     m: set<nat>, m': set<nat>, overflow: bool, aborted: bool, ord: set<nat>)
    requires m == m0 + Reached(h, seen) + over && over <= seen - m0 && seen <= ord &&
      Limits(h, size, m0, seen, over, false)
    requires o !in m && o in ord && o in h.descr && (seen == {} ==> now == size)
    requires MarkHeap.MARK_STACK_DISCARDS < size <= now
    requires overflow <==> MarkRun.Overruns(h, now, m, o)
    requires overflow ==> now <= |h.Descendants(o) - m|
    requires aborted ==> overflow && !Marker.FewPushed(h.roots, now)
    requires !aborted ==> m' == m + h.Descendants(o) + if overflow then {o} else {}
    ensures var more := over + if overflow then {o} else {};
      if aborted then Limits(h, size, m0, ord, more, true)
      else
        && m' == m0 + Reached(h, seen + {o}) + more && more <= (seen + {o}) - m0 && seen + {o} <= ord
        && Limits(h, size, m0, seen + {o}, more, false)
  {
    hide Limits, MarkHeap.Heap.Descendants, Reached, MarkRun.Overruns, Marker.FewPushed;
    var more := over + if overflow then {o} else {};
    LimitsMore(h, size, now, m0, seen, over, o, m, overflow, aborted);
    if aborted {
      LimitsAborted(h, size, m0, seen + {o}, ord, more);
    } else {
      ReachedMore(h, m0, seen, over, o, m', overflow);
    }
  }

  // ------------------------------------------------------- the first pass

  /** The objects with an order among these entries. */
  ghost function OrderedKeys(key: map<nat, nat>, val: map<nat, Fo>, list: seq<nat>): set<nat> {
    set n | n in list && n in key && Orders(val, n) :: key[n]
  }

  /** Marking from the object of the entry at index `k` overruns the stack, when those before
      have been dealt with and none of them did. */
  ghost predicate FirstOverrunsAt(h: MarkHeap.Heap, size: nat, key: map<nat, nat>, val: map<nat, Fo>, m: set<nat>,
                                  list: seq<nat>, k: nat)
  {
    && k < |list| && list[k] in key && Orders(val, list[k]) && key[list[k]] in h.descr
    && MarkHeap.MARK_STACK_DISCARDS <= size
    && var m' := m + Reached(h, OrderedKeys(key, val, list[..k]));
       key[list[k]] !in m' && MarkRun.Overruns(h, size, m', key[list[k]])
  }

  /** The first pass over these entries, in their order, overflows a stack of that size. */
  ghost predicate FirstOverruns(h: MarkHeap.Heap, size: nat, key: map<nat, nat>, val: map<nat, Fo>, m: set<nat>,
                                list: seq<nat>)
  {
    exists k: nat :: FirstOverrunsAt(h, size, key, val, m, list, k)
  }

  /** The entries of `done` have been dealt with, and marking from the objects `over` overflowed. */
  ghost predicate FirstPass(h: MarkHeap.Heap, size: nat, now: nat, key: map<nat, nat>, val: map<nat, Fo>, m0: set<nat>,
                            done: seq<nat>, over: set<nat>, m: set<nat>, ord: set<nat>)
  {
    var seen := OrderedKeys(key, val, done);
    && m == m0 + Reached(h, seen) + over && over <= seen - m0 && seen <= ord
    && MarkHeap.MARK_STACK_DISCARDS < size <= now && (over == {} ==> now == size)
    && Limits(h, size, m0, seen, over, false)
    && (over == {} <==> !FirstOverruns(h, size, key, val, m0, done))
  }

  lemma StartFirst(h: MarkHeap.Heap, size: nat, key: map<nat, nat>, val: map<nat, Fo>, m0: set<nat>, ord: set<nat>)
    requires MarkHeap.INITIAL_MARK_STACK_SIZE <= size
    ensures FirstPass(h, size, size, key, val, m0, [], {}, m0, ord)
  {
    hide Reached, Verdict;
    assert OrderedKeys(key, val, []) == {};
    ReachedNone(h, m0);
  }

  lemma EndFirst(h: MarkHeap.Heap, size: nat, now: nat, key: map<nat, nat>, val: map<nat, Fo>, m0: set<nat>,
                 done: seq<nat>, over: set<nat>, m: set<nat>, ord: set<nat>)
    requires FirstPass(h, size, now, key, val, m0, done, over, m, ord) && ord <= OrderedKeys(key, val, done)
    ensures m == m0 + Reached(h, ord) + over && over <= ord - m0 && Limits(h, size, m0, ord, over, false)
    ensures over == {} <==> !FirstOverruns(h, size, key, val, m0, done)
    ensures size <= now && (over == {} ==> now == size)
  {
    hide OrderedKeys, Limits, FirstOverruns, Reached;
    assert ord == OrderedKeys(key, val, done);
  }

  lemma OrderedMore(key: map<nat, nat>, val: map<nat, Fo>, done: seq<nat>, n: nat)
    requires n in key && n in val
    ensures OrderedKeys(key, val, done + [n]) ==
      OrderedKeys(key, val, done) + if val[n].proc == NullProc then {} else {key[n]}
  {
  }

  /** Whether one more entry makes a difference. */
  lemma OverrunsMore(h: MarkHeap.Heap, size: nat, key: map<nat, nat>, val: map<nat, Fo>, m0: set<nat>, done: seq<nat>,
                     n: nat)
    ensures FirstOverruns(h, size, key, val, m0, done + [n]) <==>
      FirstOverruns(h, size, key, val, m0, done) || FirstOverrunsAt(h, size, key, val, m0, done + [n], |done|)
  {
    forall k: nat | k < |done|
      ensures FirstOverrunsAt(h, size, key, val, m0, done + [n], k) <==> FirstOverrunsAt(h, size, key, val, m0, done, k)
    {
      assert (done + [n])[..k] == done[..k];
    }
    hide FirstOverrunsAt;
    assert FirstOverruns(h, size, key, val, m0, done + [n]) ==>
      exists k: nat :: FirstOverrunsAt(h, size, key, val, m0, done + [n], k);
    if k: nat :| FirstOverrunsAt(h, size, key, val, m0, done + [n], k) {
      IndexBounds(h, size, key, val, m0, done + [n], k);
      if k < |done| { assert FirstOverrunsAt(h, size, key, val, m0, done, k); }
    }
    if k: nat :| FirstOverrunsAt(h, size, key, val, m0, done, k) {
      IndexBounds(h, size, key, val, m0, done, k);
      assert FirstOverrunsAt(h, size, key, val, m0, done + [n], k);
    }
  }

  lemma IndexBounds(h: MarkHeap.Heap, size: nat, key: map<nat, nat>, val: map<nat, Fo>, m0: set<nat>, list: seq<nat>,
                    k: nat)
    ensures FirstOverrunsAt(h, size, key, val, m0, list, k) ==> k < |list|
  {
  }

  lemma OverrunsAtEnd(h: MarkHeap.Heap, size: nat, key: map<nat, nat>, val: map<nat, Fo>, m0: set<nat>, done: seq<nat>,
                      n: nat, m: set<nat>)
    requires n in key && n in val && key[n] in h.descr && MarkHeap.MARK_STACK_DISCARDS <= size
    requires m == m0 + Reached(h, OrderedKeys(key, val, done))
    ensures FirstOverrunsAt(h, size, key, val, m0, done + [n], |done|) <==>
      val[n].proc != NullProc && key[n] !in m && MarkRun.Overruns(h, size, m, key[n])
  {
    hide OrderedKeys, Reached, MarkRun.Overruns;
    assert (done + [n])[..|done|] == done;
  }

  lemma AbortedFirst(h: MarkHeap.Heap, size: nat, key: map<nat, nat>, val: map<nat, Fo>, m0: set<nat>, done: seq<nat>,
                     list: seq<nat>)
    requires FirstOverruns(h, size, key, val, m0, done) && done <= list
    ensures FirstOverruns(h, size, key, val, m0, list)
  {
    var k: nat :| FirstOverrunsAt(h, size, key, val, m0, done, k);
    assert done[..k] == list[..k];
    assert FirstOverrunsAt(h, size, key, val, m0, list, k);
  }

  lemma FirstNull(h: MarkHeap.Heap, size: nat, now: nat, key: map<nat, nat>, val: map<nat, Fo>, m0: set<nat>,
                  done: seq<nat>, over: set<nat>, m: set<nat>, ord: set<nat>, n: nat)
    requires FirstPass(h, size, now, key, val, m0, done, over, m, ord)
    requires n in key && n in val && key[n] in h.descr && val[n].proc == NullProc
    ensures FirstPass(h, size, now, key, val, m0, done + [n], over, m, ord)
  {
    hide OrderedKeys, Limits, FirstOverruns, Reached, FirstOverrunsAt, MarkRun.Overruns;
    MarkHeap.PlusNone(OrderedKeys(key, val, done));
    OrderedMore(key, val, done, n);
    OverrunsMore(h, size, key, val, m0, done, n);
    OverrunsAtEnd(h, size, key, val, m0, done, n, m0 + Reached(h, OrderedKeys(key, val, done)));
  }

  lemma FirstMarked(h: MarkHeap.Heap, size: nat, now: nat, key: map<nat, nat>, val: map<nat, Fo>, m0: set<nat>,
                    done: seq<nat>, over: set<nat>, m: set<nat>, ord: set<nat>, n: nat)
    requires FirstPass(h, size, now, key, val, m0, done, over, m, ord)
    requires n in key && n in val && key[n] in h.descr && val[n].proc != NullProc && key[n] in m && key[n] in ord
    requires h.Descendants(key[n]) <= m
    ensures FirstPass(h, size, now, key, val, m0, done + [n], over, m, ord)
  {
    hide OrderedKeys, Limits, FirstOverruns, Reached, FirstOverrunsAt, MarkRun.Overruns, MarkHeap.Heap.Descendants;
    var seen := OrderedKeys(key, val, done);
    OrderedMore(key, val, done, n);
    OverrunsMore(h, size, key, val, m0, done, n);
    OverrunsAtEnd(h, size, key, val, m0, done, n, m0 + Reached(h, seen));
    MarkHeap.PlusNone(m0 + Reached(h, seen));
    MarkedMore(h, size, m0, seen, over, key[n], m, ord);
  }

  lemma FirstUnmarked(h: MarkHeap.Heap, size: nat, now: nat, later: nat, key: map<nat, nat>, val: map<nat, Fo>,
                      m0: set<nat>, done: seq<nat>, over: set<nat>, m: set<nat>, ord: set<nat>, n: nat, m': set<nat>,
                      overflow: bool, aborted: bool)
    requires FirstPass(h, size, now, key, val, m0, done, over, m, ord)
    requires n in key && n in val && val[n].proc != NullProc && key[n] !in m && key[n] in ord && key[n] in h.descr
    requires now <= later && (!overflow ==> later == now) && MarkHeap.MARK_STACK_DISCARDS <= now
    requires overflow <==> MarkRun.Overruns(h, now, m, key[n])
    requires overflow ==> now <= |h.Descendants(key[n]) - m|
    requires aborted ==> overflow && !Marker.FewPushed(h.roots, now)
    requires !aborted ==> m' == m + h.Descendants(key[n]) + if overflow then {key[n]} else {}
    ensures var more := over + if overflow then {key[n]} else {};
      if aborted then
        Limits(h, size, m0, ord, more, true) && more != {} && FirstOverruns(h, size, key, val, m0, done + [n])
      else FirstPass(h, size, later, key, val, m0, done + [n], more, m', ord)
  {
    hide OrderedKeys, Limits, FirstOverruns, Reached, FirstOverrunsAt, MarkRun.Overruns, MarkHeap.Heap.Descendants,
      Marker.FewPushed;
    var seen, o := OrderedKeys(key, val, done), key[n];
    OrderedMore(key, val, done, n);
    OverrunsMore(h, size, key, val, m0, done, n);
    OverrunsAtEnd(h, size, key, val, m0, done, n, m0 + Reached(h, seen));
    MarkHeap.PlusNone(m0 + Reached(h, seen));
    MarkHeap.PlusNone(over);
    UnmarkedMore(h, size, now, m0, seen, over, o, m, m', overflow, aborted, ord);
  }

  lemma LimitsFew(h: MarkHeap.Heap, size: nat, m0: set<nat>, ord: set<nat>, over: set<nat>, aborted: bool)
    requires Limits(h, size, m0, ord, over, aborted)
    ensures Marker.FewPushed(h.roots, size) ==> !aborted
  {
  }

  lemma LimitsAborted(h: MarkHeap.Heap, size: nat, m0: set<nat>, seen: set<nat>, ord: set<nat>, over: set<nat>)
    requires Limits(h, size, m0, seen, over, true) && over <= seen <= ord
    ensures Limits(h, size, m0, ord, over, true)
  {
  }

  lemma DescendantsReached(h: MarkHeap.Heap, o: nat)
    ensures h.Descendants(o) <= Reached(h, {o})
  {
    hide MarkHeap.Heap.ReachesPlus;
    forall t | t in h.Descendants(o) ensures t in Reached(h, {o}) {
      assert o in {o};
    }
  }

  lemma ReachedNone(h: MarkHeap.Heap, m: set<nat>)
    ensures m == m + Reached(h, {}) + {}
  {
  }

  lemma ReachedMore(h: MarkHeap.Heap, m0: set<nat>, seen: set<nat>, over: set<nat>, o: nat, m: set<nat>, overflow: bool)
    requires m == m0 + Reached(h, seen) + over + h.Descendants(o) + if overflow then {o} else {}
    ensures m == m0 + Reached(h, seen + {o}) + (over + if overflow then {o} else {})
  {
    hide MarkHeap.Heap.ReachesPlus;
    forall t ensures t in Reached(h, seen + {o}) <==> t in Reached(h, seen) || t in h.Descendants(o) {
    }
  }

  /** What registering does, given the entry `hit` that the search found, if any. */
  ghost predicate RegisterEffect(obj: nat, fo: Fo, canAdd: bool, node: nat, hit: nat, was: (nat, nat),
                                 key: map<nat, nat>, val: map<nat, Fo>, nodes: set<nat>,
                                 key': map<nat, nat>, val': map<nat, Fo>, nodes': set<nat>)
  {
    if hit != 0 then
      && hit in nodes && hit in key && key[hit] == obj && hit in val && was == (val[hit].fn, val[hit].cd)
      && key' == key
      && (if fo.fn == 0 then nodes' == nodes - {hit} && val' == val
          else nodes' == nodes && val' == val[hit := fo.(size := val[hit].size)])
    else
      && was == (0, 0)
      && (if fo.fn != 0 && canAdd then nodes' == nodes + {node} && key' == key[node := obj] && val' == val[node := fo]
          else nodes' == nodes && key' == key && val' == val)
  }

  /** Registering never gives an object two entries. */
  lemma RegisterUnique(obj: nat, fo: Fo, canAdd: bool, node: nat, hit: nat, was: (nat, nat),
                       key: map<nat, nat>, val: map<nat, Fo>, nodes: set<nat>,
                       key': map<nat, nat>, val': map<nat, Fo>, nodes': set<nat>)
    requires RegisterEffect(obj, fo, canAdd, node, hit, was, key, val, nodes, key', val', nodes')
    requires UniqueKeys(key, nodes) && node !in nodes && (hit == 0 ==> !HasKey(key, nodes, obj))
    ensures UniqueKeys(key', nodes')
    ensures forall k :: k != obj ==> (HasKey(key', nodes', k) <==> HasKey(key, nodes, k))
  {
    forall k | k != obj ensures HasKey(key', nodes', k) <==> HasKey(key, nodes, k) {
      if HasKey(key, nodes, k) {
        var n :| n in nodes && n in key && key[n] == k;
        assert n in nodes' && n in key' && key'[n] == k;
      }
      if HasKey(key', nodes', k) {
        var n :| n in nodes' && n in key' && key'[n] == k;
        assert n in nodes && n in key && key[n] == k;
      }
    }
  }

  lemma QueueFrame(next: map<nat, nat>, next': map<nat, nat>, key: map<nat, nat>, key': map<nat, nat>,
                   val: map<nat, Fo>, val': map<nat, Fo>, nodes: set<nat>, nodes': set<nat>, now: nat, queue: seq<nat>)
    requires QueueOk(next, key, val, nodes, now, queue)
    requires forall n :: n in queue ==> n !in nodes'
    requires SameOutside(nodes, next, next') || SameOutside(nodes', next, next')
    requires forall n :: n in queue ==> n in key' && n in val'
    ensures QueueOk(next', key', val', nodes', now, queue)
  {
    hide Chain;
    forall n | n in queue ensures n in next && n in next' && next'[n] == next[n] {
      ChainMember(now, next, queue, n);
    }
    ChainFrame(now, next, next', queue);
  }
}
