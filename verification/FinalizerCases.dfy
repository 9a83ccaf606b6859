/** Inputs on which GC_finalize does not do what is expected of it. */
module FinalizerCases {
  import opened MarkHeap
  import opened DeepHeap
  import opened EntryHeap
  import opened EntryWords
  import opened Finalizers
  import opened Lists
  import M = Marker
  import R = MarkRun
  import MarkLimits

  // ------------------------------------------------------------ how the inputs are made

  /** A marker with the marks that a collection leaves: those of the entries. */
  method MarkEntries(h: Heap, k: nat) returns (mk: M.Marker)
    requires Plain(h) && k < MAX_OBJS_PER_BLOCK
    ensures fresh(mk) && fresh(mk.ms) && fresh(mk.ms.buf) && mk.h == Extended(h, k) && mk.Quiet()
    ensures mk.marked == Entries(h, k) == mk.h.LiveSet(M.Kept(mk.h, {}))
    ensures mk.ms.buf.Length == INITIAL_MARK_STACK_SIZE
  {
    hide *;
    ExtendedValid(h, k);
    OnlyEntriesLive(h, k);
    MarkLimits.KeptNone(Extended(h, k));
    mk := new M.Marker(Extended(h, k), 0);
    mk.CoreQuiet();
    mk.marked := Entries(h, k);
  }

  lemma EntryFacts(h: Heap, k: nat, i: nat)
    requires Plain(h) && i < k
    ensures var e, n := Extended(h, k), Entry(h, i);
      && n != 0 && n in Entries(h, k) && n in e.descr && e.descr[n] > 0 && n !in e.target
      && n < |e.mem| && e.Hidden(n) == e
    ensures Entries(h, k) <= Extended(h, k).descr.Keys
  {
    ExtendedIs(h, k);
    hide Extended, NewBlock, Plain;
    assert Within(|h.mem|, Entry(h, i), |h.mem| + k);
    var e, n := Extended(h, k), Entry(h, i);
    assert n !in h.target;
    assert e.target - {n} == e.target;
  }

  /** An object without an entry is registered as entry `n`. */
  method RegisterNew(f: Finalization, o: nat, proc: MarkProc, n: nat)
    requires f.Valid() && f.Still() && !f.findLeak && !HasKey(f.t.key, f.t.nodes, o)
    requires n != 0 && n !in f.t.nodes && n !in f.queue && n < |f.mk.h.mem|
    requires n in f.mk.h.descr && f.mk.h.descr[n] > 0 && o in f.mk.h.descr
    modifies f.t, f.t.heads, f.mk`h, f.mk`pushed, f.mk`considered, f.mk`dropped
    ensures f.Valid() && f.Still() && (f.mk.h == old(f.mk.h) || f.mk.h == old(f.mk.h).Hidden(n))
    ensures f.t.nodes == old(f.t.nodes) + {n}
    ensures f.t.key == old(f.t.key)[n := o] && f.t.val == old(f.t.val)[n := Fo(1, 0, 0, proc)]
    ensures f.t.heads == old(f.t.heads) || fresh(f.t.heads)
  {
    hide Finalization.Valid, Finalization.Still, HasKey, RegisterEffect, Heap.Hidden;
    var was; ghost var hit;
    ghost var key, val, nodes := f.t.key, f.t.val, f.t.nodes;
    was, hit := f.Register(o, 1, 0, proc, f.t.logSize == -1, n, true, 0);
    RegisteredNew(o, proc, n, hit, was, key, val, nodes, f.t.key, f.t.val, f.t.nodes);
  }

  lemma RegisteredNew(o: nat, proc: MarkProc, n: nat, hit: nat, was: (nat, nat), key: map<nat, nat>, val: map<nat, Fo>,
                      nodes: set<nat>, key': map<nat, nat>, val': map<nat, Fo>, nodes': set<nat>)
    requires RegisterEffect(o, Fo(1, 0, 0, proc), true, n, hit, was, key, val, nodes, key', val', nodes')
    requires hit == 0
    ensures nodes' == nodes + {n} && key' == key[n := o] && val' == val[n := Fo(1, 0, 0, proc)]
  {
  }

  /** After a collection of the heap only object `o` is registered, as the first entry. */
  method Setup(h: Heap, k: nat, o: nat, proc: MarkProc, java: bool) returns (f: Finalization)
    requires Plain(h) && 0 < k < MAX_OBJS_PER_BLOCK && o in Extended(h, k).descr
    ensures fresh(f) && fresh(f.t) && fresh(f.t.heads) && fresh(f.mk) && fresh(f.mk.ms) && fresh(f.mk.ms.buf)
    ensures f.Valid() && f.Marked() && f.Still() && f.java == java && !f.findLeak && f.queue == []
    ensures f.mk.h == Extended(h, k) && f.mk.marked == Entries(h, k) && f.mk.ms.buf.Length == INITIAL_MARK_STACK_SIZE
    ensures f.t.nodes == {Entry(h, 0)} && Entry(h, 0) in f.t.key && f.t.key[Entry(h, 0)] == o
    ensures Entry(h, 0) in f.t.val && f.t.val[Entry(h, 0)] == Fo(1, 0, 0, proc)
  {
    hide *;
    var mk := MarkEntries(h, k);
    f := new Finalization(mk, java, false);
    ExtendedValid(h, k);
    EntryFacts(h, k, 0);
    f.StartStill();
    NoKeys(f.t.key, o);
    RegisterNew(f, o, proc, Entry(h, 0));
    ExtendedIs(h, k);
    EntriesClosed(h, k, Extended(h, k));
    f.SettledIs();
    f.EntriesIn();
    f.Resettle();
  }

  lemma NoKeys(key: map<nat, nat>, o: nat)
    ensures !HasKey(key, {}, o)
  {
  }

  /** Of the objects of these entries `o` alone has an order, or none has. */
  lemma LoneKeys(key: map<nat, nat>, val: map<nat, Fo>, n: nat)
    requires n in key && n in val
    ensures Registered(key, {n}) == {key[n]}
    ensures Ordering(key, val, {n}) == if val[n].proc == NullProc then {} else {key[n]}
  {
  }

  lemma KeysOfSome(key: map<nat, nat>, list: seq<nat>)
    ensures list != [] && (forall n :: n in list ==> n in key) ==> KeysOf(key, list) != {}
  {
    if list != [] && forall n :: n in list ==> n in key {
      assert list[0] in list;
      assert key[list[0]] in KeysOf(key, list);
    }
  }

  lemma OneRoot(h: Heap, k: nat, size: nat)
    requires INITIAL_MARK_STACK_SIZE <= size
    ensures M.FewPushed(Extended(h, k).roots, size)
  {
    var roots := Extended(h, k).roots;
    assert roots == [Root(|h.mem| + k, k, false)];
    assert roots[..0] == [];
  }

  // ------------------------------------------------------------ mark stack overflow

  /** A chain longer than a new mark stack. */
  function Chain(): Heap {
    Deep(INITIAL_MARK_STACK_SIZE + 1)
  }

  lemma ChainPlain()
    ensures Plain(Chain()) && |Chain().mem| > 0
  {
    DeepValid(INITIAL_MARK_STACK_SIZE + 1);
    DeepSpread(INITIAL_MARK_STACK_SIZE + 1);
    hide Heap.Valid, Deep;
  }

  lemma DeepSpread(n: nat)
    requires n > 0
    ensures var h := Deep(n);
      && |h.mem| > 0 && h.roots == []
      && (forall o :: o in h.descr ==> o < |h.mem|)
      && (forall o, p :: o in h.descr && p in h.descr && o < p ==> o + h.descr[o] <= p)
      && (forall a :: a in h.target ==> a < |h.mem| && h.mem[a] < |h.mem|)
  {
  }

  function LongChain(k: nat): Heap {
    Extended(Chain(), k)
  }

  lemma LongChainOverruns(k: nat, m: set<nat>)
    requires m == Entries(Chain(), k)
    ensures Node(0) in LongChain(k).descr && R.Overruns(LongChain(k), INITIAL_MARK_STACK_SIZE, m, Node(0))
    ensures Node(0) !in m
    ensures forall o :: !LongChain(k).ReachesPlus(o, Node(0))
  {
    var n := INITIAL_MARK_STACK_SIZE + 1;
    var h := Deep(n);
    ChainPlain();
    ExtendedIs(h, k);
    NoneOnChain(n, k);
    MarkLimits.DeepOverruns(n, INITIAL_MARK_STACK_SIZE, m);
    ExtendedOverruns(h, k, Extended(h, k), INITIAL_MARK_STACK_SIZE, m, Node(0));
    MarkLimits.DeepTargets(n);
    ChainStart(h, k, Extended(h, k));
    hide Deep, Extended, Heap.ReachesPlus, R.Overruns;
    forall o ensures !LongChain(k).ReachesPlus(o, Node(0)) { Undesignated(Extended(h, k), o, Node(0)); }
  }

  lemma LongChainIs(k: nat)
    ensures LongChain(k) == Extended(Chain(), k)
  {
  }

  lemma NoneOnChain(n: nat, k: nat)
    requires n > 0
    ensures Fresh(n, 0, Entries(Deep(n), k)) && Node(0) !in Entries(Deep(n), k)
  {
  }

  lemma ChainStart(h: Heap, k: nat, e: Heap)
    requires Extends(h, k, e) && |h.mem| > 0 && forall a :: a in h.target ==> h.target[a] != Node(0)
    ensures forall a :: a in e.target ==> e.target[a] != Node(0)
  {
  }

  /** The first node of a long chain is registered and unmarked, and nothing leads to it, but
      marking from it overflows the mark stack: it is not queued. */
  method NotQueued() returns (f: Finalization, ghost ready: seq<nat>)
    ensures ready == [] && Registered(f.t.key, f.t.nodes) == {Node(0)}
    ensures Ready(LongChain(1), Entries(Chain(), 1), {Node(0)}, {Node(0)}, Node(0))
  {
    ChainPlain();
    LongChainOverruns(1, Entries(Chain(), 1));
    FewEntries();
    hide *;
    LongChainIs(1);
    LoneReady(LongChain(1), Entries(Chain(), 1), Node(0));
    f, ready := NotQueuedOn(Chain(), 1, Node(0));
  }

  method NotQueuedOn(h: Heap, k: nat, o: nat) returns (f: Finalization, ghost ready: seq<nat>)
    requires Plain(h) && 0 < k < MAX_OBJS_PER_BLOCK && o in Extended(h, k).descr && o !in Entries(h, k)
    requires R.Overruns(Extended(h, k), INITIAL_MARK_STACK_SIZE, Entries(h, k), o)
    ensures ready == [] && Registered(f.t.key, f.t.nodes) == {o}
  {
    Sizes();
    hide *;
    f := Setup(h, k, o, NormalProc, false);
    ghost var n, size := Entry(h, 0), INITIAL_MARK_STACK_SIZE;
    var over, aborted;
    ready, over, aborted := f.Finalize();
    OneRoot(h, k, size);
    LoneOver(Extended(h, k), size, f.t.key, f.t.val, n, Entries(h, k), over, aborted, ready, f.t.nodes, f.mk.marked);
  }

  lemma LoneReady(h: Heap, m: set<nat>, o: nat)
    requires o !in m && forall p :: !h.ReachesPlus(p, o)
    ensures Ready(h, m, {o}, {o}, o)
  {
    hide Heap.ReachesPlus;
  }

  /** What follows for the only entry when marking from its object overruns the stack. */
  lemma LoneOver(h: Heap, size: nat, key: map<nat, nat>, val: map<nat, Fo>, n: nat, m: set<nat>, over: set<nat>,
                 aborted: bool, ready: seq<nat>, nodes': set<nat>, m': set<nat>)
    requires n in key && n in val && val[n].proc != NullProc && key[n] in h.descr && key[n] !in m
    requires MARK_STACK_DISCARDS <= size && R.Overruns(h, size, m, key[n]) && M.FewPushed(h.roots, size)
    requires Limits(h, size, m, Ordering(key, val, {n}), over, aborted)
    requires !aborted ==> Selection(h, key, val, {n}, m, over, ready, m') && Partition({n}, nodes', ready)
    ensures !aborted && ready == [] && nodes' == {n} && Registered(key, nodes') == {key[n]}
  {
    LoneKeys(key, val, n);
    hide R.Overruns, M.FewPushed, Ready, Reached;
    assert Verdict(h, size, m, key[n], over);
    assert forall o :: o in KeysOf(key, ready) ==> o !in over && o in Registered(key, {n});
    KeysOfSome(key, ready);
  }

  // ------------------------------------------------------------ entries without an order

  /** An object that points to another one. */
  function Pair(): Heap {
    Heap([1, 0], 1, 2, map[0 := 1], map[0 := 1, 1 := 0],
         [Block(1, 1, Normal, 1, [0]), Block(2, 1, Normal, 0, [1])], [])
  }

  lemma PairPlain()
    ensures Plain(Pair())
  {
    var h := Pair();
    assert h.blocks[0].objs == [0] && h.blocks[1].objs == [1];
    assert h.ValidBlock(h.blocks[0]) && h.ValidBlock(h.blocks[1]);
    hide Heap.ValidBlock;
  }

  lemma PairLeads(k: nat)
    ensures 0 in Extended(Pair(), k).descr && 1 in Extended(Pair(), k).Descendants(0)
    ensures 0 !in Entries(Pair(), k) && 1 !in Entries(Pair(), k)
  {
    PairPlain();
    ExtendedIs(Pair(), k);
    assert 0 in Pair().target && 0 in Pair().descr && 1 in Pair().descr;
    hide Extended, NewBlock, Pair;
    var e := Extended(Pair(), k);
    EdgeKept(Pair(), k, e, 0, 1, 0);
    e.ReachRefl(1);
    hide Heap.Reaches, Extends;
  }

  lemma EdgeKept(h: Heap, k: nat, e: Heap, o: nat, t: nat, a: nat)
    requires Extends(h, k, e) && o in h.descr && o <= a < o + h.descr[o] && a in h.target && h.target[a] == t
    ensures e.Edge(o, t) && o in e.descr && t in e.descr && o !in Entries(h, k) && t !in Entries(h, k)
  {
    hide NewBlock;
  }

  /** An object registered without an order is queued and marked, but what it points to is
      not: the marks are not closed. */
  method LeavesOpen() returns (f: Finalization, ghost ready: seq<nat>)
    ensures 0 in KeysOf(f.t.key, ready) && 0 in f.mk.marked && 1 !in f.mk.marked && !f.mk.h.Closed(f.mk.marked)
  {
    ghost var h, m, size := Extended(Pair(), 1), Entries(Pair(), 1), INITIAL_MARK_STACK_SIZE;
    PairPlain();
    PairLeads(1);
    hide *;
    f := Setup(Pair(), 1, 0, NullProc, false);
    ghost var n := Entry(Pair(), 0);
    var over, aborted;
    ready, over, aborted := f.Finalize();
    OneRoot(Pair(), 1, size);
    LoneOpen(h, size, f.t.key, f.t.val, n, m, over, aborted, ready, f.mk.marked);
  }

  lemma LoneOpen(h: Heap, size: nat, key: map<nat, nat>, val: map<nat, Fo>, n: nat, m: set<nat>, over: set<nat>,
                 aborted: bool, ready: seq<nat>, m': set<nat>)
    requires n in key && n in val && val[n].proc == NullProc && key[n] == 0 && 0 !in m && 1 !in m
    requires 1 in h.Descendants(0) && M.FewPushed(h.roots, size)
    requires Limits(h, size, m, Ordering(key, val, {n}), over, aborted)
    requires !aborted ==> Selection(h, key, val, {n}, m, over, ready, m')
    ensures !aborted && 0 in KeysOf(key, ready) && 0 in m' && 1 !in m' && !NothingBehind(h, key, val, {n}, m)
  {
    LoneKeys(key, val, n);
    hide M.FewPushed, Heap.Descendants, Heap.ReachesPlus;
    assert Reached(h, {}) == {};
    assert Selected(h, m, {0}, {}, over, 0);
  }

  // ------------------------------------------------------------ Java finalization

  /** An object without pointers. */
  function Single(): Heap {
    Heap([0], 1, 2, map[], map[0 := 0], [Block(1, 1, PtrFree, 0, [0])], [])
  }

  lemma SinglePlain()
    ensures Plain(Single()) && 0 in Single().descr
  {
    var h := Single();
    assert h.blocks[0].objs == [0];
    assert h.ValidBlock(h.blocks[0]);
  }

  /** The entries are designated by root words, which finalization leaves alone. */
  lemma StillLive(h: Heap, k: nat, e: Heap, e': Heap, from: set<nat>)
    requires Extends(h, k, e) && e'.roots == e.roots && e'.descr == e.descr
    requires forall a :: a in e.target ==> a in e'.target && e'.target[a] == e.target[a]
    ensures Entries(h, k) <= e'.LiveSet(from)
  {
    hide NewBlock;
    forall o | o in Entries(h, k) ensures o in e'.descr && e'.Live(from, o) {
      assert Within(|h.mem|, o, |h.mem| + k) && Within(|h.mem| + k, o + k, |h.mem| + 2 * k);
      assert o + k in e.target && o + k in e'.target && e'.target[o + k] == o;
      assert e'.roots[0].start <= o + k < e'.roots[0].start + e'.roots[0].len;
      assert e'.RootTarget(o);
      e'.ReachRefl(o);
    }
  }

  /** An object is registered as unreachable, is queued, and is registered again while it is
      queued.  The next collection marks it, since its queued entry designates it: that entry is
      revived, the object has two entries, and the count of finalized bytes wraps around. */
  method TwoEntries() returns (f: Finalization)
    ensures !UniqueKeys(f.t.key, f.t.nodes) && Registered(f.t.key, f.t.nodes) == {0}
    ensures f.bytes == WORD_LIMIT - FO_BYTES
  {
    hide *;
    SinglePlain();
    Entry2();
    ghost var h, e1, e2 := Extended(Single(), 2), Entry(Single(), 0), Entry(Single(), 1);
    EntryFacts(Single(), 2, 0);
    EntryFacts(Single(), 2, 1);
    ExtendedIs(Single(), 2);
    OldObject(Single(), 2, h, 0);
    f := Setup(Single(), 2, 0, UnreachableProc, true);
    FirstCycle(f);
    NoKeys(f.t.key, 0);
    SameSize(h, f.mk.h, f.t.key);
    FirstDone(h, f.mk.h, f.t.key);
    RegisterNew(f, 0, UnreachableProc, Entry(Single(), 1));
    Collected(f);
    SecondCycle(f);
    TwoKeys(f.t.key, f.t.nodes, e1, e2);
  }

  lemma SameSize(h: Heap, h': Heap, key: map<nat, nat>)
    requires Rewritten(h, h', key, {1}, {})
    ensures |h'.mem| == |h.mem| && h'.descr == h.descr
  {
  }

  lemma Entry2()
    ensures 2 < MAX_OBJS_PER_BLOCK && Entry(Single(), 0) == 1 && Entry(Single(), 1) == 2
    ensures 0 < INITIAL_MARK_STACK_SIZE
  {
  }

  lemma UnreachableIs(key: map<nat, nat>, val: map<nat, Fo>, n: nat)
    ensures n in key && n in val && val[n].proc == UnreachableProc ==> IsUnreachable(key, val, n)
  {
  }

  /** Where nothing is behind the ordered objects marking from them does not overflow. */
  lemma NoneOver(h: Heap, size: nat, m: set<nat>, o: nat, over: set<nat>)
    requires h.Descendants(o) == {} && Limits(h, size, m, {o}, over, false) && size > 0
    ensures over == {} && m + Reached(h, {o}) + over == m
  {
    NothingReached(h, o);
    hide Heap.Descendants, Verdict, Reached;
    assert |h.Descendants(o) - m| == 0;
  }

  lemma OldObject(h: Heap, k: nat, e: Heap, o: nat)
    requires Extends(h, k, e) && o in h.descr
    ensures o in e.descr && o !in Entries(h, k)
  {
    hide NewBlock;
  }

  lemma TwoKeys(key: map<nat, nat>, nodes: set<nat>, e1: nat, e2: nat)
    requires nodes == {e1, e2} && e1 != e2 && e1 in key && e2 in key && key[e1] == 0 && key[e2] == 0
    ensures !UniqueKeys(key, nodes) && Registered(key, nodes) == {0}
  {
  }

  /** The object is queued. */
  method FirstCycle(f: Finalization)
    requires f.Valid() && f.Marked() && f.java && f.queue == [] && f.mk.h == Extended(Single(), 2)
    requires f.mk.marked == Entries(Single(), 2) && f.t.nodes == {1} && 1 in f.t.key && f.t.key[1] == 0
    requires 1 in f.t.val && f.t.val[1] == Fo(1, 0, 0, UnreachableProc)
    modifies f, f.t, f.t.heads, f.mk, f.mk.ms, f.mk.ms.buf
    ensures f.Valid() && f.Still() && f.queue == [1] && f.t.nodes == {} && f.mk.marked <= f.mk.h.descr.Keys
    ensures f.t.key == old(f.t.key) && f.t.val == old(f.t.val)
    ensures f.t.heads == old(f.t.heads) || fresh(f.t.heads)
    ensures f.mk.ms.buf == old(f.mk.ms.buf) || fresh(f.mk.ms.buf)
    ensures Rewritten(Extended(Single(), 2), f.mk.h, f.t.key, {1}, {})
  {
    hide *;
    ghost var h, m, size := f.mk.h, f.mk.marked, f.mk.ms.buf.Length;
    f.MarkedFacts();
    OneRoot(Single(), 2, size);
    Entry2();
    SinglePlain();
    ExtendedIs(Single(), 2);
    SingleLeads(h);
    UnreachableIs(f.t.key, f.t.val, 1);
    MembersOne(1);
    MembersNone();
    var over, rescanned, aborted; ghost var ready, revived, size';
    ready, revived, over, rescanned, size', aborted := f.FinalizeJava(true);
    LoneQueued(h, size, f.t.key, f.t.val, 1, m, over, size', ready, rescanned, revived, f.mk.marked, f.t.nodes,
      f.queue);
    f.MarkedFacts();
  }

  lemma SingleLeads(e: Heap)
    requires Extends(Single(), 2, e)
    ensures e.Descendants(0) == {} && 0 in e.descr && 0 !in Entries(Single(), 2)
  {
    hide NewBlock;
    assert 0 in Single().descr;
    LeadsNowhere(e, 0);
  }

  /** The only entry is of the unreachable kind, and its object leads nowhere. */
  lemma LoneQueued(h: Heap, size: nat, key: map<nat, nat>, val: map<nat, Fo>, n: nat, m: set<nat>, over: set<nat>,
                   size': nat, ready: seq<nat>, rescanned: bool, revived: seq<nat>, marked': set<nat>,
                   nodes': set<nat>, queue': seq<nat>)
    requires n in key && IsUnreachable(key, val, n) && key[n] in h.descr && key[n] !in m && h.Descendants(key[n]) == {}
    requires Limits(h, size, m, Ordering(key, val, {n}), over, false) && size > 0
    requires JavaPasses(h, key, val, {n}, [], m, over, size', true, ready, rescanned, revived, marked')
    requires Shuffled({n}, [], nodes', queue', ready, revived)
    ensures ready == [n] && revived == [] && nodes' == {} && queue' == [n]
  {
    LoneKeys(key, val, n);
    NoneOver(h, size, m, key[n], over);
    hide Heap.Descendants, Reached, Limits;
    assert forall x :: x in ready <==> x == n;
    OnlyMember(ready, n);
    assert ready + [] == ready;
    NoNull(h, size', key, val, m, n);
    LoneStays(h, key, val, n, m, marked', revived);
    OnlyMember(queue', n);
    assert nodes' == {};
  }

  lemma NothingReached(h: Heap, o: nat)
    requires h.Descendants(o) == {}
    ensures Reached(h, {o}) == {}
  {
    hide Heap.ReachesPlus;
    assert forall t :: t in h.descr && h.ReachesPlus(o, t) ==> t in h.Descendants(o);
  }

  lemma NoNull(h: Heap, size: nat, key: map<nat, nat>, val: map<nat, Fo>, m: set<nat>, n: nat)
    requires IsUnreachable(key, val, n)
    ensures !QueueOverruns(h, size, key, val, m, [n])
    ensures QueueMarks(h, key, val, m, [n], false) == m
  {
    hide R.Overruns, Reached;
    assert AfterQueue(h, key, val, m, [n]) == AfterQueue(h, key, val, m, [n][..0]) + Adds(h, key, val, n) == m;
  }

  lemma LoneStays(h: Heap, key: map<nat, nat>, val: map<nat, Fo>, n: nat, m: set<nat>, marked': set<nat>,
                  revived: seq<nat>)
    requires IsUnreachable(key, val, n) && key[n] !in m && RevivedExactly(key, val, m, marked', [n], revived)
    ensures revived == []
  {
    if revived != [] {
      var i := RevivedIndex(key, val, m, marked', [n], revived, revived[0]);
    }
  }

  lemma OnlyMember(list: seq<nat>, x: nat)
    requires Distinct(list) && forall n :: n in list <==> n == x
    ensures list == [x]
  {
    assert x in list;
    FirstTwo(list);
  }

  lemma FirstTwo(list: seq<nat>)
    ensures |list| > 0 ==> list[0] in list
    ensures |list| > 1 ==> list[1] in list
  {
  }

  lemma NoMember(list: seq<nat>)
    requires forall n :: n !in list
    ensures list == []
  {
    FirstTwo(list);
  }

  /** Nothing is hidden in `h` that shows in `e`. */
  ghost predicate ShowsMore(e: Heap, h: Heap) {
    && h.descr == e.descr && h.roots == e.roots && h.blocks == e.blocks
    && forall a :: a in e.target ==> a in h.target && h.target[a] == e.target[a]
  }

  lemma FirstDone(e: Heap, h: Heap, key: map<nat, nat>)
    requires Rewritten(e, h, key, {1}, {}) && 2 < |h.mem| && 2 !in e.target
    ensures ShowsMore(e, h) && ShowsMore(e, h.Hidden(2)) && h.Hidden(2).descr == h.descr
  {
  }

  /** A second collection. */
  method Collected(f: Finalization)
    requires f.Valid() && f.Still() && f.queue == [1] && f.t.nodes == {2} && f.mk.marked <= f.mk.h.descr.Keys
    requires ShowsMore(Extended(Single(), 2), f.mk.h)
    modifies f.mk, f.mk.ms, f.mk.ms.buf
    ensures f.Valid() && f.Marked() && f.mk.h == old(f.mk.h)
    ensures f.mk.ms.buf == old(f.mk.ms.buf) || fresh(f.mk.ms.buf)
  {
    hide *;
    f.StillFacts();
    f.StillParts();
    f.mk.QuietFacts();
    ghost var h, size := f.mk.h, f.mk.ms.buf.Length;
    SecondLive(h, f.mk.marked);
    var r := f.mk.Collect(false);
    FewEnough(h, size);
    f.MarkedAgain({1, 2});
  }

  lemma SecondLive(h: Heap, m: set<nat>)
    requires ShowsMore(Extended(Single(), 2), h)
    ensures {1, 2} <= h.LiveSet(M.Kept(h, m))
  {
    SinglePlain();
    ExtendedIs(Single(), 2);
    BothEntries();
    hide *;
    ShowsFacts(Extended(Single(), 2), h);
    StillLive(Single(), 2, Extended(Single(), 2), h, M.Kept(h, m));
  }

  lemma BothEntries()
    ensures {1, 2} <= Entries(Single(), 2)
  {
    assert Within(1, 1, 3) && Within(1, 2, 3);
  }

  lemma ShowsFacts(e: Heap, h: Heap)
    requires ShowsMore(e, h)
    ensures h.descr == e.descr && h.roots == e.roots
    ensures forall a :: a in e.target ==> a in h.target && h.target[a] == e.target[a]
  {
  }

  lemma FewEnough(h: Heap, size: nat)
    requires ShowsMore(Extended(Single(), 2), h)
    ensures INITIAL_MARK_STACK_SIZE <= size ==> M.FewPushed(h.roots, size)
  {
    if INITIAL_MARK_STACK_SIZE <= size { OneRoot(Single(), 2, size); }
  }

  /** The object's first entry is revived. */
  method SecondCycle(f: Finalization)
    requires f.Valid() && f.Marked() && f.java && f.queue == [1] && f.t.nodes == {2}
    requires ShowsMore(Extended(Single(), 2), f.mk.h)
    requires 1 in f.t.key && f.t.key[1] == 0 && 2 in f.t.key && f.t.key[2] == 0
    requires 1 in f.t.val && f.t.val[1] == Fo(1, 0, 0, UnreachableProc)
    modifies f, f.t, f.t.heads, f.mk, f.mk.ms, f.mk.ms.buf
    ensures f.t.nodes == {1, 2} && f.t.key == old(f.t.key) && f.bytes == WORD_LIMIT - FO_BYTES
  {
    hide *;
    ghost var h, m, size := f.mk.h, f.mk.marked, f.mk.ms.buf.Length;
    f.MarkedFacts();
    FewEnough(h, size);
    var over, rescanned, aborted; ghost var ready, revived, size';
    ready, revived, over, rescanned, size', aborted := f.FinalizeJava(true);
    SecondPasses(h, f.t.key, f.t.val, m, over, size', ready, rescanned, revived, f.mk.marked, f.t.nodes, f.queue);
  }

  lemma SecondPasses(h: Heap, key: map<nat, nat>, val: map<nat, Fo>, m: set<nat>, over: set<nat>, size: nat,
                     ready: seq<nat>, rescanned: bool, revived: seq<nat>, marked': set<nat>, nodes': set<nat>,
                     queue': seq<nat>)
    requires 1 in key && key[1] == 0 && 2 in key && key[2] == 0 && 1 in val && val[1] == Fo(1, 0, 0, UnreachableProc)
    requires JavaPasses(h, key, val, {2}, [1], m, over, size, true, ready, rescanned, revived, marked')
    requires Shuffled({2}, [1], nodes', queue', ready, revived)
    ensures nodes' == {1, 2}
    ensures Minus(Plus(0, TotalBytes(val, ready)), TotalBytes(val, revived)) == WORD_LIMIT - FO_BYTES
  {
    OldRevive(h, key, val, {2}, [1], m, over, size, ready, rescanned, revived, marked');
    hide JavaPasses;
    assert 1 in [1] && IsUnreachable(key, val, 1);
    NoMember(ready);
    OnlyMember(revived, 1);
    assert nodes' == {1, 2};
    BytesConcat(val, [1], []);
    NoBytes(val);
    hide *;
    OneLess();
  }

  lemma OneLess()
    ensures Minus(Plus(0, 0), Bytes(Fo(1, 0, 0, UnreachableProc))) == WORD_LIMIT - FO_BYTES
  {
  }

  // ------------------------------------------------------------ overflow under Java rules

  /** Two entries: the first node of the long chain, without an order, and a spare object to
      which nothing leads, to be finalized when unreachable.  Marking from the node overflows
      the mark stack, so the marks are made anew, and the spare object is marked through its
      own entry: this goes back to the table, although nothing leads to the object. */
  method RescanRevives() returns (f: Finalization, ghost e: nat)
    ensures f.t.nodes == {e} && e in f.t.key && f.t.key[e] == Spare(Chain(), 2) && f.t.key[e] in f.mk.marked
    ensures forall o :: !LongChain(2).ReachesPlus(o, Spare(Chain(), 2))
  {
    ChainPlain();
    LongChainOverruns(2, Entries(Chain(), 2));
    SpareFacts(Chain(), 2);
    Entry3();
    hide *;
    LongChainIs(2);
    f, e := RescanOn(Chain(), 2, Node(0));
  }

  method RescanOn(h: Heap, k: nat, o: nat) returns (f: Finalization, ghost e: nat)
    requires Plain(h) && 2 <= k < MAX_OBJS_PER_BLOCK && o in h.descr && o != Spare(h, k) && o !in Entries(h, k)
    requires R.Overruns(Extended(h, k), INITIAL_MARK_STACK_SIZE, Entries(h, k), o)
    ensures f.t.nodes == {e} && e in f.t.key && f.t.key[e] == Spare(h, k) && f.t.key[e] in f.mk.marked
  {
    Sizes();
    SpareFacts(h, k);
    hide *;
    f := SetupTwo(h, k, o);
    OneRoot(h, k, INITIAL_MARK_STACK_SIZE);
    ghost var m, e1 := Entries(h, k), Entry(h, 0);
    e := Entry(h, 1);
    UnreachableIs(f.t.key, f.t.val, e);
    var over, rescanned, aborted; ghost var ready, revived, size;
    ready, revived, over, rescanned, size, aborted := f.FinalizeJava(true);
    RescanCase(Extended(h, k), INITIAL_MARK_STACK_SIZE, f.t.key, f.t.val, e1, e, m, over, size, ready, rescanned,
               revived, f.mk.marked, f.t.nodes, f.queue);
  }

  /** Object `o` is registered without an order, and the spare object as unreachable. */
  method SetupTwo(h: Heap, k: nat, o: nat) returns (f: Finalization)
    requires Plain(h) && 2 <= k < MAX_OBJS_PER_BLOCK && o in h.descr && o != Spare(h, k)
    ensures fresh(f) && fresh(f.t) && fresh(f.t.heads) && fresh(f.mk) && fresh(f.mk.ms) && fresh(f.mk.ms.buf)
    ensures f.Valid() && f.Marked() && f.java && f.queue == []
    ensures f.mk.h == Extended(h, k) && f.mk.marked == Entries(h, k) && o in f.mk.h.descr
    ensures f.mk.ms.buf.Length == INITIAL_MARK_STACK_SIZE
    ensures var n, e := Entry(h, 0), Entry(h, 1);
      && n != e && f.t.nodes == {n, e} && n in f.t.key && f.t.key[n] == o && e in f.t.key && f.t.key[e] == Spare(h, k)
      && n in f.t.val && f.t.val[n].proc == NullProc && e in f.t.val && f.t.val[e].proc == UnreachableProc
  {
    hide *;
    SpareFacts(h, k);
    ExtendedIs(h, k);
    OldObject(h, k, Extended(h, k), o);
    EntryFacts(h, k, 0);
    EntryFacts(h, k, 1);
    EntriesApart(h);
    f := Setup(h, k, o, NullProc, true);
    OtherKey(f.t.key, Entry(h, 0), Spare(h, k));
    RegisterNew(f, Spare(h, k), UnreachableProc, Entry(h, 1));
    EntriesClosed(h, k, Extended(h, k));
    f.SettledIs();
    f.EntriesIn();
    f.Resettle();
  }

  lemma EntriesApart(h: Heap)
    ensures Entry(h, 0) != Entry(h, 1)
  {
  }

  lemma Sizes()
    ensures 0 < INITIAL_MARK_STACK_SIZE && MARK_STACK_DISCARDS <= INITIAL_MARK_STACK_SIZE
  {
  }

  lemma FewEntries()
    ensures 1 < MAX_OBJS_PER_BLOCK
  {
  }

  lemma Entry3()
    ensures 2 < MAX_OBJS_PER_BLOCK && Spare(Chain(), 2) != Node(0) && Node(0) in Chain().descr
  {
  }

  lemma OtherKey(key: map<nat, nat>, n: nat, o: nat)
    requires n in key && key[n] != o
    ensures !HasKey(key, {n}, o)
  {
  }

  /** Nothing leads to the spare object, and it leads nowhere. */
  lemma SpareFacts(h: Heap, k: nat)
    requires Plain(h)
    ensures var e, b := Extended(h, k), Spare(h, k);
      && b in e.descr && b !in Entries(h, k) && e.Descendants(b) == {}
      && forall o :: !e.ReachesPlus(o, b)
  {
    ExtendedIs(h, k);
    hide Extended, NewBlock, Plain;
    var e, b := Extended(h, k), Spare(h, k);
    SpareAlone(h, k, e);
    LeadsNowhere(e, b);
    forall o ensures !e.ReachesPlus(o, b) { Undesignated(e, o, b); }
  }

  lemma SpareAlone(h: Heap, k: nat, e: Heap)
    requires Extends(h, k, e)
    ensures var b := Spare(h, k);
      && b in e.descr && b !in Entries(h, k) && (forall a :: b <= a < b + e.descr[b] ==> a !in e.target)
      && forall a :: a in e.target ==> e.target[a] != b
  {
    hide NewBlock;
  }

  lemma RescanCase(h: Heap, size: nat, key: map<nat, nat>, val: map<nat, Fo>, n: nat, e: nat, m: set<nat>,
                   over: set<nat>, size': nat, ready: seq<nat>, rescanned: bool, revived: seq<nat>, marked': set<nat>,
                   nodes': set<nat>, queue': seq<nat>)
    requires n in key && n in val && val[n].proc == NullProc && key[n] in h.descr && key[n] !in m
    requires e in key && IsUnreachable(key, val, e) && key[e] !in m && h.Descendants(key[e]) == {} && n != e
    requires 0 < size && MARK_STACK_DISCARDS <= size && R.Overruns(h, size, m, key[n])
    requires Limits(h, size, m, Ordering(key, val, {n, e}), over, false) && (over == {} ==> size' == size)
    requires JavaPasses(h, key, val, {n, e}, [], m, over, size', true, ready, rescanned, revived, marked')
    requires Shuffled({n, e}, [], nodes', queue', ready, revived)
    ensures rescanned && nodes' == {e} && key[e] in marked'
  {
    assert Ordering(key, val, {n, e}) == {key[e]};
    NoneOver(h, size, m, key[e], over);
    hide Heap.Descendants, Reached, Limits, R.Overruns, QueueOverruns, QueueMarks, Ordering, NullKeys,
      RevivedExactly;
    assert forall x :: x in ready <==> x == n || x == e;
    assert ready + [] == ready;
    BothQueued(h, size, key, val, n, e, m, ready);
    EndsMarked(h, key, val, n, e, m, ready, marked', revived);
    OnlyRevived(n, e, ready, revived, nodes', queue');
  }

  lemma OnlyRevived(n: nat, e: nat, ready: seq<nat>, revived: seq<nat>, nodes': set<nat>, queue': seq<nat>)
    requires Shuffled({n, e}, [], nodes', queue', ready, revived)
    requires forall x :: x in ready <==> x == n || x == e
    requires forall x :: x in revived <==> x == e
    ensures nodes' == {e}
  {
  }

  lemma BothQueued(h: Heap, size: nat, key: map<nat, nat>, val: map<nat, Fo>, n: nat, e: nat, m: set<nat>,
                   ready: seq<nat>)
    requires n in key && n in val && val[n].proc == NullProc && key[n] in h.descr && key[n] !in m && n != e
    requires IsUnreachable(key, val, e) && MARK_STACK_DISCARDS <= size && R.Overruns(h, size, m, key[n])
    requires Distinct(ready) && forall x :: x in ready <==> x == n || x == e
    ensures QueueOverruns(h, size, key, val, m, ready)
  {
    assert n in ready;
    var k: nat :| k < |ready| && ready[k] == n;
    hide R.Overruns, Heap.Descendants;
    forall x | x in ready[..k] ensures Adds(h, key, val, x) <= m {
      assert x in ready && x != n;
    }
    AfterWithin(h, key, val, m, ready[..k], m);
    AfterHas(h, key, val, m, ready[..k]);
    assert AfterQueue(h, key, val, m, ready[..k]) == m;
    assert OverrunsAt(h, size, key, val, m, ready, k);
  }

  lemma EndsMarked(h: Heap, key: map<nat, nat>, val: map<nat, Fo>, n: nat, e: nat, m: set<nat>, ready: seq<nat>,
                   marked': set<nat>, revived: seq<nat>)
    requires n in key && n in val && val[n].proc == NullProc && n != e && IsUnreachable(key, val, e)
    requires forall x :: x in ready <==> x == n || x == e
    requires RevivedExactly(key, val, QueueMarks(h, key, val, m, ready, true), marked', ready, revived)
    ensures key[e] in marked' && forall x :: x in revived <==> x == e
  {
    hide Reached;
    var m2 := QueueMarks(h, key, val, m, ready, true);
    assert e in ready && key[e] in KeysOf(key, ready);
    var i: nat :| i < |ready| && ready[i] == e;
    assert RevivesAt(key, val, m2, ready, i);
    forall x | x in revived ensures x == e {
      var j := RevivedIndex(key, val, m2, marked', ready, revived, x);
      assert ready[j] in ready;
    }
  }
}
