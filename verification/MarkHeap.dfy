/** The heap as the marker sees it while the world is stopped: words, objects grouped
    into blocks, and root ranges.  Addresses are word addresses; an object is named by
    the address of its first word. */
module MarkHeap {

  const HBLKSIZE_WORDS: nat := 512
  const SPLIT_RANGE_WORDS := 128
  const INITIAL_MARK_STACK_SIZE := 4096
  const MARK_STACK_DISCARDS := INITIAL_MARK_STACK_SIZE / 8
  const MAX_OBJS_PER_BLOCK := 256

  datatype Kind = PtrFree | Normal | Uncollectable | AtomicUncollectable

  predicate IsUncollectable(k: Kind) {
    k == Uncollectable || k == AtomicUncollectable
  }

  /** A used heap block: its block number, its length in blocks, and the objects in it.
      `descr` is the number of leading words of each object that may hold pointers. */
  datatype Block = Block(start: nat, length: nat, kind: Kind, descr: nat, objs: seq<nat>)

  /** A root range.  Eager ranges are marked from at once, the others are pushed. */
  datatype Root = Root(start: nat, len: nat, eager: bool)

  /** `target[a]` is the object that the word stored at address `a` designates, for those
      addresses whose contents the header lookup accepts as an object pointer. */
  datatype Heap = Heap(
    mem: seq<nat>,
    least: nat,
    greatest: nat,
    target: map<nat, nat>,
    descr: map<nat, nat>,
    blocks: seq<Block>,
    roots: seq<Root>)
  {
    predicate Plausible(a: nat) {
      a < |mem| && least <= mem[a] < greatest
    }

    ghost predicate Valid() {
      && (forall a :: a in target ==> Plausible(a) && target[a] in descr)
      && (forall o :: o in descr ==> o + descr[o] <= |mem|)
      && (forall i :: 0 <= i < |blocks| ==> ValidBlock(blocks[i]))
      && (forall i, j :: 0 <= i < j < |blocks| ==> blocks[i].start + blocks[i].length <= blocks[j].start)
      && (forall o :: o in descr ==> exists i :: 0 <= i < |blocks| && o in blocks[i].objs)
      && (forall b, c, o :: b in blocks && c in blocks && o in b.objs && o in c.objs ==> b == c)
      && (forall i :: 0 <= i < |roots| ==> roots[i].start + roots[i].len <= |mem|)
    }

    /** Objects lie within the bounds of plausible addresses and do not overlap. */
    ghost predicate Apart() {
      && (forall o :: o in descr ==> least <= o < greatest && o + descr[o] <= |mem|)
      && (forall o, p :: o in descr && p in descr && o < p ==> o + descr[o] <= p)
    }

    /** The word at `a` is set to the address of `o`. */
    function Unhidden(a: nat, o: nat): Heap
      requires a < |mem|
    {
      this.(mem := mem[a := o], target := target[a := o])
    }

    /** The word at `a` is set to a value that designates nothing. */
    function Hidden(a: nat): Heap
      requires a < |mem|
    {
      this.(mem := mem[a := greatest], target := target - {a})
    }

    ghost predicate ValidBlock(b: Block) {
      && 1 <= b.start
      && 1 <= b.length
      && |b.objs| <= MAX_OBJS_PER_BLOCK
      && (forall o :: o in b.objs ==> o in descr && descr[o] == b.descr)
      && (b.kind == PtrFree || b.kind == AtomicUncollectable ==> b.descr == 0)
    }

    /** Word `a` needs no more work: what it designates, if anything, is marked. */
    ghost predicate Done(marked: set<nat>, a: nat) {
      a in target ==> target[a] in marked
    }

    /** Every word of `[start, start + len)` is done or still waits in `pend`. */
    ghost predicate RangeDone(marked: set<nat>, pend: seq<Mse>, start: nat, len: nat) {
      forall a {:trigger Done(marked, a)} :: start <= a < start + len ==> Done(marked, a) || Waits(pend, a)
    }

    ghost predicate Scanned(marked: set<nat>, pend: seq<Mse>, o: nat)
      requires o in descr
    {
      RangeDone(marked, pend, o, descr[o])
    }

    ghost predicate RootsDone(marked: set<nat>, pend: seq<Mse>) {
      forall i :: 0 <= i < |roots| ==> RangeDone(marked, pend, roots[i].start, roots[i].len)
    }

    /** Closed under the pointers of its members. */
    ghost predicate Closed(s: set<nat>) {
      && s <= descr.Keys
      && forall o :: o in s ==> Scanned(s, [], o)
    }

    // --------------------------------------------------------------- reachability

    ghost predicate Edge(o: nat, t: nat) {
      o in descr && exists a :: o <= a < o + descr[o] && a in target && target[a] == t
    }

    ghost predicate RootTarget(t: nat) {
      exists i, a {:trigger roots[i], target[a]} ::
        0 <= i < |roots| && roots[i].start <= a < roots[i].start + roots[i].len &&
        a in target && target[a] == t
    }

    ghost predicate Path(p: seq<nat>) {
      |p| > 0 && forall k {:trigger p[k]} :: 0 <= k && k + 1 < |p| ==> Edge(p[k], p[k + 1])
    }

    ghost predicate PathFromTo(p: seq<nat>, o: nat, t: nat) {
      Path(p) && p[0] == o && p[|p| - 1] == t
    }

    /** `t` is reached from `o` through zero or more pointers. */
    ghost predicate Reaches(o: nat, t: nat) {
      exists p :: PathFromTo(p, o, t)
    }

    /** `t` is reached from `o` through one or more pointers. */
    ghost predicate ReachesPlus(o: nat, t: nat) {
      exists m :: Edge(o, m) && Reaches(m, t)
    }

    /** Reached from a root word or from a member of `from`. */
    ghost predicate Live(from: set<nat>, t: nat) {
      exists s :: (s in from || RootTarget(s)) && Reaches(s, t)
    }

    lemma EdgeStaysInside(s: set<nat>, o: nat, t: nat)
      requires Closed(s) && o in s && Edge(o, t)
      ensures t in s
    {
      var a :| o <= a < o + descr[o] && a in target && target[a] == t;
      assert Scanned(s, [], o);
      assert Done(s, a);
    }

    lemma {:induction false} PathStaysInside(s: set<nat>, p: seq<nat>)
      requires Closed(s) && Path(p) && p[0] in s
      ensures p[|p| - 1] in s
      decreases |p|
    {
      hide Closed, Edge;
      if |p| > 1 {
        EdgeStaysInside(s, p[0], p[0 + 1]);
        PathStaysInside(s, p[1..]);
      }
    }

    lemma ReachStaysInside(s: set<nat>, o: nat, t: nat)
      requires Closed(s) && o in s && Reaches(o, t)
      ensures t in s
    {
      hide Closed, Edge;
      var p :| PathFromTo(p, o, t);
      PathStaysInside(s, p);
    }

    lemma ReachRefl(o: nat)
      ensures Reaches(o, o)
    {
      assert PathFromTo([o], o, o);
    }

    lemma ReachStep(o: nat, m: nat, t: nat)
      requires Reaches(o, m) && Edge(m, t)
      ensures Reaches(o, t)
    {
      var p :| PathFromTo(p, o, m);
      assert PathFromTo(p + [t], o, t);
    }

    lemma LiveStep(from: set<nat>, m: nat, t: nat)
      requires Live(from, m) && Edge(m, t)
      ensures Live(from, t)
    {
      var s :| (s in from || RootTarget(s)) && Reaches(s, m);
      ReachStep(s, m, t);
    }

    /** What is reached from `o` through one or more pointers. */
    ghost function Descendants(o: nat): set<nat> {
      set t | t in descr && ReachesPlus(o, t)
    }

    ghost predicate TargetsAreObjects() {
      forall a :: a in target ==> target[a] in descr
    }

    lemma DescendantWord(s: set<nat>, o: nat, x: nat, a: nat)
      requires TargetsAreObjects() && o in descr && x in descr && x <= a < x + descr[x]
      requires x == o || x in Descendants(o)
      ensures Done(s + Descendants(o), a)
    {
      if a in target {
        var t := target[a];
        assert Edge(x, t);
        if x == o {
          ReachRefl(t);
        } else {
          var m :| Edge(o, m) && Reaches(m, x);
          ReachStep(m, x, t);
        }
        assert ReachesPlus(o, t);
      }
    }

    /** Adding the descendants of `o` to a closed set keeps it closed; `o` itself may
        then be added too. */
    lemma DescendantsClosed(s: set<nat>, o: nat)
      requires Valid() && Closed(s) && o in descr
      ensures Closed(s + Descendants(o)) && Closed(s + Descendants(o) + {o})
      ensures RangeDone(s + Descendants(o), [], o, descr[o])
    {
      var d := s + Descendants(o);
      forall a | o <= a < o + descr[o] ensures Done(d, a) {
        DescendantWord(s, o, o, a);
      }
      forall x | x in d ensures RangeDone(d, [], x, descr[x]) {
        forall a | x <= a < x + descr[x] ensures Done(d, a) {
          if x in s {
            assert Scanned(s, [], x) && Done(s, a);
          } else {
            DescendantWord(s, o, x, a);
          }
        }
      }
      ClosedFromRanges(d);
      forall x | x in d + {o} ensures RangeDone(d + {o}, [], x, descr[x]) {
        RangeDoneMore(d, d + {o}, x, descr[x]);
      }
      ClosedFromRanges(d + {o});
    }

    // --------------------------------------------------------------- marks that are not closed

    /** The heap in which the objects of `s` hold no pointers. */
    function Cut(s: set<nat>): Heap {
      this.(descr := map o | o in descr :: if o in s then 0 else descr[o])
    }

    /** What is reached from `o` through one or more pointers without passing through a marked
        object on the way. */
    ghost function Onward(marked: set<nat>, o: nat): set<nat> {
      Cut(marked - {o}).Descendants(o)
    }

    /** Adding this leaves nothing to be done for `o` and for what is new. */
    lemma OnwardDone(m: set<nat>, o: nat)
      requires Valid() && o in descr && m <= descr.Keys
      ensures var s := m + Onward(m, o);
        && s <= descr.Keys && RangeDone(s, [], o, descr[o])
        && forall x :: x in s && x !in m ==> Scanned(s, [], x)
    {
      hide Descendants;
      var c, s := Cut(m - {o}), m + Onward(m, o);
      OnwardObjects(m, o);
      forall a | o <= a < o + descr[o] ensures Done(s, a) { OnwardWord(m, o, o, a); }
      forall x | x in s && x !in m ensures Scanned(s, [], x) {
        forall a | x <= a < x + descr[x] ensures Done(s, a) { OnwardWord(m, o, x, a); }
      }
    }

    lemma OnwardWord(m: set<nat>, o: nat, x: nat, a: nat)
      requires TargetsAreObjects() && o in descr && x in descr && x <= a < x + descr[x]
      requires x == o || (x in Onward(m, o) && x !in m)
      ensures Done(m + Onward(m, o), a)
    {
      var c := Cut(m - {o});
      c.DescendantWord(m, o, x, a);
      hide Descendants;
      assert c.Done(m + Onward(m, o), a);
    }

    lemma OnwardObjects(m: set<nat>, o: nat)
      ensures Onward(m, o) <= descr.Keys
    {
    }

    /** It is the least set that does so. */
    lemma OnwardStaysInside(m: set<nat>, o: nat, s: set<nat>)
      requires o in descr && m <= s <= descr.Keys && RangeDone(s, [], o, descr[o])
      requires forall x :: x in s && x !in m ==> Scanned(s, [], x)
      ensures Onward(m, o) <= s
    {
      var c := Cut(m - {o});
      forall x, a | x in s && x <= a < x + c.descr[x] ensures c.Done(s, a) {
        if x != o { assert Scanned(s, [], x); }
        assert Done(s, a);
      }
      forall a | o <= a < o + c.descr[o] ensures c.Done(s, a) {
        assert Done(s, a);
      }
      c.ClosedFromRanges(s);
      c.DescendantsStayInside(s, o);
    }

    /** From closed marks it adds exactly the descendants. */
    lemma OnwardFromClosed(m: set<nat>, o: nat)
      requires Valid() && Closed(m) && o in descr
      ensures m + Onward(m, o) == m + Descendants(o)
    {
      DescendantsClosed(m, o);
      OnwardDone(m, o);
      hide Valid, Onward, Descendants;
      var d, s := m + Descendants(o), m + Onward(m, o);
      forall x | x in d && x !in m ensures Scanned(d, [], x) {}
      OnwardStaysInside(m, o, d);
      forall x | x in s ensures RangeDone(s, [], x, descr[x]) {
        if x in m {
          assert Scanned(m, [], x);
          RangeDoneMore(m, s, x, descr[x]);
        } else {
          assert Scanned(s, [], x);
        }
      }
      ClosedFromRanges(s);
      DescendantsStayInside(s, o);
    }

    /** All that is live once `o` is marked besides closed marks. */
    lemma LiveWith(m: set<nat>, o: nat)
      requires Valid() && Closed(m) && RootsDone(m, []) && o in descr
      ensures LiveSet(m + {o}) == m + Descendants(o) + {o}
    {
      var s, l := m + Descendants(o) + {o}, LiveSet(m + {o});
      DescendantsClosed(m, o);
      LiveSetClosed(m + {o});
      LiveHas(m + {o});
      hide Valid, Descendants, LiveSet;
      forall i | 0 <= i < |roots| ensures RangeDone(s, [], roots[i].start, roots[i].len) {
        RangeDoneMore(m, s, roots[i].start, roots[i].len);
      }
      LiveStaysInside(m + {o}, s);
      assert Scanned(l, [], o);
      DescendantsStayInside(l, o);
    }

    lemma LiveHas(from: set<nat>)
      requires from <= descr.Keys
      ensures from <= LiveSet(from)
    {
      forall o | o in from ensures Live(from, o) { ReachRefl(o); }
    }

    lemma RangeDoneMore(s: set<nat>, s': set<nat>, start: nat, len: nat)
      requires s <= s' && RangeDone(s, [], start, len)
      ensures RangeDone(s', [], start, len)
    {
      forall a | start <= a < start + len ensures Done(s', a) {
        assert Done(s, a);
      }
    }

    lemma ClosedFromRanges(s: set<nat>)
      requires s <= descr.Keys && forall x :: x in s ==> RangeDone(s, [], x, descr[x])
      ensures Closed(s)
    {
    }

    /** A closed set in which the words of `o` are done holds all descendants of `o`. */
    lemma DescendantsStayInside(s: set<nat>, o: nat)
      requires Closed(s) && o in descr && RangeDone(s, [], o, descr[o])
      ensures Descendants(o) <= s
    {
      forall t | t in Descendants(o) ensures t in s {
        var m :| Edge(o, m) && Reaches(m, t);
        var a :| o <= a < o + descr[o] && a in target && target[a] == m;
        assert Done(s, a);
        ReachStaysInside(s, m, t);
      }
    }

    ghost function LiveSet(from: set<nat>): set<nat> {
      set o | o in descr && Live(from, o)
    }

    lemma LiveSetClosed(from: set<nat>)
      requires Valid()
      ensures Closed(LiveSet(from)) && RootsDone(LiveSet(from), [])
    {
      var s := LiveSet(from);
      forall o, a | o in s && o <= a < o + descr[o] ensures Done(s, a) {
        if a in target {
          assert Edge(o, target[a]);
          LiveStep(from, o, target[a]);
        }
      }
      forall i, a | 0 <= i < |roots| && roots[i].start <= a < roots[i].start + roots[i].len ensures Done(s, a) {
        if a in target {
          assert RootTarget(target[a]);
          ReachRefl(target[a]);
        }
      }
    }

    /** A closed set that holds `from` and the root targets holds everything live. */
    lemma LiveStaysInside(from: set<nat>, s: set<nat>)
      requires from <= s && Closed(s) && RootsDone(s, [])
      ensures LiveSet(from) <= s
    {
      forall t | t in LiveSet(from) ensures t in s {
        var o :| (o in from || RootTarget(o)) && Reaches(o, t);
        if o !in from {
          var i, a :| 0 <= i < |roots| && roots[i].start <= a < roots[i].start + roots[i].len && a in target &&
            target[a] == o;
          assert RangeDone(s, [], roots[i].start, roots[i].len) && Done(s, a);
        }
        ReachStaysInside(s, o, t);
      }
    }
  }

  // --------------------------------------------------------------- sets

  lemma PlusNone(s: set<nat>)
    ensures s + {} == s
  {
  }

  lemma Absorbs(s: set<nat>, a: set<nat>)
    requires a <= s
    ensures s + a == s
  {
  }

  lemma SameMinus(m: set<nat>, a: set<nat>, b: set<nat>)
    requires m + a == m + b
    ensures a - m == b - m
  {
    assert a - m == (m + a) - m;
  }

  /** The index of the first used block at or above block number `p`. */
  function NextUsed(h: Heap, p: nat, from: nat := 0): (i: nat)
    requires from <= |h.blocks|
    ensures from <= i <= |h.blocks|
    ensures i < |h.blocks| ==> p <= h.blocks[i].start
    ensures forall k :: from <= k < i ==> h.blocks[k].start < p
    decreases |h.blocks| - from
  {
    if from == |h.blocks| || p <= h.blocks[from].start then from else NextUsed(h, p, from + 1)
  }

  /** Going past block `i` leaves the scan at the following block. */
  lemma NextUsedAfter(h: Heap, i: nat)
    requires h.Valid() && i < |h.blocks|
    ensures NextUsed(h, h.blocks[i].start + h.blocks[i].length) == i + 1
  {
    var p := h.blocks[i].start + h.blocks[i].length;
    var n := NextUsed(h, p);
    assert h.ValidBlock(h.blocks[i]);
    if i + 1 < |h.blocks| {
      assert p <= h.blocks[i + 1].start;
    }
    assert forall k :: 0 <= k < i ==> h.blocks[k].start < p;
  }

  /** A mark stack entry: a non-empty range of words still to be considered. */
  datatype Mse = Mse(start: nat, len: nat) {
    predicate Has(a: nat) {
      start <= a < start + len
    }
  }

  /** Address `a` is in a range of `s`. */
  ghost predicate Waits(s: seq<Mse>, a: nat) {
    s != [] && (s[|s| - 1].Has(a) || Waits(s[..|s| - 1], a))
  }

  /** How many ranges of `s` hold address `a`. */
  ghost function Count(s: seq<Mse>, a: nat): nat {
    if s == [] then 0
    else Count(s[..|s| - 1], a) + if s[|s| - 1].Has(a) then 1 else 0
  }

  /** Number of words in the ranges of `s`. */
  ghost function Work(s: seq<Mse>): nat {
    if s == [] then 0 else Work(s[..|s| - 1]) + s[|s| - 1].len
  }

  lemma WaitsPush(s: seq<Mse>, e: Mse)
    ensures forall a :: Waits(s + [e], a) <==> Waits(s, a) || e.Has(a)
  {
    assert (s + [e])[..|s|] == s;
  }

  lemma CountPush(s: seq<Mse>, e: Mse, a: nat)
    ensures Count(s + [e], a) == Count(s, a) + if e.Has(a) then 1 else 0
  {
    assert (s + [e])[..|s|] == s;
  }

  lemma WorkPush(s: seq<Mse>, e: Mse)
    ensures Work(s + [e]) == Work(s) + e.len
  {
    assert (s + [e])[..|s|] == s;
  }

  lemma {:induction false} CountPrefix(s: seq<Mse>, k: nat, a: nat)
    requires k <= |s|
    ensures Count(s[..k], a) <= Count(s, a)
    decreases |s|
  {
    if k < |s| {
      CountPrefix(s[..|s| - 1], k, a);
      assert s[..|s| - 1][..k] == s[..k];
    } else {
      assert s[..k] == s;
    }
  }
}
