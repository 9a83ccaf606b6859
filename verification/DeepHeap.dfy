/** A heap on which marking overflows its stack: a chain of nodes, each with a leaf beside
    the next node, so that every node leaves one more range waiting. */
module DeepHeap {
  import opened MarkHeap
  import opened MarkRun

  function Node(i: nat): nat {
    2 * i
  }

  function Leaf(n: nat, i: nat): nat {
    2 * n + i
  }

  /** Nodes 0 to n - 1 and a leaf for each, every one in a block of its own. */
  function Deep(n: nat): Heap {
    Heap(seq(3 * n, a requires 0 <= a < 3 * n => if a < 2 * n - 1 then 1 else 0),
         1, 2,
         map a: nat | a < 2 * n - 1 :: if a % 2 == 0 then Leaf(n, a / 2) else a + 1,
         map o: nat | o < 3 * n && (o < 2 * n ==> o % 2 == 0) :: if o < 2 * n then 2 else 1,
         seq(2 * n, i requires 0 <= i < 2 * n =>
           Block(1 + i, 1, Normal, if i < n then 2 else 1, [if i < n then Node(i) else Leaf(n, i - n)])),
         [])
  }

  lemma DeepValid(n: nat)
    ensures Deep(n).Valid()
  {
    var h := Deep(n);
    forall i | 0 <= i < |h.blocks| ensures h.ValidBlock(h.blocks[i]) { DeepBlock(n, i); }
    forall o | o in h.descr ensures exists i :: 0 <= i < |h.blocks| && o in h.blocks[i].objs { DeepHolds(n, o); }
    forall b, c, o | b in h.blocks && c in h.blocks && o in b.objs && o in c.objs ensures b == c {
      DeepApart(n, b, c, o);
    }
    hide Heap.ValidBlock;
  }

  lemma DeepBlock(n: nat, i: nat)
    requires i < 2 * n
    ensures Deep(n).ValidBlock(Deep(n).blocks[i])
  {
    var o := if i < n then Node(i) else Leaf(n, i - n);
    assert Deep(n).blocks[i].objs == [o] && o in Deep(n).descr;
  }

  lemma DeepHolds(n: nat, o: nat)
    requires o in Deep(n).descr
    ensures exists i :: 0 <= i < |Deep(n).blocks| && o in Deep(n).blocks[i].objs
  {
    var h := Deep(n);
    if o < 2 * n {
      assert h.blocks[o / 2].objs == [o];
    } else {
      assert h.blocks[o - n].objs == [Leaf(n, o - 2 * n)] == [o];
    }
  }

  lemma DeepApart(n: nat, b: Block, c: Block, o: nat)
    requires b in Deep(n).blocks && c in Deep(n).blocks && o in b.objs && o in c.objs
    ensures b == c
  {
    var i :| 0 <= i < 2 * n && Deep(n).blocks[i] == b;
    var j :| 0 <= j < 2 * n && Deep(n).blocks[j] == c;
    assert b.objs == [if i < n then Node(i) else Leaf(n, i - n)];
    assert c.objs == [if j < n then Node(j) else Leaf(n, j - n)];
  }

  /** Marking has come to node `i`; everything beyond it is unmarked. */
  ghost predicate Fresh(n: nat, i: nat, m: set<nat>) {
    && (forall j: nat :: i < j < n ==> Node(j) !in m)
    && (forall j: nat :: i <= j < n ==> Leaf(n, j) !in m)
  }

  /** Scanning node `i` stacks its leaf and then the next node. */
  lemma NodeStep(n: nat, i: nat, size: nat, m: set<nat>, s: seq<Mse>)
    requires i + 1 < n && MARK_STACK_DISCARDS <= size && |s| < size && Fresh(n, i, m)
    ensures
      var c := Conf(m, s + [Mse(Node(i), 2)], false);
      var m' := m + {Leaf(n, i), Node(i + 1)};
      if |s| + 1 < size then
        Step(Deep(n), size, c) == Conf(m', s + [Mse(Leaf(n, i), 1)] + [Mse(Node(i + 1), 2)], false)
      else
        Step(Deep(n), size, c).overflow
  {
    var h, a := Deep(n), Node(i);
    var c := Conf(m, s + [Mse(a, 2)], false);
    assert Rest(c.entries) == s;
    var c0 := Conf(m, s, false);
    assert Finds(h, m, a) && h.target[a] == Leaf(n, i);
    var c1 := Consider(h, size, c0, a);
    assert c1 == Conf(m + {Leaf(n, i)}, s + [Mse(Leaf(n, i), 1)], false);
    assert Finds(h, c1.marked, a + 1) && h.target[a + 1] == Node(i + 1);
    var c2 := Consider(h, size, c1, a + 1);
    assert ScanUp(h, size, c0, a, a + 2) == ScanUp(h, size, c1, a + 1, a + 2);
    assert ScanUp(h, size, c1, a + 1, a + 2) == ScanUp(h, size, c2, a + 2, a + 2) == c2;
    assert m + {Leaf(n, i)} + {Node(i + 1)} == m + {Leaf(n, i), Node(i + 1)};
  }

  lemma {:induction false} DeepOverflows(n: nat, i: nat, size: nat, m: set<nat>, s: seq<Mse>)
    requires MARK_STACK_DISCARDS <= size && |s| < size && |s| + n > size + i && Fresh(n, i, m)
    ensures Run(Deep(n), size, Conf(m, s + [Mse(Node(i), 2)], false)).overflow
    decreases n - i
  {
    hide Deep, Step, Leaf, Node, Paid;
    var h, c := Deep(n), Conf(m, s + [Mse(Node(i), 2)], false);
    NodeStep(n, i, size, m, s);
    RunStep(h, size, c);
    if |s| + 1 < size {
      FreshNext(n, i, m);
      DeepOverflows(n, i + 1, size, m + {Leaf(n, i), Node(i + 1)}, s + [Mse(Leaf(n, i), 1)]);
    } else {
      OverflowStays(h, size, Step(h, size, c));
    }
  }

  lemma FreshNext(n: nat, i: nat, m: set<nat>)
    requires Fresh(n, i, m) && i + 1 < n
    ensures Fresh(n, i + 1, m + {Leaf(n, i), Node(i + 1)})
  {
  }

  lemma RunStep(h: Heap, size: nat, c: Conf)
    requires Fits(size, c) && c.entries != []
    ensures Run(h, size, c) == Run(h, size, Step(h, size, c))
  {
  }

  lemma OverflowStays(h: Heap, size: nat, c: Conf)
    requires Fits(size, c) && c.overflow
    ensures Run(h, size, c).overflow
  {
    RunPaid(h, size, c);
  }
}
