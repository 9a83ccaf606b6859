/** Where the marker meets its limits: root lists that it cannot push, and a heap on which
    its stack overflows. */
module MarkLimits {
  import opened MarkHeap
  import opened MarkRun
  import opened DeepHeap
  import M = Marker

  /** A heap without objects and with `n` root ranges of one word each to be pushed. */
  function ManyRoots(n: nat): Heap {
    Heap([0], 0, 0, map[], map[], [], seq(n, _ => Root(0, 1, false)))
  }

  lemma {:induction false} ManyPushed(n: nat)
    ensures ManyRoots(n).Valid() && M.PushedFirst(ManyRoots(n).roots) && M.Pushed(ManyRoots(n).roots) == n
    decreases n
  {
    var roots := ManyRoots(n).roots;
    if n > 0 {
      ManyPushed(n - 1);
      assert roots[..n - 1] == ManyRoots(n - 1).roots;
    }
  }

  lemma KeptNone(h: Heap)
    ensures M.Kept(h, {}) == {}
  {
  }

  /** The first collection, when the ranges to be pushed come first: it completes exactly if
      they fit on the new mark stack. */
  method CollectFirst(h: Heap) returns (r: M.Outcome)
    requires h.Valid() && M.PushedFirst(h.roots)
    ensures r == M.Completed <==> M.Pushed(h.roots) <= INITIAL_MARK_STACK_SIZE
    ensures r != M.Completed ==> r == M.StackTooSmall
  {
    hide *;
    var mk := new M.Marker(h, 0);
    mk.CoreFacts();
    KeptNone(h);
    r := mk.Collect(false);
    M.StartedFirst(h, INITIAL_MARK_STACK_SIZE, r);
  }

  /** Marking from the first node of a chain longer than the stack overflows it, when nothing
      on the chain is marked. */
  lemma DeepOverruns(n: nat, size: nat, m: set<nat>)
    requires MARK_STACK_DISCARDS <= size && 0 < size < n && Fresh(n, 0, m)
    ensures Node(0) in Deep(n).descr && Overruns(Deep(n), size, m, Node(0))
  {
    var h := Deep(n);
    assert OwnRange(h, Node(0)) == [] + [Mse(Node(0), 2)];
    DeepOverflows(n, 0, size, m, []);
  }

  /** Nothing points to the first node. */
  lemma DeepTargets(n: nat)
    ensures forall a :: a in Deep(n).target ==> Deep(n).target[a] != Node(0)
  {
  }
}
