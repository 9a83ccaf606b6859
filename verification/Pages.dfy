/** The page arithmetic of unmapping.  Addresses and the page size are in heap blocks; a page
    no larger than a block behaves like a page of one block. */
module Pages {

  function Down(page: nat, x: nat): (r: nat)
    requires page > 0
  {
    x - x % page
  }

  function Up(page: nat, x: nat): (r: nat)
    requires page > 0
  {
    Down(page, x + page - 1)
  }

  lemma DownGreatest(page: nat, x: nat, y: nat)
    requires page > 0 && y <= x && y % page == 0
    ensures Down(page, x) % page == 0 && y <= Down(page, x) <= x < Down(page, x) + page
  {
    var q, k := x / page, y / page;
    assert x == page * q + x % page && y == page * k;
    assert Down(page, x) == page * q;
    MultipleMod(page, q);
    if k > q {
      assert page * k >= page * (q + 1) by { MulMonotone(page, q + 1, k); }
    }
    MulMonotone(page, k, q);
  }

  lemma MulMonotone(p: nat, a: int, b: int)
    ensures a <= b ==> p * a <= p * b
  {
  }

  lemma MultipleMod(page: nat, q: nat)
    requires page > 0
    ensures (page * q) % page == 0
  {
    var x := page * q;
    var k, r := x / page, x % page;
    assert x == page * k + r;
    MulMonotone(page, q + 1, k);
    MulMonotone(page, k + 1, q);
    assert page * (q + 1) == x + page && page * (k + 1) == page * k + page;
  }

  lemma NextMultiple(page: nat, x: nat)
    requires page > 0 && x % page == 0
    ensures (x + page) % page == 0
  {
    var q := x / page;
    assert x == page * q;
    assert x + page == page * (q + 1);
    MultipleMod(page, q + 1);
  }

  lemma Monotone(page: nat, x: nat, y: nat)
    requires page > 0 && x <= y
    ensures Down(page, x) <= Down(page, y) && Up(page, x) <= Up(page, y)
    ensures Down(page, x) <= x <= Up(page, x)
  {
    DownGreatest(page, x, 0);
    DownGreatest(page, y, Down(page, x));
    DownGreatest(page, x + page - 1, 0);
    DownGreatest(page, y + page - 1, Up(page, x));
  }

  /** GC_unmap_start: 0 when no whole page fits. */
  function UnmapStart(page: nat, start: nat, len: nat): nat
    requires page > 0
  {
    if Up(page, start) + page > start + len then 0 else Up(page, start)
  }

  /** GC_unmap_end */
  function UnmapEnd(page: nat, start: nat, len: nat): nat
    requires page > 0
  {
    Down(page, start + len)
  }

  /** The blocks that unmapping this extent gives back. */
  ghost function Extent(page: nat, start: nat, len: nat): (r: nat)
    requires page > 0
  {
    if Up(page, start) + page > start + len || start == 0 then 0
    else Whole(page, start, len); Down(page, start + len) - Up(page, start)
  }

  lemma Whole(page: nat, start: nat, len: nat)
    requires page > 0 && Up(page, start) + page <= start + len
    ensures Up(page, start) + page <= Down(page, start + len)
  {
    DownGreatest(page, start + page - 1, 0);
    assert Up(page, start) % page == 0;
    NextMultiple(page, Up(page, start));
    DownGreatest(page, start + len, Up(page, start) + page);
  }

  /** The amount by which GC_unmap and GC_remap move GC_unmapped_bytes. */
  method ExtentOf(page: nat, start: nat, len: nat) returns (r: nat)
    requires page > 0 && start > 0
    ensures r == Extent(page, start, len)
  {
    Monotone(page, start, start);
    var startAddr := UnmapStart(page, start, len);
    var endAddr := UnmapEnd(page, start, len);
    if startAddr == 0 { return 0; }
    Whole(page, start, len);
    return endAddr - startAddr;
  }

  /** GC_unmap_gap: what it adds completes the extents of two adjacent unmapped blocks to the
      extent of their union. */
  method GapOf(page: nat, start1: nat, len1: nat, start2: nat, len2: nat) returns (r: nat)
    requires page > 0 && start1 > 0 && start1 + len1 == start2
    ensures Extent(page, start1, len1) + r + Extent(page, start2, len2) == Extent(page, start1, len1 + len2)
  {
    var start1Addr := UnmapStart(page, start1, len1);
    var end1Addr := UnmapEnd(page, start1, len1);
    var start2Addr := UnmapStart(page, start2, len2);
    var startAddr, endAddr := end1Addr, start2Addr;
    Monotone(page, start1, start1 + len1);
    Monotone(page, start1 + len1, start1 + len1 + len2);
    if start1Addr == 0 { startAddr := UnmapStart(page, start1, len1 + len2); }
    if start2Addr == 0 { endAddr := UnmapEnd(page, start1, len1 + len2); }
    if startAddr == 0 {
      assert start1Addr == 0 by { if start1Addr != 0 { Whole(page, start1, len1); } }
      return 0;
    }
    if start1Addr == 0 && start2Addr == 0 { Whole(page, start1, len1 + len2); }
    return endAddr - startAddr;
  }
}
