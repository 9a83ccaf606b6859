/** The table of address ranges that are excluded from the static roots. */
module Exclusions {

  datatype Range = Range(start: nat, end: nat)

  /** Ranges are non-empty, disjoint and in ascending order. */
  ghost predicate Ordered(table: seq<Range>) {
    && (forall i :: 0 <= i < |table| ==> table[i].start < table[i].end)
    && forall i, j :: 0 <= i < j < |table| ==> table[i].end <= table[j].start
  }

  ghost predicate Excluded(table: seq<Range>, a: nat) {
    exists i :: 0 <= i < |table| && table[i].start <= a < table[i].end
  }

  /** The ranges of `pieces` in order cover `a`. */
  ghost predicate Covered(pieces: seq<Range>, a: nat) {
    exists i :: 0 <= i < |pieces| && pieces[i].start <= a < pieces[i].end
  }

  /** Ranges that end at or before an address come first. */
  lemma EndsAscend(table: seq<Range>, i: nat, j: nat)
    requires Ordered(table) && i <= j < |table|
    ensures table[i].end <= table[j].end
  {
  }

  /** Putting a range between the last one that ends before it and the first one behind it. */
  lemma InsertOrdered(table: seq<Range>, k: nat, r: Range)
    requires Ordered(table) && k <= |table| && r.start < r.end
    requires forall i :: 0 <= i < k ==> table[i].end <= r.start
    requires k < |table| ==> r.end <= table[k].start
    ensures Ordered(table[..k] + [r] + table[k..])
    ensures forall a: nat :: Excluded(table[..k] + [r] + table[k..], a) <==> Excluded(table, a) || r.start <= a < r.end
  {
    forall i | k <= i < |table| ensures r.end <= table[i].start {
      if i > k { assert table[k].end <= table[i].start; }
    }
    InsertedAddresses(table, k, r);
  }

  lemma InsertedAddresses(table: seq<Range>, k: nat, r: Range)
    requires k <= |table|
    ensures forall a: nat :: Excluded(table[..k] + [r] + table[k..], a) <==> Excluded(table, a) || r.start <= a < r.end
  {
    var table' := table[..k] + [r] + table[k..];
    forall a: nat ensures Excluded(table', a) <==> Excluded(table, a) || r.start <= a < r.end {
      if i :| 0 <= i < |table| && table[i].start <= a < table[i].end {
        assert table'[if i < k then i else i + 1] == table[i];
      }
      if r.start <= a < r.end { assert table'[k] == r; }
      if i :| 0 <= i < |table'| && table'[i].start <= a < table'[i].end {
        if i != k { assert table[if i < k then i else i - 1] == table'[i]; }
      }
    }
  }

  /** Extending a range backwards. */
  lemma ExtendOrdered(table: seq<Range>, k: nat, start: nat)
    requires Ordered(table) && k < |table| && start < table[k].start
    requires forall i :: 0 <= i < k ==> table[i].end <= start
    ensures var table' := table[k := Range(start, table[k].end)];
      && Ordered(table')
      && forall a: nat :: Excluded(table', a) <==> Excluded(table, a) || start <= a < table[k].start
  {
    var table' := table[k := Range(start, table[k].end)];
    forall a: nat ensures Excluded(table', a) <==> Excluded(table, a) || start <= a < table[k].start {
      if i :| 0 <= i < |table| && table[i].start <= a < table[i].end {
        assert table'[i].start <= a < table'[i].end;
      }
      if start <= a < table[k].start { assert table'[k].start <= a < table'[k].end; }
      if i :| 0 <= i < |table'| && table'[i].start <= a < table'[i].end {
        if i != k {
          assert table[i] == table'[i];
        } else if a >= table[k].start {
          assert table[k].start <= a < table[k].end;
        }
      }
    }
  }

  /** Between `bottom` and the first range that ends behind it nothing is excluded. */
  lemma GapIsFree(table: seq<Range>, k: nat, bottom: nat, limit: nat, a: nat)
    requires Ordered(table) && k <= |table|
    requires forall i :: 0 <= i < k ==> table[i].end <= bottom
    requires k < |table| ==> limit <= table[k].start
    requires bottom <= a < limit
    ensures !Excluded(table, a)
  {
    forall i | k <= i < |table| ensures limit <= table[i].start {
      if i > k { assert table[k].end <= table[i].start; }
    }
  }

  /** Part of `[start, finish)` is excluded already. */
  ghost predicate Overlapped(table: seq<Range>, start: nat, finish: nat) {
    exists a: nat :: start <= a < finish && Excluded(table, a)
  }

  /** Some range begins where the new one ends. */
  ghost predicate Adjoined(table: seq<Range>, finish: nat) {
    exists i :: 0 <= i < |table| && table[i].start == finish
  }

  /** Some range ends behind `start`, and all that do begin beyond `finish`. */
  ghost predicate AllBeyond(table: seq<Range>, start: nat, finish: nat) {
    && (exists i :: 0 <= i < |table| && start < table[i].end)
    && (forall i :: 0 <= i < |table| && start < table[i].end ==> finish < table[i].start)
  }

  /** What the first range that ends behind `start` says about all of them. */
  lemma NextDecides(table: seq<Range>, k: nat, start: nat, finish: nat)
    requires Ordered(table) && k <= |table| && start < finish
    requires forall i :: 0 <= i < k ==> table[i].end <= start
    requires k < |table| ==> start < table[k].end
    ensures Overlapped(table, start, finish) <==> k < |table| && table[k].start < finish
    ensures !Overlapped(table, start, finish) ==> (Adjoined(table, finish) <==> k < |table| && table[k].start == finish)
    ensures AllBeyond(table, start, finish) <==> k < |table| && finish < table[k].start
  {
    if k < |table| {
      forall i | k <= i < |table| ensures table[k].start <= table[i].start { }
      if table[k].start < finish {
        var a := if start < table[k].start then table[k].start else start;
        assert table[k].start <= a < table[k].end;
        assert Excluded(table, a);
      }
    }
  }

  /** The table has room for `max` ranges; its last slot stands for the memory behind it. */
  class ExclusionTable {
    const max: nat
    const table: array<Range>
    var entries: nat

    ghost predicate Valid()
      reads this, table
    {
      entries <= max && table.Length == max + 1 && Ordered(table[..entries])
    }

    constructor (max: nat)
      ensures Valid() && entries == 0 && this.max == max && fresh(table)
    {
      this.max := max;
      table := new Range[max + 1](_ => Range(0, 0));
      entries := 0;
    }

    /** GC_next_exclusion: binary search for the first range that ends behind `start`;
        `entries` stands for none. */
    method NextExclusion(start: nat) returns (k: nat)
      requires Valid() && entries > 0
      ensures k <= entries
      ensures forall i :: 0 <= i < k ==> table[i].end <= start
      ensures k < entries ==> start < table[k].end
    {
      var low, high := 0, entries - 1;
      while high > low
        invariant 0 <= low <= high < entries
        invariant forall i :: 0 <= i < low ==> table[i].end <= start
        invariant high < entries - 1 ==> start < table[high].end
      {
        var mid := (low + high) / 2;
        if table[mid].end <= start {
          forall i | 0 <= i <= mid ensures table[i].end <= start { EndsAscend(table[..entries], i, mid); }
          low := mid + 1;
        } else {
          high := mid;
        }
      }
      if table[low].end <= start {
        return entries;
      }
      return low;
    }

    /** GC_exclude_static_roots_inner.  Overlapping ranges and a full table abort.  `past` tells
        whether the slot behind the table was written before that was noticed. */
    method Exclude(start: nat, finish: nat) returns (aborted: bool, past: bool)
      requires Valid() && start < finish
      modifies this`entries, table
      ensures !aborted ==> Valid()
      ensures !aborted ==> forall a: nat ::
        Excluded(table[..entries], a) <==> Excluded(old(table[..entries]), a) || start <= a < finish
      ensures aborted <==>
        || Overlapped(old(table[..entries]), start, finish)
        || (old(entries) == max && !Adjoined(old(table[..entries]), finish))
      ensures !aborted ==> entries == old(entries) + if Adjoined(old(table[..entries]), finish) then 0 else 1
      ensures past <==> old(entries) == max && AllBeyond(old(table[..entries]), start, finish)
      ensures
        if past then table[max] == old(table[max - 1]) && entries == old(entries)
        else table[max] == old(table[max])
      ensures aborted && !past ==> table[..] == old(table[..]) && entries == old(entries)
    {
      hide Ordered, Excluded, Overlapped, Adjoined, AllBeyond;
      ghost var was := table[..entries];
      var k := 0;
      if entries > 0 { k := NextExclusion(start); }
      NextDecides(was, k, start, finish);
      if k < entries {
        if table[k].start < finish { return true, false; }
        Gap(was, k, start, finish);
        if table[k].start == finish {
          ExtendOrdered(was, k, start);
          table[k] := Range(start, table[k].end);
          assert table[..entries] == was[k := Range(start, was[k].end)];
          return false, false;
        }
      } else {
        Gap(was, k, start, finish);
      }
      past := MoveUp(k);
      if entries == max { return true, past; }
      InsertOrdered(was, k, Range(start, finish));
      table[k] := Range(start, finish);
      entries := entries + 1;
      assert table[..entries] == was[..k] + [Range(start, finish)] + was[k..];
      return false, past;
    }

    /** The ranges from `k` on move up by one, in a full table into the slot behind it. */
    method MoveUp(k: nat) returns (past: bool)
      requires k <= entries <= max && table.Length == max + 1
      modifies table
      ensures forall j :: 0 <= j <= max ==> table[j] == if k < j <= entries then old(table[j - 1]) else old(table[j])
      ensures past <==> k < entries == max
    {
      past := false;
      var i := entries;
      while i > k
        invariant k <= i <= entries
        invariant past <==> i < entries == max
        invariant forall j :: 0 <= j <= max ==>
          table[j] == if i < j <= entries then old(table[j - 1]) else old(table[j])
      {
        if i == max { past := true; }
        table[i] := table[i - 1];
        i := i - 1;
      }
    }

    /** GC_push_conditional_with_exclusions: the ranges pushed are exactly `[bottom, top)`
        without what is excluded, each address once. */
    method PushWithExclusions(bottom: nat, top: nat) returns (pieces: seq<Range>)
      requires Valid() && entries > 0
      ensures forall a: nat :: Covered(pieces, a) <==> bottom <= a < top && !Excluded(table[..entries], a)
      ensures Ordered(pieces)
    {
      hide Excluded, Covered;
      pieces := [];
      var b := bottom;
      Nothing(bottom, table[..entries]);
      while b < top
        invariant bottom <= b
        invariant forall a: nat :: Covered(pieces, a) <==> bottom <= a < b && a < top && !Excluded(table[..entries], a)
        invariant Ordered(pieces)
        invariant pieces != [] ==> pieces[|pieces| - 1].end <= b
        decreases top - b
      {
        var k := NextExclusion(b);
        if k == entries || table[k].start >= top {
          Gap(table[..entries], k, b, top);
          OnePiece(pieces, Range(b, top));
          pieces := pieces + [Range(b, top)];
          return;
        }
        var excl := table[k].start;
        InRange(table[..entries], k);
        if excl > b {
          Gap(table[..entries], k, b, excl);
          OnePiece(pieces, Range(b, excl));
          pieces := pieces + [Range(b, excl)];
        }
        b := table[k].end;
      }
    }

    lemma Nothing(bottom: nat, ranges: seq<Range>)
      ensures forall a: nat :: Covered([], a) <==> bottom <= a < bottom && !Excluded(ranges, a)
    {
    }

    lemma Gap(ranges: seq<Range>, k: nat, bottom: nat, limit: nat)
      requires Ordered(ranges) && k <= |ranges|
      requires forall i :: 0 <= i < k ==> ranges[i].end <= bottom
      requires k < |ranges| ==> limit <= ranges[k].start
      ensures forall a: nat :: bottom <= a < limit ==> !Excluded(ranges, a)
    {
      forall a: nat | bottom <= a < limit ensures !Excluded(ranges, a) {
        GapIsFree(ranges, k, bottom, limit, a);
      }
    }

    lemma InRange(ranges: seq<Range>, k: nat)
      requires k < |ranges|
      ensures forall a: nat :: ranges[k].start <= a < ranges[k].end ==> Excluded(ranges, a)
    {
    }

    lemma OnePiece(pieces: seq<Range>, r: Range)
      requires Ordered(pieces) && r.start < r.end && (pieces != [] ==> pieces[|pieces| - 1].end <= r.start)
      ensures Ordered(pieces + [r])
      ensures forall a: nat :: Covered(pieces + [r], a) <==> Covered(pieces, a) || r.start <= a < r.end
    {
      var more := pieces + [r];
      forall i | 0 <= i < |pieces| ensures pieces[i].end <= r.start { EndsAscend(pieces, i, |pieces| - 1); }
      forall a: nat ensures Covered(more, a) <==> Covered(pieces, a) || r.start <= a < r.end {
        if i :| 0 <= i < |pieces| && pieces[i].start <= a < pieces[i].end { assert more[i] == pieces[i]; }
        if r.start <= a < r.end { assert more[|pieces|] == r; }
      }
    }
  }

  /** A table for one range that holds it, and a range to be added before it: the slot behind
      the table is written. */
  method FullTable() returns (e: ExclusionTable, past: bool)
    ensures past && e.max == 1 && e.table.Length == 2
  {
    e := new ExclusionTable(1);
    hide Ordered;
    NoRange(e.table[..0]);
    var aborted, over := e.Exclude(10, 20);
    ghost var was := e.table[..e.entries];
    FirstExcluded(was);
    assert AllBeyond(was, 0, 5);
    aborted, past := e.Exclude(0, 5);
  }

  lemma NoRange(table: seq<Range>)
    requires table == []
    ensures !Overlapped(table, 10, 20) && !Adjoined(table, 20)
  {
  }

  lemma FirstExcluded(table: seq<Range>)
    requires Ordered(table)
    ensures |table| > 0 ==> Excluded(table, table[0].start) && table[0].start < table[0].end
  {
    if |table| > 0 { assert table[0].start <= table[0].start < table[0].end; }
  }
}
