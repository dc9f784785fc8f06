/** Space on a B-tree page: local payload, overlapping allocations, free blocks, fragments. */
module PageLayout {
  import opened Wrappers
  import FileGeometry

  // ---------------------------------------------------------------- local payload

  /** How many payload bytes stay on the page (section 1.7 of the SQLite file format). */
  function LocalPayload(usable: nat, tableLeaf: bool, payload: nat): nat
    requires usable >= 480
  {
    var minimum, maximum := Minimum(usable), Maximum(usable, tableLeaf);
    if payload <= maximum then payload
    else
      var candidate := minimum + (payload - minimum) % (usable - 4);
      if candidate <= maximum then candidate else minimum
  }

  function Minimum(usable: nat): (m: nat)
    requires usable >= 480
    ensures 35 <= m <= usable - 35
  {
    (usable - 12) * 32 / 255 - 23
  }

  function Maximum(usable: nat, tableLeaf: bool): (m: nat)
    requires usable >= 480
    ensures Minimum(usable) <= m <= usable - 35
  {
    if tableLeaf then usable - 35 else (usable - 12) * 64 / 255 - 23
  }

  /** A payload that spills keeps at least the minimum and at most the maximum, and either the
      minimum or so much that the overflow pages are full. */
  lemma SpillBounds(usable: nat, tableLeaf: bool, payload: nat)
    requires usable >= 480
    ensures var local := LocalPayload(usable, tableLeaf, payload);
      && local <= payload && (local < payload <==> payload > Maximum(usable, tableLeaf))
      && (local < payload ==> Minimum(usable) <= local <= Maximum(usable, tableLeaf))
      && (local < payload && local != Minimum(usable) ==> (payload - local) % (usable - 4) == 0)
  {
    hide Minimum, Maximum;
    if payload > Maximum(usable, tableLeaf) {
      WholePages(payload - Minimum(usable), usable - 4);
    }
  }

  lemma WholePages(bytes: nat, size: nat)
    requires size > 0
    ensures 0 <= bytes % size <= bytes && (bytes - bytes % size) % size == 0
  {
    var q, rest := bytes / size, bytes % size;
    assert bytes == q * size + rest && q * size >= 0;
    Multiple(q, size);
  }

  lemma Multiple(q: nat, size: nat)
    requires size > 0
    ensures q * size % size == 0
  {
    FileGeometry.DivisionGroup(q * size, q, 0, size);
    assert q * size == q * size / size * size + q * size % size;
  }

  // ---------------------------------------------------------------- overlapping extents

  datatype Extent = Extent(start: nat, end: nat, index: nat)

  predicate Overlap(a: Extent, b: Extent) {
    a.start < b.end && b.start < a.end
  }

  ghost predicate Disputed(extents: seq<Extent>, k: nat)
    requires k < |extents|
  {
    exists j :: 0 <= j < |extents| && j != k && Overlap(extents[k], extents[j])
  }

  ghost predicate Ordered(extents: seq<Extent>) {
    forall i, j :: 0 <= i < j < |extents| ==> extents[i].start <= extents[j].start
  }

  ghost predicate Nonempty(extents: seq<Extent>) {
    forall i :: 0 <= i < |extents| ==> extents[i].start < extents[i].end
  }

  function Insert(e: Extent, sorted: seq<Extent>): seq<Extent> {
    if sorted == [] || e.start <= sorted[0].start then [e] + sorted else [sorted[0]] + Insert(e, sorted[1..])
  }

  function Sort(extents: seq<Extent>): seq<Extent> {
    if extents == [] then [] else Insert(extents[0], Sort(extents[1..]))
  }

  lemma {:induction false} InsertKeeps(e: Extent, sorted: seq<Extent>)
    requires Ordered(sorted)
    ensures Ordered(Insert(e, sorted)) && multiset(Insert(e, sorted)) == multiset(sorted) + multiset{e}
  {
    if !(sorted == [] || e.start <= sorted[0].start) {
      var tail := sorted[1..];
      InsertKeeps(e, tail);
      assert sorted == [sorted[0]] + tail;
      Behind(sorted[0], e, tail, Insert(e, tail));
    }
  }

  /** What was inserted behind the first extent stays behind it. */
  lemma Behind(first: Extent, e: Extent, tail: seq<Extent>, rest: seq<Extent>)
    requires Ordered([first] + tail) && first.start <= e.start
    requires Ordered(rest) && multiset(rest) == multiset(tail) + multiset{e}
    ensures Ordered([first] + rest) && multiset([first] + rest) == multiset([first] + tail) + multiset{e}
  {
    forall j | 0 <= j < |rest|
      ensures first.start <= rest[j].start
    {
      assert rest[j] in multiset(rest);
      if rest[j] in tail {
        var k :| 0 <= k < |tail| && tail[k] == rest[j];
        assert ([first] + tail)[0].start <= ([first] + tail)[k + 1].start;
      }
    }
  }

  lemma {:induction false} SortKeeps(extents: seq<Extent>)
    ensures Ordered(Sort(extents)) && multiset(Sort(extents)) == multiset(extents)
  {
    if extents != [] {
      SortKeeps(extents[1..]);
      InsertKeeps(extents[0], Sort(extents[1..]));
      assert extents == [extents[0]] + extents[1..];
    }
  }

  /** The extents from `start` up to `end` hang together: each overlaps an earlier one, and none
      reaches past `high`. */
  ghost predicate Component(sorted: seq<Extent>, start: nat, end: nat, high: nat) {
    && start < end <= |sorted|
    && (forall k :: start <= k < end ==> sorted[k].end <= high)
    && (exists m :: start <= m < end && sorted[m].end == high)
    && (forall k :: start < k < end ==> JoinsEarlier(sorted, start, k))
  }

  ghost predicate JoinsEarlier(sorted: seq<Extent>, start: nat, k: nat)
    requires k < |sorted|
  {
    exists i :: start <= i < k && Overlap(sorted[i], sorted[k])
  }

  lemma ComponentGrows(sorted: seq<Extent>, start: nat, end: nat, high: nat)
    requires Ordered(sorted) && Nonempty(sorted) && Component(sorted, start, end, high)
    requires end < |sorted| && sorted[end].start < high
    ensures Component(sorted, start, end + 1, if high < sorted[end].end then sorted[end].end else high)
  {
    var m :| start <= m < end && sorted[m].end == high;
    assert Overlap(sorted[m], sorted[end]);
    assert JoinsEarlier(sorted, start, end);
    assert sorted[if high < sorted[end].end then end else m].end == if high < sorted[end].end then sorted[end].end else high;
  }

  /** A component of several extents has only disputed ones; a lone extent is clear of all. */
  lemma ComponentDisputed(sorted: seq<Extent>, start: nat, end: nat, high: nat, k: nat)
    requires Ordered(sorted) && Nonempty(sorted) && Component(sorted, start, end, high) && start <= k < end
    requires forall i, j :: 0 <= i < start <= j < |sorted| ==> sorted[i].end <= sorted[j].start
    requires end < |sorted| ==> high <= sorted[end].start
    ensures Disputed(sorted, k) <==> end > start + 1
    ensures forall i, j :: 0 <= i < end <= j < |sorted| ==> sorted[i].end <= sorted[j].start
  {
    if end > start + 1 {
      if k > start {
        assert JoinsEarlier(sorted, start, k);
        var i :| start <= i < k && Overlap(sorted[i], sorted[k]);
        assert Overlap(sorted[k], sorted[i]);
      } else {
        assert JoinsEarlier(sorted, start, start + 1);
        assert Overlap(sorted[start], sorted[start + 1]);
      }
    }
    forall i, j | 0 <= i < end <= j < |sorted|
      ensures sorted[i].end <= sorted[j].start
    {
      assert end < j ==> sorted[end].start <= sorted[j].start;
    }
  }

  /** Marks every extent that overlaps another one, in one sweep over the sorted extents. */
  method Sweep(sorted: seq<Extent>) returns (marked: seq<bool>)
    requires Ordered(sorted) && Nonempty(sorted)
    ensures |marked| == |sorted| && forall k :: 0 <= k < |sorted| ==> (marked[k] <==> Disputed(sorted, k))
  {
    marked := [];
    var start := 0;
    while start < |sorted|
      invariant start == |marked| <= |sorted|
      invariant forall k :: 0 <= k < start ==> (marked[k] <==> Disputed(sorted, k))
      invariant forall i, j :: 0 <= i < start <= j < |sorted| ==> sorted[i].end <= sorted[j].start
    {
      var end: nat, high: nat := start + 1, sorted[start].end;
      while end < |sorted| && sorted[end].start < high
        invariant Component(sorted, start, end, high)
      {
        ComponentGrows(sorted, start, end, high);
        high := if high < sorted[end].end then sorted[end].end else high;
        end := end + 1;
      }
      forall k | start <= k < end
        ensures Disputed(sorted, k) <==> end > start + 1
      {
        ComponentDisputed(sorted, start, end, high, k);
      }
      ComponentDisputed(sorted, start, end, high, start);
      marked := marked + seq(end - start, k => end > start + 1);
      start := end;
    }
  }

  // ---------------------------------------------------------------- containing overlaps

  type Range = r: (nat, nat) | r.0 < r.1 witness (0, 1)

  /** A cell or a free block: where it starts, and the bytes it takes if they are known. */
  datatype Allocation = Allocation(offset: nat, range: Option<Range>) {
    predicate WellPlaced() {
      range.Some? ==> range.value.0 == offset
    }
  }

  /** Even an undecodable cell's first byte may not lie inside another allocation. */
  function CellExtents(cells: seq<Allocation>, start: nat, usable: nat, n: nat): seq<Extent>
    requires n <= |cells|
  {
    if n == 0 then []
    else
      var c := cells[n - 1];
      CellExtents(cells, start, usable, n - 1)
        + (if c.offset < start || c.offset >= usable then []
           else [Extent(c.offset, if c.range.Some? then c.range.value.1 else c.offset + 1, n - 1)])
  }

  function BlockExtents(blocks: seq<Allocation>, base: nat, n: nat): seq<Extent>
    requires n <= |blocks|
  {
    if n == 0 then []
    else
      BlockExtents(blocks, base, n - 1)
        + (if blocks[n - 1].range.None? then [] else [Extent(blocks[n - 1].range.value.0, blocks[n - 1].range.value.1, base + n - 1)])
  }

  function Extents(cells: seq<Allocation>, blocks: seq<Allocation>, start: nat, usable: nat): seq<Extent> {
    CellExtents(cells, start, usable, |cells|) + BlockExtents(blocks, |cells|, |blocks|)
  }

  /** Every extent names its allocation, and no two name the same. */
  ghost predicate Named(extents: seq<Extent>, limit: nat) {
    && (forall i :: 0 <= i < |extents| ==> extents[i].index < limit)
    && (forall i, j :: 0 <= i < j < |extents| ==> extents[i].index != extents[j].index)
  }

  lemma {:induction false} CellsNamed(cells: seq<Allocation>, start: nat, usable: nat, n: nat)
    requires n <= |cells| && forall k :: 0 <= k < |cells| ==> cells[k].WellPlaced()
    ensures Named(CellExtents(cells, start, usable, n), n) && Nonempty(CellExtents(cells, start, usable, n))
  {
    if n > 0 {
      CellsNamed(cells, start, usable, n - 1);
      assert cells[n - 1].WellPlaced();
    }
  }

  lemma {:induction false} BlocksNamed(blocks: seq<Allocation>, base: nat, n: nat)
    requires n <= |blocks|
    ensures Named(BlockExtents(blocks, base, n), base + n) && Nonempty(BlockExtents(blocks, base, n))
    ensures forall i :: 0 <= i < |BlockExtents(blocks, base, n)| ==> BlockExtents(blocks, base, n)[i].index >= base
  {
    if n > 0 {
      BlocksNamed(blocks, base, n - 1);
    }
  }

  lemma ExtentsNamed(cells: seq<Allocation>, blocks: seq<Allocation>, start: nat, usable: nat)
    requires forall k :: 0 <= k < |cells| ==> cells[k].WellPlaced()
    ensures Named(Extents(cells, blocks, start, usable), |cells| + |blocks|) && Nonempty(Extents(cells, blocks, start, usable))
  {
    CellsNamed(cells, start, usable, |cells|);
    BlocksNamed(blocks, |cells|, |blocks|);
  }

  /** The allocation with this index overlaps another one. */
  ghost predicate InDispute(extents: seq<Extent>, index: nat) {
    exists k :: 0 <= k < |extents| && extents[k].index == index && Disputed(extents, k)
  }

  /** Sorting does not change who overlaps whom. */
  lemma SortedDisputes(extents: seq<Extent>, sorted: seq<Extent>, limit: nat, index: nat)
    requires multiset(sorted) == multiset(extents) && Named(extents, limit) && Named(sorted, limit)
    ensures InDispute(sorted, index) <==> InDispute(extents, index)
  {
    if InDispute(extents, index) {
      MovedDispute(extents, sorted, limit, index);
    }
    if InDispute(sorted, index) {
      MovedDispute(sorted, extents, limit, index);
    }
  }

  lemma MovedDispute(a: seq<Extent>, b: seq<Extent>, limit: nat, index: nat)
    requires multiset(b) == multiset(a) && Named(a, limit) && InDispute(a, index)
    ensures InDispute(b, index)
  {
    var k :| 0 <= k < |a| && a[k].index == index && Disputed(a, k);
    var j :| 0 <= j < |a| && j != k && Overlap(a[k], a[j]);
    assert a[k] in multiset(b) && a[j] in multiset(b);
    var m :| 0 <= m < |b| && b[m] == a[k];
    var n :| 0 <= n < |b| && b[n] == a[j];
    assert a[k].index != a[j].index by {
      assert j < k || k < j;
    }
    assert Overlap(b[m], b[n]);
    assert Disputed(b, m);
  }

  lemma {:induction false} PermutedNames(a: seq<Extent>, b: seq<Extent>, limit: nat)
    requires multiset(b) == multiset(a) && Named(a, limit)
    ensures Named(b, limit)
  {
    forall i | 0 <= i < |b|
      ensures b[i].index < limit
    {
      assert b[i] in multiset(a);
    }
    forall i, j | 0 <= i < j < |b|
      ensures b[i].index != b[j].index
    {
      if b[i].index == b[j].index {
        assert b[i] in multiset(a) && b[j] in multiset(a);
        var m :| 0 <= m < |a| && a[m] == b[i];
        var n :| 0 <= n < |a| && a[n] == b[j];
        assert m == n;
        TwiceInB(b, i, j);
        OnceInA(a, m, limit);
      }
    }
  }

  lemma TwiceInB(b: seq<Extent>, i: nat, j: nat)
    requires i < j < |b| && b[i] == b[j]
    ensures multiset(b)[b[i]] >= 2
  {
    assert b == b[..i] + [b[i]] + b[i + 1..j] + [b[j]] + b[j + 1..];
  }

  lemma OnceInA(a: seq<Extent>, m: nat, limit: nat)
    requires m < |a| && Named(a, limit)
    ensures multiset(a)[a[m]] == 1
  {
    assert a == a[..m] + [a[m]] + a[m + 1..];
    assert a[m] !in a[..m] && a[m] !in a[m + 1..];
  }

  function Contained(a: Allocation, disputed: bool): Allocation {
    if disputed then a.(range := None) else a
  }

  ghost predicate MarkedBelow(sorted: seq<Extent>, marked: seq<bool>, m: nat, index: nat)
    requires m <= |sorted| == |marked|
  {
    exists i :: 0 <= i < m && marked[i] && sorted[i].index == index
  }

  /** Withholds the bytes of every cell and free block that overlaps another allocation. */
  method ContainOverlaps(cells0: seq<Allocation>, blocks0: seq<Allocation>, start: nat, usable: nat)
    returns (cells: seq<Allocation>, blocks: seq<Allocation>)
    requires forall k :: 0 <= k < |cells0| ==> cells0[k].WellPlaced()
    ensures |cells| == |cells0| && |blocks| == |blocks0|
    ensures var extents := Extents(cells0, blocks0, start, usable);
      && (forall k :: 0 <= k < |cells| ==> cells[k] == Contained(cells0[k], InDispute(extents, k)))
      && (forall k :: 0 <= k < |blocks| ==> blocks[k] == Contained(blocks0[k], InDispute(extents, |cells0| + k)))
  {
    hide InDispute, Extents, MarkedBelow;
    var extents := Extents(cells0, blocks0, start, usable);
    ExtentsNamed(cells0, blocks0, start, usable);
    var sorted := Sort(extents);
    SortKeeps(extents);
    PermutedNames(extents, sorted, |cells0| + |blocks0|);
    SortedNonempty(extents, sorted);
    var marked := Sweep(sorted);
    NothingMarked(sorted, marked);
    cells, blocks := cells0, blocks0;
    for m: nat := 0 to |sorted|
      invariant |cells| == |cells0| && |blocks| == |blocks0|
      invariant forall k :: 0 <= k < |cells| ==> cells[k] == Contained(cells0[k], MarkedBelow(sorted, marked, m, k))
      invariant forall k :: 0 <= k < |blocks| ==> blocks[k] == Contained(blocks0[k], MarkedBelow(sorted, marked, m, |cells0| + k))
    {
      var index := sorted[m].index;
      forall k: nat
        ensures MarkedBelow(sorted, marked, m + 1, k) <==> MarkedBelow(sorted, marked, m, k) || (marked[m] && index == k)
      {
        MarkStep(sorted, marked, m, k);
      }
      if marked[m] {
        if index >= |cells0| {
          blocks := blocks[index - |cells0| := blocks[index - |cells0|].(range := None)];
        } else {
          cells := cells[index := cells[index].(range := None)];
        }
      }
    }
    forall k: nat
      ensures MarkedBelow(sorted, marked, |sorted|, k) <==> InDispute(extents, k)
    {
      AllMarked(sorted, marked, k);
      SortedDisputes(extents, sorted, |cells0| + |blocks0|, k);
    }
  }

  lemma NothingMarked(sorted: seq<Extent>, marked: seq<bool>)
    requires |sorted| == |marked|
    ensures forall index :: !MarkedBelow(sorted, marked, 0, index)
  {
  }

  lemma AllMarked(sorted: seq<Extent>, marked: seq<bool>, index: nat)
    requires |sorted| == |marked| && forall i :: 0 <= i < |sorted| ==> (marked[i] <==> Disputed(sorted, i))
    ensures MarkedBelow(sorted, marked, |sorted|, index) <==> InDispute(sorted, index)
  {
  }

  lemma MarkStep(sorted: seq<Extent>, marked: seq<bool>, m: nat, index: nat)
    requires m < |sorted| == |marked|
    ensures MarkedBelow(sorted, marked, m + 1, index) <==> MarkedBelow(sorted, marked, m, index) || (marked[m] && sorted[m].index == index)
  {
    if MarkedBelow(sorted, marked, m, index) {
      var i :| 0 <= i < m && marked[i] && sorted[i].index == index;
      assert i < m + 1 && marked[i];
    }
    if marked[m] && sorted[m].index == index {
      assert m < m + 1 && marked[m];
    }
  }

  lemma SortedNonempty(extents: seq<Extent>, sorted: seq<Extent>)
    requires multiset(sorted) == multiset(extents) && Nonempty(extents)
    ensures Nonempty(sorted)
  {
    forall i | 0 <= i < |sorted|
      ensures sorted[i].start < sorted[i].end
    {
      assert sorted[i] in multiset(extents);
    }
  }

  // ---------------------------------------------------------------- what is left is disjoint

  predicate Apart(a: Range, b: Range) {
    a.1 <= b.0 || b.1 <= a.0
  }

  /** The bytes that are still attributed: those of the cells, then those of the free blocks. */
  function Ranges(allocations: seq<Allocation>): seq<Range> {
    if allocations == [] then []
    else
      var last := allocations[|allocations| - 1];
      Ranges(allocations[..|allocations| - 1]) + (if last.range.Some? then [last.range.value] else [])
  }

  lemma {:induction false} ExtentOfCell(cells: seq<Allocation>, start: nat, usable: nat, n: nat, k: nat) returns (i: nat)
    requires k < n <= |cells| && start <= cells[k].offset < usable && cells[k].range.Some? && cells[k].WellPlaced()
    ensures i < |CellExtents(cells, start, usable, n)|
    ensures CellExtents(cells, start, usable, n)[i] == Extent(cells[k].range.value.0, cells[k].range.value.1, k)
  {
    if k == n - 1 {
      i := |CellExtents(cells, start, usable, n)| - 1;
    } else {
      i := ExtentOfCell(cells, start, usable, n - 1, k);
    }
  }

  lemma {:induction false} ExtentOfBlock(blocks: seq<Allocation>, base: nat, n: nat, k: nat) returns (i: nat)
    requires k < n <= |blocks| && blocks[k].range.Some?
    ensures i < |BlockExtents(blocks, base, n)|
    ensures BlockExtents(blocks, base, n)[i] == Extent(blocks[k].range.value.0, blocks[k].range.value.1, base + k)
  {
    if k == n - 1 {
      i := |BlockExtents(blocks, base, n)| - 1;
    } else {
      i := ExtentOfBlock(blocks, base, n - 1, k);
    }
  }

  /** All allocations of a page in one list, cells first. */
  function AllocationAt(cells: seq<Allocation>, blocks: seq<Allocation>, k: nat): Allocation
    requires k < |cells| + |blocks|
  {
    if k < |cells| then cells[k] else blocks[k - |cells|]
  }

  lemma ExtentOf(cells: seq<Allocation>, blocks: seq<Allocation>, start: nat, usable: nat, k: nat) returns (i: nat)
    requires k < |cells| + |blocks| && AllocationAt(cells, blocks, k).range.Some?
    requires k < |cells| ==> start <= cells[k].offset < usable && cells[k].WellPlaced()
    ensures var extents := Extents(cells, blocks, start, usable); var r := AllocationAt(cells, blocks, k).range.value;
      i < |extents| && extents[i] == Extent(r.0, r.1, k)
  {
    if k < |cells| {
      i := ExtentOfCell(cells, start, usable, |cells|, k);
    } else {
      i := ExtentOfBlock(blocks, |cells|, |blocks|, k - |cells|);
      i := i + |CellExtents(cells, start, usable, |cells|)|;
    }
  }

  /** After containment no two attributed ranges share a byte. */
  lemma LeftIsDisjoint(cells0: seq<Allocation>, blocks0: seq<Allocation>, cells: seq<Allocation>, blocks: seq<Allocation>,
                       start: nat, usable: nat, i: nat, j: nat)
    requires |cells| == |cells0| && |blocks| == |blocks0|
    requires forall k :: 0 <= k < |cells0| && cells0[k].range.Some? ==> start <= cells0[k].offset < usable && cells0[k].WellPlaced()
    requires forall k :: 0 <= k < |cells| ==> cells[k] == Contained(cells0[k], InDispute(Extents(cells0, blocks0, start, usable), k))
    requires forall k :: 0 <= k < |blocks| ==> blocks[k] == Contained(blocks0[k], InDispute(Extents(cells0, blocks0, start, usable), |cells0| + k))
    requires i < j < |cells| + |blocks|
    requires AllocationAt(cells, blocks, i).range.Some? && AllocationAt(cells, blocks, j).range.Some?
    ensures Apart(AllocationAt(cells, blocks, i).range.value, AllocationAt(cells, blocks, j).range.value)
  {
    var extents := Extents(cells0, blocks0, start, usable);
    var m := ExtentOf(cells0, blocks0, start, usable, i);
    var n := ExtentOf(cells0, blocks0, start, usable, j);
    assert !InDispute(extents, i);
    assert !Disputed(extents, m);
    assert m != n;
    assert !Overlap(extents[m], extents[n]);
  }
}
