/** Free space on a B-tree page: the chain of free blocks and the fragments between
    allocations (section 1.6 of the SQLite file format). */
module FreeSpace {
  import opened Wrappers
  import opened PageLayout

  // ---------------------------------------------------------------- overlap queries

  /** Some occupied extent shares a byte with the bytes from `from` to `upTo`. */
  ghost predicate Touches(occupied: seq<Extent>, from: nat, upTo: nat) {
    exists k :: 0 <= k < |occupied| && occupied[k].start < upTo && occupied[k].end > from
  }

  /** `highs[k]` is the furthest end among the first `k + 1` extents. */
  ghost predicate PrefixMaxima(occupied: seq<Extent>, highs: seq<nat>, n: nat) {
    && n <= |occupied| && |highs| == n
    && (forall k, m :: 0 <= k <= m < n ==> occupied[k].end <= highs[m])
    && (forall m :: 0 <= m < n ==> exists k :: 0 <= k <= m && occupied[k].end == highs[m])
  }

  method Maxima(occupied: seq<Extent>) returns (highs: seq<nat>)
    ensures PrefixMaxima(occupied, highs, |occupied|)
  {
    highs := [];
    var high := 0;
    for n: nat := 0 to |occupied|
      invariant PrefixMaxima(occupied, highs, n)
      invariant n > 0 ==> high == highs[n - 1]
      invariant n == 0 ==> high == 0
    {
      ghost var before := highs;
      var next := if high < occupied[n].end then occupied[n].end else high;
      highs := highs + [next];
      assert forall k :: 0 <= k < n ==> occupied[k].end <= (if n > 0 then before[n - 1] else 0) <= next;
      forall m | 0 <= m < n + 1
        ensures exists k :: 0 <= k <= m && occupied[k].end == highs[m]
      {
        if m == n {
          if next == occupied[n].end {
            assert 0 <= n <= m && occupied[n].end == highs[m];
          } else {
            var k :| 0 <= k <= n - 1 && occupied[k].end == before[n - 1];
            assert occupied[k].end == highs[m];
          }
        } else {
          var k :| 0 <= k <= m && occupied[k].end == before[m];
          assert occupied[k].end == highs[m];
        }
      }
      high := next;
    }
  }

  /** How many of the sorted extents start before a limit, by halving. */
  method PartitionPoint(occupied: seq<Extent>, limit: nat) returns (count: nat)
    requires Ordered(occupied)
    ensures count <= |occupied|
    ensures forall k :: 0 <= k < count ==> occupied[k].start < limit
    ensures forall k :: count <= k < |occupied| ==> occupied[k].start >= limit
  {
    var low, high := 0, |occupied|;
    while low < high
      invariant low <= high <= |occupied|
      invariant forall k :: 0 <= k < low ==> occupied[k].start < limit
      invariant forall k :: high <= k < |occupied| ==> occupied[k].start >= limit
    {
      var mid := (low + high) / 2;
      if occupied[mid].start < limit {
        low := mid + 1;
      } else {
        high := mid;
      }
    }
    count := low;
  }

  /** The query over prefix maxima answers what a scan of all extents would. */
  method Query(occupied: seq<Extent>, highs: seq<nat>, from: nat, upTo: nat) returns (touches: bool)
    requires Ordered(occupied) && PrefixMaxima(occupied, highs, |occupied|)
    ensures touches <==> Touches(occupied, from, upTo)
  {
    var before := PartitionPoint(occupied, upTo);
    touches := before > 0 && highs[before - 1] > from;
    if touches {
      var k :| 0 <= k <= before - 1 && occupied[k].end == highs[before - 1];
      assert occupied[k].start < upTo && occupied[k].end > from;
    } else {
      NothingTouches(occupied, highs, before, from, upTo);
    }
  }

  lemma NothingTouches(occupied: seq<Extent>, highs: seq<nat>, before: nat, from: nat, upTo: nat)
    requires PrefixMaxima(occupied, highs, |occupied|) && before <= |occupied|
    requires forall k :: before <= k < |occupied| ==> occupied[k].start >= upTo
    requires before > 0 ==> highs[before - 1] <= from
    ensures !Touches(occupied, from, upTo)
  {
    forall k | 0 <= k < |occupied| && occupied[k].start < upTo
      ensures occupied[k].end <= from
    {
      assert occupied[k].end <= highs[before - 1];
    }
  }

  // ---------------------------------------------------------------- the chain of free blocks

  datatype Block = Block(offset: nat, next: nat, size: nat)

  datatype ChainEnd = Ended | InvalidExtent | InsideAllocation | NoCellBefore | InvalidLink

  /** A free block lies in the content area, holds its own header, and follows the one before
      it without touching it. */
  ghost predicate Chained(word: nat -> nat, start: nat, usable: nat, first: nat, blocks: seq<Block>) {
    && (forall k :: 0 <= k < |blocks| ==> InContent(word, start, usable, blocks[k]))
    && (blocks != [] ==> blocks[0].offset == first != 0)
    && (forall k :: 0 <= k < |blocks| - 1 ==>
         blocks[k].next == blocks[k + 1].offset && blocks[k + 1].offset >= blocks[k].offset + blocks[k].size)
  }

  ghost predicate InContent(word: nat -> nat, start: nat, usable: nat, b: Block) {
    start <= b.offset && b.size >= 4 && b.offset + b.size <= usable && b.next == word(b.offset) && b.size == word(b.offset + 2)
  }

  /** The offset at which the walk stands after the blocks read so far. */
  function Ahead(first: nat, blocks: seq<Block>): nat {
    if blocks == [] then first else blocks[|blocks| - 1].next
  }

  /** Why the walk ended, exactly. */
  ghost predicate EndsAs(word: nat -> nat, occupied: seq<Extent>, preceded: nat -> bool, start: nat, usable: nat, first: nat,
                         blocks: seq<Block>, end: ChainEnd) {
    match end
    case Ended => Ahead(first, blocks) == 0
    case InvalidExtent =>
      var at := Ahead(first, blocks);
      at != 0 && (at < start || at + 4 > usable || word(at + 2) < 4 || at + word(at + 2) > usable)
    case InsideAllocation => blocks != [] && var b := blocks[|blocks| - 1]; Touches(occupied, b.offset, b.offset + b.size)
    case NoCellBefore => |blocks| == 1 && !preceded(blocks[0].offset)
    case InvalidLink => blocks != [] && var b := blocks[|blocks| - 1]; b.next != 0 && b.next < b.offset + b.size
  }

  /** No block but possibly the last touches an allocation. */
  ghost predicate Clear(occupied: seq<Extent>, blocks: seq<Block>, n: nat) {
    n <= |blocks| && forall k :: 0 <= k < n ==> !Touches(occupied, blocks[k].offset, blocks[k].offset + blocks[k].size)
  }

  lemma ClearStart(word: nat -> nat, occupied: seq<Extent>, start: nat, usable: nat, first: nat)
    ensures Chained(word, start, usable, first, []) && Clear(occupied, [], 0)
  {
  }

  lemma ChainGrows(word: nat -> nat, occupied: seq<Extent>, start: nat, usable: nat, first: nat, blocks: seq<Block>, b: Block)
    requires Chained(word, start, usable, first, blocks) && Clear(occupied, blocks, |blocks|)
    requires b.offset == Ahead(first, blocks) != 0 && InContent(word, start, usable, b)
    requires blocks != [] ==> b.offset >= blocks[|blocks| - 1].offset + blocks[|blocks| - 1].size
    ensures Chained(word, start, usable, first, blocks + [b]) && Clear(occupied, blocks + [b], |blocks|)
    ensures !Touches(occupied, b.offset, b.offset + b.size) ==> Clear(occupied, blocks + [b], |blocks| + 1)
  {
    var more := blocks + [b];
    forall k | 0 <= k < |more|
      ensures InContent(word, start, usable, more[k])
    {
      assert k < |blocks| ==> more[k] == blocks[k];
    }
  }

  /** Follows the chain of free blocks. Offsets strictly rise, so it always ends. */
  method Freeblocks(word: nat -> nat, occupied: seq<Extent>, preceded: nat -> bool, start: nat, usable: nat, first: nat)
    returns (blocks: seq<Block>, end: ChainEnd)
    requires Ordered(occupied)
    ensures Chained(word, start, usable, first, blocks)
    ensures EndsAs(word, occupied, preceded, start, usable, first, blocks, end)
    ensures Clear(occupied, blocks, if end.InsideAllocation? then |blocks| - 1 else |blocks|)
  {
    var highs := Maxima(occupied);
    blocks := [];
    var offset := first;
    hide Chained, Clear, Touches, PrefixMaxima, Ordered;
    ClearStart(word, occupied, start, usable, first);
    while offset != 0
      invariant offset == Ahead(first, blocks)
      invariant Chained(word, start, usable, first, blocks) && Clear(occupied, blocks, |blocks|)
      invariant offset != 0 && blocks != [] ==> offset >= blocks[|blocks| - 1].offset + blocks[|blocks| - 1].size
      decreases if offset == 0 then 0 else usable + 1 - offset + 1
    {
      if offset < start || offset + 4 > usable {
        return blocks, InvalidExtent;
      }
      var next, size := word(offset), word(offset + 2);
      if size < 4 || offset + size > usable {
        return blocks, InvalidExtent;
      }
      ChainGrows(word, occupied, start, usable, first, blocks, Block(offset, next, size));
      blocks := blocks + [Block(offset, next, size)];
      var touches := Query(occupied, highs, offset, offset + size);
      if touches {
        return blocks, InsideAllocation;
      }
      if |blocks| == 1 && !preceded(offset) {
        return blocks, NoCellBefore;
      }
      if next != 0 && next < offset + size {
        return blocks, InvalidLink;
      }
      offset := next;
    }
    end := Ended;
  }

  /** The blocks of a chain rise strictly and share no byte. */
  lemma {:induction false} BlocksRise(word: nat -> nat, start: nat, usable: nat, first: nat, blocks: seq<Block>, i: nat, j: nat)
    requires Chained(word, start, usable, first, blocks) && i < j < |blocks|
    ensures blocks[i].offset + blocks[i].size <= blocks[j].offset
  {
    assert blocks[j - 1].next == blocks[j - 1 + 1].offset;
    assert InContent(word, start, usable, blocks[j - 1]);
    if i < j - 1 {
      BlocksRise(word, start, usable, first, blocks, i, j - 1);
    }
  }

  // ---------------------------------------------------------------- fragments

  /** The pieces follow one another without gap or overlap from `from` to `upTo`. */
  ghost predicate Tiles(pieces: seq<Range>, from: nat, upTo: nat) {
    if pieces == [] then from == upTo
    else
      var last := pieces[|pieces| - 1];
      last.1 == upTo && Tiles(pieces[..|pieces| - 1], from, last.0)
  }

  ghost predicate Holds(r: Range, byte: nat) {
    r.0 <= byte < r.1
  }

  /** Tiling pieces cover every byte exactly once. */
  lemma {:induction false} TilesOnce(pieces: seq<Range>, from: nat, upTo: nat, byte: nat)
    requires Tiles(pieces, from, upTo)
    ensures from <= upTo
    ensures from <= byte < upTo <==> exists k :: 0 <= k < |pieces| && Holds(pieces[k], byte)
    ensures forall i, j :: 0 <= i < j < |pieces| && Holds(pieces[i], byte) ==> !Holds(pieces[j], byte)
  {
    if pieces != [] {
      var rest, last := pieces[..|pieces| - 1], pieces[|pieces| - 1];
      TilesOnce(rest, from, last.0, byte);
      if Holds(last, byte) {
        assert Holds(pieces[|pieces| - 1], byte);
      }
      if k :| 0 <= k < |rest| && Holds(rest[k], byte) {
        assert Holds(pieces[k], byte);
      }
    }
  }

  function Length(r: Range): nat {
    r.1 - r.0
  }

  function TotalLength(pieces: seq<Range>): nat {
    if pieces == [] then 0 else TotalLength(pieces[..|pieces| - 1]) + Length(pieces[|pieces| - 1])
  }

  lemma {:induction false} TilesLength(pieces: seq<Range>, from: nat, upTo: nat)
    requires Tiles(pieces, from, upTo)
    ensures from + TotalLength(pieces) == upTo
  {
    if pieces != [] {
      TilesLength(pieces[..|pieces| - 1], from, pieces[|pieces| - 1].0);
    }
  }

  function RangesOf(sorted: seq<Extent>): seq<Range>
    requires Nonempty(sorted)
  {
    seq(|sorted|, k requires 0 <= k < |sorted| => (sorted[k].start, sorted[k].end))
  }

  /** Sorted allocations that share no byte and lie in the content area. */
  ghost predicate Separated(sorted: seq<Extent>, start: nat, usable: nat) {
    && Nonempty(sorted)
    && (forall i, j :: 0 <= i < j < |sorted| ==> sorted[i].end <= sorted[j].start)
    && (forall k :: 0 <= k < |sorted| ==> start <= sorted[k].start && sorted[k].end <= usable)
  }

  datatype FragmentVerdict = Accounted | CountMismatch | Untracked

  /** Extends a tiling by the gap up to `upTo`, if there is one. */
  lemma Gap(pieces: seq<Range>, from: nat, cursor: nat, upTo: nat)
    requires Tiles(pieces, from, cursor) && cursor < upTo
    ensures Tiles(pieces + [(cursor, upTo)], from, upTo)
  {
    assert (pieces + [(cursor, upTo)])[..|pieces|] == pieces;
  }

  /** Finds the gaps between allocations. Together with the allocations they tile the content
      area; gaps of more than three bytes are free space the page has lost track of. */
  method Fragments(sorted: seq<Extent>, start: nat, usable: nat, declared: nat)
    returns (fragments: seq<Range>, verdict: FragmentVerdict, ghost pieces: seq<Range>)
    requires start <= usable && Separated(sorted, start, usable)
    ensures Tiles(pieces, start, usable)
    ensures multiset(pieces) == multiset(RangesOf(sorted)) + multiset(fragments)
    ensures verdict.Untracked? <==> exists k :: 0 <= k < |fragments| && Length(fragments[k]) > 3
    ensures verdict.Accounted? ==> TotalLength(fragments) == declared
    ensures verdict.CountMismatch? ==> TotalLength(fragments) != declared
  {
    hide Walked, Tiles, TotalLength, RangesOf;
    fragments, pieces := [], [];
    var cursor: nat, total: nat, largest: nat := start, 0, 0;
    WalkStart(sorted, start);
    for k: nat := 0 to |sorted|
      invariant start <= cursor <= usable && (k < |sorted| ==> cursor <= sorted[k].start)
      invariant Walked(sorted, k, start, cursor, fragments, total, largest, pieces)
    {
      var next := sorted[k];
      if cursor < next.start {
        WalkGap(sorted, k, start, cursor, fragments, total, largest, pieces, next.start);
        fragments, pieces := fragments + [(cursor, next.start)], pieces + [(cursor, next.start)];
        total, largest := total + next.start - cursor, Larger(largest, next.start - cursor);
      }
      WalkRange(sorted, k, start, fragments, total, largest, pieces);
      pieces := pieces + [(next.start, next.end)];
      cursor := next.end;
    }
    if cursor < usable {
      WalkGap(sorted, |sorted|, start, cursor, fragments, total, largest, pieces, usable);
      fragments, pieces := fragments + [(cursor, usable)], pieces + [(cursor, usable)];
      total, largest := total + usable - cursor, Larger(largest, usable - cursor);
    }
    WalkDone(sorted, start, usable, fragments, total, largest, pieces);
    verdict := if largest > 3 then Untracked else if total != declared then CountMismatch else Accounted;
  }

  lemma WalkStart(sorted: seq<Extent>, start: nat)
    requires Nonempty(sorted)
    ensures Walked(sorted, 0, start, start, [], 0, 0, [])
  {
    assert RangesOf(sorted)[..0] == [];
  }

  lemma WalkDone(sorted: seq<Extent>, start: nat, usable: nat, fragments: seq<Range>, total: nat, largest: nat, pieces: seq<Range>)
    requires Nonempty(sorted) && Walked(sorted, |sorted|, start, usable, fragments, total, largest, pieces)
    ensures Tiles(pieces, start, usable) && multiset(pieces) == multiset(RangesOf(sorted)) + multiset(fragments)
    ensures total == TotalLength(fragments)
    ensures largest > 3 <==> exists k :: 0 <= k < |fragments| && Length(fragments[k]) > 3
  {
    assert RangesOf(sorted)[..|sorted|] == RangesOf(sorted);
  }

  function Larger(a: nat, b: nat): nat {
    if a < b then b else a
  }

  /** The walk stands at `cursor`, behind the first `k` allocations. */
  ghost predicate Walked(sorted: seq<Extent>, k: nat, start: nat, cursor: nat, fragments: seq<Range>, total: nat, largest: nat, pieces: seq<Range>)
    requires Nonempty(sorted) && k <= |sorted|
  {
    && Tiles(pieces, start, cursor)
    && multiset(pieces) == multiset(RangesOf(sorted)[..k]) + multiset(fragments)
    && total == TotalLength(fragments) && Largest(fragments, largest)
  }

  lemma WalkGap(sorted: seq<Extent>, k: nat, start: nat, cursor: nat, fragments: seq<Range>, total: nat, largest: nat, pieces: seq<Range>, upTo: nat)
    requires Nonempty(sorted) && k <= |sorted| && cursor < upTo
    requires Walked(sorted, k, start, cursor, fragments, total, largest, pieces)
    ensures Walked(sorted, k, start, upTo, fragments + [(cursor, upTo)], total + upTo - cursor, Larger(largest, upTo - cursor), pieces + [(cursor, upTo)])
  {
    Gap(pieces, start, cursor, upTo);
    LargestPush(fragments, largest, (cursor, upTo));
  }

  lemma WalkRange(sorted: seq<Extent>, k: nat, start: nat, fragments: seq<Range>, total: nat, largest: nat, pieces: seq<Range>)
    requires Nonempty(sorted) && k < |sorted|
    requires Walked(sorted, k, start, sorted[k].start, fragments, total, largest, pieces)
    ensures Walked(sorted, k + 1, start, sorted[k].end, fragments, total, largest, pieces + [(sorted[k].start, sorted[k].end)])
  {
    Gap(pieces, start, sorted[k].start, sorted[k].end);
    assert RangesOf(sorted)[..k + 1] == RangesOf(sorted)[..k] + [RangesOf(sorted)[k]];
  }

  ghost predicate Largest(fragments: seq<Range>, largest: nat) {
    && (forall k :: 0 <= k < |fragments| ==> Length(fragments[k]) <= largest)
    && (largest > 0 ==> exists k :: 0 <= k < |fragments| && Length(fragments[k]) == largest)
  }

  lemma LargestPush(fragments: seq<Range>, largest: nat, r: Range)
    requires Largest(fragments, largest)
    ensures Largest(fragments + [r], if largest < Length(r) then Length(r) else largest)
    ensures TotalLength(fragments + [r]) == TotalLength(fragments) + Length(r)
  {
    var more := fragments + [r];
    assert more[..|fragments|] == fragments;
    if largest < Length(r) {
      assert Length(more[|fragments|]) == Length(r);
    } else if largest > 0 {
      var k :| 0 <= k < |fragments| && Length(fragments[k]) == largest;
      assert Length(more[k]) == largest;
    }
  }
}
