/** Bounded windows over the collections of a revision, whole or for one page. */
module Windows {
  import opened Wrappers
  import opened Store
  import opened SpillingSequence
  import opened PageIndex

  const MAX_ITEMS: nat := 256
  const FIRST_BUDGET: nat := 32 * 1024 * 1024
  const WINDOW_BUDGET: nat := 8 * 1024 * 1024

  datatype QueryError =
    | InvalidCollectionRange
    | Invalidated
    | RevisionUnavailable
    | EntityUnavailable
    | StorageUnavailable
    | CollectionBudget

  datatype Batch<T> = Batch(offset: nat, total: nat, items: seq<T>, next: Option<nat>)

  // ---------------------------------------------------------------- what a window is

  /** The records a query is about: all of them, or those that touch one page. */
  function Selected<T>(v: seq<T>, tags: Tags<T>, page: Option<nat>): seq<T> {
    if page.None? then v else At(v, Touching(v, tags, page.value))
  }

  function At<T>(v: seq<T>, positions: seq<nat>): (r: seq<T>)
    requires forall k :: 0 <= k < |positions| ==> positions[k] < |v|
    ensures |r| == |positions| && forall k :: 0 <= k < |r| ==> r[k] == v[positions[k]]
  {
    seq(|positions|, k requires 0 <= k < |positions| => v[positions[k]])
  }

  /** A window: the records from `offset` on, some of them unless there are none, and where the
      next window starts if there is more. */
  ghost predicate IsWindow<T>(records: seq<T>, offset: nat, limit: nat, b: Batch<T>) {
    && b.offset == offset && b.total == |records| && |b.items| <= limit
    && b.items == Slice(records, offset, |b.items|)
    && (offset < |records| ==> b.items != [])
    && b.next == (if b.items != [] && offset + |b.items| < |records| then Some(offset + |b.items|) else None)
  }

  /** A reader starts at the beginning and asks for the next window until there is none. */
  ghost predicate Followed<T>(records: seq<T>, limits: seq<nat>, batches: seq<Batch<T>>) {
    && |limits| == |batches| && batches != [] && batches[0].offset == 0
    && (forall k :: 0 <= k < |batches| ==> IsWindow(records, batches[k].offset, limits[k], batches[k]))
    && (forall k {:trigger batches[k].next} :: 0 <= k < |batches| - 1 ==> batches[k].next == Some(batches[k + 1].offset))
    && batches[|batches| - 1].next == None
  }

  function Joined<T>(batches: seq<Batch<T>>): seq<T> {
    if batches == [] then [] else Joined(batches[..|batches| - 1]) + batches[|batches| - 1].items
  }

  lemma WindowEnd<T>(records: seq<T>, offset: nat, limit: nat, b: Batch<T>)
    requires IsWindow(records, offset, limit, b) && offset <= |records|
    ensures offset + |b.items| <= |records| && records[..offset] + b.items == records[..offset + |b.items|]
    ensures b.next.Some? ==> b.next.value == offset + |b.items|
    ensures b.next.None? ==> offset + |b.items| == |records|
  {
    assert |Slice(records, offset, |b.items|)| == |b.items|;
  }

  lemma {:induction false} JoinedSoFar<T>(records: seq<T>, limits: seq<nat>, batches: seq<Batch<T>>, n: nat)
    requires Followed(records, limits, batches) && 0 < n <= |batches|
    ensures var last := batches[n - 1]; last.offset <= |records| && last.offset + |last.items| <= |records|
    ensures var last := batches[n - 1]; Joined(batches[..n]) == records[..last.offset + |last.items|]
    ensures batches[n - 1].next.None? ==> batches[n - 1].offset + |batches[n - 1].items| == |records|
    ensures batches[n - 1].next.Some? ==> batches[n - 1].next.value == batches[n - 1].offset + |batches[n - 1].items|
  {
    hide IsWindow;
    var last := batches[n - 1];
    assert batches[..n][..n - 1] == batches[..n - 1];
    assert Joined(batches[..n]) == Joined(batches[..n - 1]) + last.items;
    if n > 1 {
      JoinedSoFar(records, limits, batches, n - 1);
      assert batches[n - 2].next == Some(last.offset);
    } else {
      assert Joined(batches[..0]) == [] && records[..0] == [];
    }
    WindowEnd(records, last.offset, limits[n - 1], last);
  }

  /** Following the windows from the first shows every record once, in order, whatever limits
      are asked for and wherever the budgets cut. */
  lemma {:induction false} EveryRecordOnce<T>(records: seq<T>, limits: seq<nat>, batches: seq<Batch<T>>)
    requires Followed(records, limits, batches)
    ensures Joined(batches) == records
  {
    var n := |batches|;
    JoinedSoFar(records, limits, batches, n);
    assert batches[..n] == batches;
  }

  // ---------------------------------------------------------------- reading a window

  /** What is set aside for a decoded record: four times its text and a margin when it is in
      the cache, four times what is stored when it is on disk. */
  predicate IsEstimate<T>(size: T -> nat, text: T -> nat, value: T, bytes: nat) {
    bytes == text(value) * 4 + 256 || bytes == size(value) * 4
  }

  method LocalEstimate<T>(store: StoreContext<T>, c: Cells<T>, text: T -> nat, position: nat) returns (answered: bool, bytes: nat)
    requires LocalGood(c, store.Now(), store.size) && position < c.length
    ensures answered ==> IsEstimate(store.size, text, LocalView(c, store.Now(), store.size)[position], bytes)
  {
    if position in c.memory {
      return true, text(c.memory[position]) * 4 + 256;
    }
    var error := store.DiskAnswers();
    return error.Working?, store.size(store.records[(c.collection, position)]) * 4;
  }

  method EstimatedSize<T>(store: StoreContext<T>, c: Cells<T>, text: T -> nat, position: nat) returns (answered: bool, bytes: nat)
    requires Good(c, store.Now(), store.size)
    ensures answered && position < Length(c) ==> IsEstimate(store.size, text, View(c, store.Now(), store.size)[position], bytes)
    decreases c
  {
    hide Good, LocalGood, AllGood, View, Views, LocalView, Length, Lengths, IsEstimate;
    ghost var h := store.Now();
    answered, bytes := true, 0;
    Parts(c, h, store.size);
    if position < c.length {
      answered, bytes := LocalEstimate(store, c, text, position);
    } else if position < Length(c) {
      NotEmpty(c.segments);
      var k, remaining := FindSegment(c.segments, position - c.length);
      SegmentGood(c.segments, h, store.size, k);
      SegmentReads(c.segments, h, store.size, k, remaining);
      answered, bytes := EstimatedSize(store, c.segments[k], text, remaining);
    }
  }

  /** How many records the query is about. */
  method TotalOf<T>(store: StoreContext<T>, c: Cells<T>, tags: Tags<T>, page: Option<nat>) returns (answered: bool, total: nat)
    requires Good(c, store.Now(), store.size)
    ensures answered ==> total == |Selected(View(c, store.Now(), store.size), tags, page)|
  {
    if page.Some? {
      answered, total := PageCount(store, c, tags, page.value);
    } else {
      answered, total := true, Length(c);
    }
  }

  lemma ByPage<T>(v: seq<T>, tags: Tags<T>, page: nat, offset: nat, end: nat, positions: seq<nat>)
    requires end <= |Touching(v, tags, page)|
    requires positions == Slice(Touching(v, tags, page), offset, if offset < end then end - offset else 0)
    ensures Locates(v, tags, Some(page), offset, end, positions)
  {
  }

  lemma Everywhere<T>(v: seq<T>, tags: Tags<T>, offset: nat, end: nat, positions: seq<nat>)
    requires end <= |v| && |positions| == (if offset < end then end - offset else 0)
    requires forall k :: 0 <= k < |positions| ==> positions[k] == offset + k
    ensures Locates(v, tags, None, offset, end, positions)
  {
  }

  /** Where the records from `offset` to `end` of the query are. */
  method PositionsOf<T>(store: StoreContext<T>, c: Cells<T>, tags: Tags<T>, page: Option<nat>, offset: nat, end: nat)
    returns (answered: bool, positions: seq<nat>)
    requires Good(c, store.Now(), store.size)
    requires end <= |Selected(View(c, store.Now(), store.size), tags, page)|
    ensures answered ==> Locates(View(c, store.Now(), store.size), tags, page, offset, end, positions)
  {
    ghost var v := View(c, store.Now(), store.size);
    hide Good, View, Locates, Touching, Slice;
    var count := if offset < end then end - offset else 0;
    if page.Some? {
      answered, positions := PagePositions(store, c, tags, page.value, offset, count);
      if answered {
        ByPage(v, tags, page.value, offset, end, positions);
      }
    } else {
      answered, positions := true, seq(count, k requires 0 <= k => offset + k);
      Everywhere(v, tags, offset, end, positions);
    }
  }

  /** These are the positions of the records from `offset` to `end` of the query. */
  ghost predicate Locates<T>(v: seq<T>, tags: Tags<T>, page: Option<nat>, offset: nat, end: nat, positions: seq<nat>) {
    var records := Selected(v, tags, page);
    && |positions| == (if offset < end then end - offset else 0)
    && (offset < end ==> end <= |records|)
    && (forall k :: 0 <= k < |positions| ==> positions[k] < |v| && offset + k < |records| && v[positions[k]] == records[offset + k])
  }

  ghost predicate Estimates<T>(size: T -> nat, text: T -> nat, items: seq<T>, reserved: seq<nat>) {
    |reserved| == |items| && forall k :: 0 <= k < |items| ==> IsEstimate(size, text, items[k], reserved[k])
  }

  /** The budget a window respects: a first record may be large, several together may not. */
  ghost predicate WithinBudget(reserved: seq<nat>) {
    && (|reserved| == 1 ==> Sum(reserved) <= FIRST_BUDGET)
    && (|reserved| > 1 ==> Sum(reserved) <= WINDOW_BUDGET)
  }

  /** Reads one record if it fits beside those already taken. */
  method Take<T>(store: StoreContext<T>, c: Cells<T>, text: T -> nat, position: nat, first: bool, retained: nat)
    returns (error: Option<QueryError>, value: Option<T>, bytes: nat)
    requires store.Valid() && Good(c, store.Now(), store.size) && position < Length(c)
    modifies store`failure
    ensures error.None? && value.Some? ==> value.value == View(c, store.Now(), store.size)[position]
    ensures error.None? && value.Some? ==> IsEstimate(store.size, text, value.value, bytes)
    ensures error.None? && value.Some? ==> retained + bytes <= if first then FIRST_BUDGET else WINDOW_BUDGET
    ensures error.None? && value.None? ==> !first
    ensures error.Some? ==> error.value.StorageUnavailable? || (error.value.CollectionBudget? && first)
  {
    error, value, bytes := None, None, 0;
    var answered, reservation := EstimatedSize(store, c, text, position);
    bytes := reservation;
    var available: bool := *;
    if !answered {
      error := Some(StorageUnavailable);
    } else if retained + reservation > (if first then FIRST_BUDGET else WINDOW_BUDGET) || !available {
      error := if first then Some(CollectionBudget) else None;
    } else {
      value := ReadAt(store, c, position);
      error := if value.None? then Some(StorageUnavailable) else None;
    }
  }

  /** Reads the records at some positions, as many as the budget and the memory allow. */
  method TakeAll<T>(store: StoreContext<T>, c: Cells<T>, text: T -> nat, positions: seq<nat>)
    returns (error: Option<QueryError>, items: seq<T>, ghost reserved: seq<nat>)
    requires store.Valid() && Good(c, store.Now(), store.size)
    requires forall k :: 0 <= k < |positions| ==> positions[k] < Length(c)
    modifies store`failure
    ensures error.None? ==>
      && |items| <= |positions| && (positions != [] ==> items != [])
      && (forall k :: 0 <= k < |items| ==> items[k] == View(c, store.Now(), store.size)[positions[k]])
      && Estimates(store.size, text, items, reserved) && WithinBudget(reserved)
    ensures error.Some? ==> error.value.StorageUnavailable? || error.value.CollectionBudget?
  {
    ghost var v := View(c, store.Now(), store.size);
    hide Good, View, IsEstimate;
    error, items, reserved := None, [], [];
    var retained, full := 0, false;
    while error.None? && !full && |items| < |positions|
      invariant |items| <= |positions| && store.Now() == old(store.Now())
      invariant full ==> items != []
      invariant forall k :: 0 <= k < |items| ==> items[k] == v[positions[k]]
      invariant Estimates(store.size, text, items, reserved) && retained == Sum(reserved) && WithinBudget(reserved)
      invariant error.Some? ==> error.value.StorageUnavailable? || error.value.CollectionBudget?
      decreases error.None?, !full, |positions| - |items|
    {
      var value, bytes;
      error, value, bytes := Take(store, c, text, positions[|items|], items == [], retained);
      if error.None? && value.Some? {
        ghost var more := reserved + [bytes];
        assert more[..|reserved|] == reserved;
        items, reserved, retained := items + [value.value], more, retained + bytes;
      } else {
        full := error.None?;
      }
    }
  }

  /** Reads a window of a collection of a published revision. */
  method CollectionQuery<T>(store: StoreContext<T>, collection: Option<Cells<T>>, tags: Tags<T>, text: T -> nat,
      pages: nat, intact: bool, published: set<nat>, revision: nat, page: Option<nat>, offset: nat, limit: nat)
    returns (error: Option<QueryError>, batch: Batch<T>, ghost reserved: seq<nat>)
    requires store.Valid() && (collection.Some? ==> Good(collection.value, store.Now(), store.size))
    modifies store`failure
    ensures error == Some(InvalidCollectionRange) <==> limit == 0 || limit > MAX_ITEMS
    ensures error == Some(Invalidated) <==> 0 < limit <= MAX_ITEMS && !intact
    ensures error == Some(RevisionUnavailable) <==> 0 < limit <= MAX_ITEMS && intact && revision !in published
    ensures error == Some(EntityUnavailable) <==>
      0 < limit <= MAX_ITEMS && intact && revision in published && page.Some? && (page.value == 0 || page.value > pages)
    ensures error.None? && collection.Some? ==>
      && IsWindow(Selected(View(collection.value, store.Now(), store.size), tags, page), offset, limit, batch)
      && Estimates(store.size, text, batch.items, reserved) && WithinBudget(reserved)
    ensures error.None? && collection.None? ==> batch == Batch(offset, 0, [], None)
    ensures error.None? ==> store.failure.Working?
  {
    batch, reserved := Batch(offset, 0, [], None), [];
    if limit == 0 || limit > MAX_ITEMS {
      error := Some(InvalidCollectionRange);
    } else if !intact {
      error := Some(Invalidated);
    } else if revision !in published {
      error := Some(RevisionUnavailable);
    } else if page.Some? && (page.value == 0 || page.value > pages) {
      error := Some(EntityUnavailable);
    } else {
      error := None;
      if collection.Some? {
        error, batch, reserved := ReadWindow(store, collection.value, tags, text, page, offset, limit);
      }
      if error.None? && !store.failure.Working? {
        error := Some(StorageUnavailable);
      }
    }
  }

  method ReadWindow<T>(store: StoreContext<T>, c: Cells<T>, tags: Tags<T>, text: T -> nat, page: Option<nat>, offset: nat, limit: nat)
    returns (error: Option<QueryError>, batch: Batch<T>, ghost reserved: seq<nat>)
    requires store.Valid() && Good(c, store.Now(), store.size) && limit > 0
    modifies store`failure
    ensures error.None? ==>
      && IsWindow(Selected(View(c, store.Now(), store.size), tags, page), offset, limit, batch)
      && Estimates(store.size, text, batch.items, reserved) && WithinBudget(reserved)
    ensures error.Some? ==> error.value.StorageUnavailable? || error.value.CollectionBudget?
  {
    ghost var v := View(c, store.Now(), store.size);
    ghost var records := Selected(v, tags, page);
    hide Good, View, Selected, Estimates, WithinBudget, IsWindow;
    error, batch, reserved := Some(StorageUnavailable), Batch(offset, 0, [], None), [];
    var answered, total := TotalOf(store, c, tags, page);
    if !answered {
      return;
    }
    var end := if offset + limit < total then offset + limit else total;
    var located, positions := PositionsOf(store, c, tags, page, offset, end);
    if !located {
      return;
    }
    var items;
    error, items, reserved := TakeAll(store, c, text, positions);
    var next := offset + |items|;
    batch := Batch(offset, total, items, if next < total && next > offset then Some(next) else None);
    if error.None? {
      TakenFromOffset(v, tags, page, offset, limit, end, positions, batch);
    }
  }

  lemma TakenFromOffset<T>(v: seq<T>, tags: Tags<T>, page: Option<nat>, offset: nat, limit: nat, end: nat, positions: seq<nat>, b: Batch<T>)
    requires b.offset == offset && b.total == |Selected(v, tags, page)| && limit > 0
    requires end == (if offset + limit < b.total then offset + limit else b.total)
    requires Locates(v, tags, page, offset, end, positions)
    requires |b.items| <= |positions| && (positions != [] ==> b.items != [])
    requires forall k :: 0 <= k < |b.items| ==> b.items[k] == v[positions[k]]
    requires b.next == if offset + |b.items| < b.total && b.items != [] then Some(offset + |b.items|) else None
    ensures IsWindow(Selected(v, tags, page), offset, limit, b)
  {
    hide Selected;
    assert b.items == Slice(Selected(v, tags, page), offset, |b.items|);
  }
}
