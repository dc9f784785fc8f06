/** Page queries: finding the records of a work sequence that touch a page through the stored
    source and target indexes, without reading the others. */
module PageIndex {
  import opened Wrappers
  import opened Store
  import opened SpillingSequence

  /** The pages a record is indexed by: its source and its target. */
  type Tags<!T> = T -> (Option<nat>, Option<nat>)

  predicate Touches<T>(tags: Tags<T>, page: nat, value: T) {
    tags(value).0 == Some(page) || tags(value).1 == Some(page)
  }

  // ---------------------------------------------------------------- what a scan would find

  /** The positions of the records that touch the page, in order. */
  function Touching<T>(v: seq<T>, tags: Tags<T>, page: nat): (r: seq<nat>)
    ensures forall k :: 0 <= k < |r| ==> r[k] < |v| && Touches(tags, page, v[r[k]])
  {
    if v == [] then []
    else
      var last := |v| - 1;
      Touching(v[..last], tags, page) + (if Touches(tags, page, v[last]) then [last] else [])
  }

  lemma {:induction false} TouchingAll<T>(v: seq<T>, tags: Tags<T>, page: nat, p: nat)
    requires p < |v| && Touches(tags, page, v[p])
    ensures p in Touching(v, tags, page)
  {
    if p < |v| - 1 {
      TouchingAll(v[..|v| - 1], tags, page, p);
    }
  }

  predicate Ascending(s: seq<nat>) {
    forall i, j :: 0 <= i < j < |s| ==> s[i] < s[j]
  }

  lemma {:induction false} TouchingAscends<T>(v: seq<T>, tags: Tags<T>, page: nat)
    ensures Ascending(Touching(v, tags, page))
  {
    if v != [] {
      var last := |v| - 1;
      TouchingAscends(v[..last], tags, page);
      var rest := Touching(v[..last], tags, page);
      assert Ascending(rest);
      assert Ascending(rest + [last]);
    }
  }

  lemma {:induction false} TouchingPrefix<T>(v: seq<T>, tags: Tags<T>, page: nat, n: nat)
    requires n <= |v|
    ensures Touching(v[..n], tags, page) <= Touching(v, tags, page)
  {
    if n < |v| {
      TouchingPrefix(v[..|v| - 1], tags, page, n);
      assert v[..|v| - 1][..n] == v[..n];
    } else {
      assert v[..n] == v;
    }
  }

  lemma {:induction false} TouchingJoined<T>(a: seq<T>, b: seq<T>, tags: Tags<T>, page: nat)
    ensures |Touching(a + b, tags, page)| == |Touching(a, tags, page)| + |Touching(b, tags, page)|
  {
    if b == [] {
      assert a + b == a;
    } else {
      TouchingJoined(a, b[..|b| - 1], tags, page);
      assert (a + b)[..|a + b| - 1] == a + b[..|b| - 1];
    }
  }

  /** The first touching position at or after `start`, if there is one. */
  ghost predicate IsFirst<T>(v: seq<T>, tags: Tags<T>, page: nat, start: nat, r: Option<nat>) {
    && (r.Some? ==> start <= r.value < |v| && Touches(tags, page, v[r.value]))
    && (forall p :: start <= p < (if r.Some? then r.value else |v|) ==> !Touches(tags, page, v[p]))
  }

  lemma FirstLeft<T>(a: seq<T>, b: seq<T>, tags: Tags<T>, page: nat, start: nat, r: Option<nat>)
    requires IsFirst(a, tags, page, start, r) && r.Some?
    ensures IsFirst(a + b, tags, page, start, r)
  {
  }

  lemma FirstRight<T>(a: seq<T>, b: seq<T>, tags: Tags<T>, page: nat, start: nat, r: Option<nat>)
    requires IsFirst(a, tags, page, start, None)
    requires IsFirst(b, tags, page, if start < |a| then 0 else start - |a|, r)
    ensures IsFirst(a + b, tags, page, start, if r.Some? then Some(|a| + r.value) else None)
  {
    var whole, end := a + b, if r.Some? then |a| + r.value else |a + b|;
    forall p | start <= p < end
      ensures !Touches(tags, page, whole[p])
    {
      assert p >= |a| ==> whole[p] == b[p - |a|];
    }
  }

  /** The list of touching positions grows by exactly the position found. */
  lemma {:induction false} FoundIsNext<T>(v: seq<T>, tags: Tags<T>, page: nat, start: nat, r: Option<nat>)
    requires start <= |v| && IsFirst(v, tags, page, start, r)
    ensures r.Some? ==> Touching(v[..r.value + 1], tags, page) == Touching(v[..start], tags, page) + [r.value]
    ensures r.None? ==> Touching(v, tags, page) == Touching(v[..start], tags, page)
  {
    var end := if r.Some? then r.value else |v|;
    NoneBetween(v, tags, page, start, end);
    if r.Some? {
      assert v[..end + 1][..end] == v[..end];
    } else {
      assert v[..end] == v;
    }
  }

  lemma {:induction false} NoneBetween<T>(v: seq<T>, tags: Tags<T>, page: nat, start: nat, end: nat)
    requires start <= end <= |v| && forall p :: start <= p < end ==> !Touches(tags, page, v[p])
    ensures Touching(v[..end], tags, page) == Touching(v[..start], tags, page)
    decreases end
  {
    if start < end {
      NoneBetween(v, tags, page, start, end - 1);
      assert v[..end][..end - 1] == v[..end - 1];
    }
  }

  // ---------------------------------------------------------------- one sequence's own part

  /** The least of some positions from `start` on: an ordered range of the cache, or
      the minimum over an index of the table. */
  method FirstIn(start: nat, n: nat, keys: set<nat>) returns (r: Option<nat>)
    ensures r.Some? ==> start <= r.value < n && r.value in keys
    ensures forall p :: start <= p < (if r.Some? then r.value else n) ==> p !in keys
  {
    var p := start;
    while p < n && p !in keys
      invariant start <= p && (p <= n || p == start)
      invariant forall q :: start <= q < p ==> q !in keys
    {
      p := p + 1;
    }
    r := if p < n then Some(p) else None;
  }

  function Earlier(a: Option<nat>, b: Option<nat>): Option<nat> {
    if a.None? || (b.Some? && b.value < a.value) then b else a
  }

  /** No record of the sequence's own part before `end` touches the page, when none of the
      three sources answers an earlier position. */
  lemma LeastIsFirst<T>(c: Cells<T>, h: Held<T>, size: T -> nat, tags: Tags<T>, page: nat, start: nat, r: Option<nat>)
    requires LocalGood(c, h, size) && (r.Some? ==> start <= r.value < c.length)
    requires var end := if r.Some? then r.value else c.length;
      forall p: nat :: start <= p < end ==> !InCache(c, tags, page, p) && !OnDisk(c, h, tags, page, p)
    requires r.Some? ==> InCache(c, tags, page, r.value) || OnDisk(c, h, tags, page, r.value)
    ensures IsFirst(LocalView(c, h, size), tags, page, start, r)
  {
    var v := LocalView(c, h, size);
    forall p: nat | p < c.length
      ensures Touches(tags, page, v[p]) <==> InCache(c, tags, page, p) || OnDisk(c, h, tags, page, p)
    {
    }
  }

  predicate InCache<T>(c: Cells<T>, tags: Tags<T>, page: nat, p: nat) {
    p in c.memory && Touches(tags, page, c.memory[p])
  }

  predicate OnDisk<T>(c: Cells<T>, h: Held<T>, tags: Tags<T>, page: nat, p: nat) {
    (c.collection, p) in h.records && Touches(tags, page, h.records[(c.collection, p)])
  }

  /** The first touching position in the sequence's own part: the least of what the cache, the
      source index and the target index answer. */
  method LocalPosition<T>(store: StoreContext<T>, c: Cells<T>, tags: Tags<T>, page: nat, start: nat)
    returns (answered: bool, r: Option<nat>)
    requires LocalGood(c, store.Now(), store.size)
    ensures answered ==> IsFirst(LocalView(c, store.Now(), store.size), tags, page, start, r)
  {
    var inMemory := set p: nat | p < c.length && InCache(c, tags, page, p);
    assert forall p: nat {:trigger InCache(c, tags, page, p)} :: p < c.length ==> (p in inMemory <==> InCache(c, tags, page, p));
    r := FirstIn(start, c.length, inMemory);
    answered := true;
    if c.spilled {
      var error := store.DiskAnswers();
      answered := error.Working?;
      var bySource, byTarget := SourceKeys(store.records, c.collection, c.length, tags, page), TargetKeys(store.records, c.collection, c.length, tags, page);
      var source := FirstIn(start, c.length, bySource);
      var target := FirstIn(start, c.length, byTarget);
      r := Earlier(Earlier(r, source), target);
      forall p: nat | p < c.length
        ensures OnDisk(c, store.Now(), tags, page, p) <==> p in bySource || p in byTarget
      {
      }
    } else {
      forall p: nat
        ensures !OnDisk(c, store.Now(), tags, page, p)
      {
      }
    }
    if answered {
      LeastIsFirst(c, store.Now(), store.size, tags, page, start, r);
    }
  }

  /** The positions of a collection's stored records with this source page, and with this
      target page: what the two indexes of the table answer. */
  function SourceKeys<T>(records: map<(nat, nat), T>, key: nat, n: nat, tags: Tags<T>, page: nat): set<nat> {
    set p: nat | p < n && (key, p) in records && tags(records[(key, p)]).0 == Some(page)
  }

  function TargetKeys<T>(records: map<(nat, nat), T>, key: nat, n: nat, tags: Tags<T>, page: nat): set<nat> {
    set p: nat | p < n && (key, p) in records && tags(records[(key, p)]).1 == Some(page)
  }

  ghost function Count(n: nat, f: nat -> bool): nat {
    if n == 0 then 0 else Count(n - 1, f) + if f(n - 1) then 1 else 0
  }

  method CountWhere(n: nat, f: nat -> bool) returns (count: nat)
    ensures count == Count(n, f)
  {
    count := 0;
    for p: nat := 0 to n
      invariant count == Count(p, f)
    {
      if f(p) {
        count := count + 1;
      }
    }
  }

  /** A position that touches is counted in exactly one of three disjoint places. */
  lemma {:induction false} CountsAdd<T>(v: seq<T>, tags: Tags<T>, page: nat, n: nat, f: nat -> bool, g: nat -> bool, h: nat -> bool)
    requires n <= |v|
    requires forall p: nat :: p < n ==> (Touches(tags, page, v[p]) <==> f(p) || g(p) || h(p))
    requires forall p: nat :: p < n ==> !(f(p) && g(p)) && !(f(p) && h(p)) && !(g(p) && h(p))
    ensures |Touching(v[..n], tags, page)| == Count(n, f) + Count(n, g) + Count(n, h)
  {
    if n > 0 {
      CountsAdd(v, tags, page, n - 1, f, g, h);
      assert v[..n][..n - 1] == v[..n - 1];
    }
  }

  /** How many records of the sequence's own part touch the page: those in the cache, those on
      disk by source, and those on disk by target that have another source. */
  method LocalCount<T>(store: StoreContext<T>, c: Cells<T>, tags: Tags<T>, page: nat) returns (answered: bool, count: nat)
    requires LocalGood(c, store.Now(), store.size)
    ensures answered ==> count == |Touching(LocalView(c, store.Now(), store.size), tags, page)|
  {
    var memory, records, key, n := c.memory, store.records, c.collection, c.length;
    var inMemory := p => p in memory && Touches(tags, page, memory[p]);
    var bySource := p => (key, p) in records && tags(records[(key, p)]).0 == Some(page);
    var byTarget := p => (key, p) in records && tags(records[(key, p)]).1 == Some(page) && tags(records[(key, p)]).0 != Some(page);
    count := CountWhere(n, inMemory);
    answered := true;
    var source, target := 0, 0;
    if c.spilled {
      var error := store.DiskAnswers();
      answered := error.Working?;
      source := CountWhere(n, bySource);
      target := CountWhere(n, byTarget);
    } else {
      NoneCounted(n, bySource);
      NoneCounted(n, byTarget);
    }
    ghost var v := LocalView(c, store.Now(), store.size);
    CountsAdd(v, tags, page, n, inMemory, bySource, byTarget);
    assert v[..n] == v;
    count := count + (source + target);
  }

  lemma {:induction false} NoneCounted(n: nat, f: nat -> bool)
    requires forall p: nat :: p < n ==> !f(p)
    ensures Count(n, f) == 0
  {
    if n > 0 {
      NoneCounted(n - 1, f);
    }
  }

  // ---------------------------------------------------------------- through the segments

  lemma NotEmpty<T>(cs: seq<Cells<T>>)
    ensures Lengths(cs) > 0 ==> cs != []
  {
  }

  /** A sequence is its own part and then its segments. */
  lemma Parts<T>(c: Cells<T>, h: Held<T>, size: T -> nat)
    requires Good(c, h, size)
    ensures LocalGood(c, h, size) && AllGood(c.segments, h, size)
    ensures Length(c) == c.length + Lengths(c.segments)
    ensures View(c, h, size) == LocalView(c, h, size) + Views(c.segments, h, size)
  {
  }

  /** The segments up to the `k`th, the `k`th and the rest. */
  lemma SegmentView<T>(cs: seq<Cells<T>>, h: Held<T>, size: T -> nat, k: nat)
    requires AllGood(cs, h, size) && k < |cs|
    ensures AllGood(cs[..k], h, size) && Good(cs[k], h, size) && AllGood(cs[..k + 1], h, size) && AllGood(cs[k + 1..], h, size)
    ensures Views(cs[..k + 1], h, size) == Views(cs[..k], h, size) + View(cs[k], h, size)
    ensures Views(cs, h, size) == Views(cs[..k + 1], h, size) + Views(cs[k + 1..], h, size)
  {
    assert cs == cs[..k + 1] + cs[k + 1..];
    SplitSegments(cs[..k + 1], cs[k + 1..], h, size);
    assert cs[..k + 1][..k] == cs[..k];
  }

  /** What is known after the segments before the `k`th: what they and the sequence's own part
      hold. */
  ghost function Before<T>(c: Cells<T>, h: Held<T>, size: T -> nat, k: nat): (v: seq<T>)
    requires Good(c, h, size) && k <= |c.segments| && AllGood(c.segments[..k], h, size)
  {
    LocalView(c, h, size) + Views(c.segments[..k], h, size)
  }

  lemma BeforeNone<T>(c: Cells<T>, h: Held<T>, size: T -> nat)
    requires Good(c, h, size)
    ensures AllGood(c.segments[..0], h, size) && Before(c, h, size, 0) == LocalView(c, h, size)
    ensures var n := |c.segments|; AllGood(c.segments[..n], h, size) && Before(c, h, size, n) == View(c, h, size)
  {
    assert c.segments[..0] == [] && c.segments[..|c.segments|] == c.segments;
    assert Views<T>([], h, size) == [];
  }

  lemma BeforeNext<T>(c: Cells<T>, h: Held<T>, size: T -> nat, k: nat)
    requires Good(c, h, size) && k < |c.segments|
    ensures AllGood(c.segments[..k], h, size) && AllGood(c.segments[..k + 1], h, size) && Good(c.segments[k], h, size)
    ensures AllGood(c.segments[k + 1..], h, size)
    ensures Before(c, h, size, k + 1) == Before(c, h, size, k) + View(c.segments[k], h, size)
    ensures View(c, h, size) == Before(c, h, size, k + 1) + Views(c.segments[k + 1..], h, size)
  {
    hide LocalGood, LocalView, AllGood, Views, Collections, CollectionsOf;
    SegmentView(c.segments, h, size, k);
  }

  /** The first position at or after `start` that touches the page, in sequence order. */
  method PagePosition<T>(store: StoreContext<T>, c: Cells<T>, tags: Tags<T>, page: nat, start: nat)
    returns (answered: bool, r: Option<nat>)
    requires Good(c, store.Now(), store.size)
    ensures answered ==> IsFirst(View(c, store.Now(), store.size), tags, page, start, r)
    decreases c
  {
    ghost var h := store.Now();
    assert LocalGood(c, h, store.size);
    BeforeNone(c, h, store.size);
    hide Good, LocalGood, AllGood, View, Views, LocalView, Before;
    answered, r := store.failure.Working?, None;
    if answered && start < c.length {
      answered, r := LocalPosition(store, c, tags, page, start);
      if answered && r.Some? {
        WithinView(c, h, store.size, tags, page, start, r);
        return;
      }
    }
    if !answered {
      return;
    }
    assert IsFirst(Before(c, h, store.size, 0), tags, page, start, None);
    var base, k := c.length, 0;
    while k < |c.segments|
      invariant k <= |c.segments| && AllGood(c.segments[..k], h, store.size)
      invariant base == |Before(c, h, store.size, k)|
      invariant IsFirst(Before(c, h, store.size, k), tags, page, start, None)
    {
      BeforeNext(c, h, store.size, k);
      var segment := c.segments[k];
      ghost var from, before, view := if start < base then 0 else start - base, Before(c, h, store.size, k), View(segment, h, store.size);
      r := None;
      if start < base + Length(segment) {
        answered, r := PagePosition(store, segment, tags, page, if start < base then 0 else start - base);
        if !answered {
          return;
        }
      }
      FirstRight(before, view, tags, page, start, r);
      if r.Some? {
        r := Some(base + r.value);
        FirstLeft(before + view, Views(c.segments[k + 1..], h, store.size), tags, page, start, r);
        return;
      }
      base, k := base + Length(segment), k + 1;
    }
    r := None;
  }

  lemma WithinView<T>(c: Cells<T>, h: Held<T>, size: T -> nat, tags: Tags<T>, page: nat, start: nat, r: Option<nat>)
    requires Good(c, h, size) && IsFirst(LocalView(c, h, size), tags, page, start, r) && r.Some?
    ensures IsFirst(View(c, h, size), tags, page, start, r)
  {
    hide LocalView, IsFirst;
    FirstLeft(LocalView(c, h, size), Views(c.segments, h, size), tags, page, start, r);
  }

  /** How many records touch the page. */
  method PageCount<T>(store: StoreContext<T>, c: Cells<T>, tags: Tags<T>, page: nat) returns (answered: bool, count: nat)
    requires Good(c, store.Now(), store.size)
    ensures answered ==> count == |Touching(View(c, store.Now(), store.size), tags, page)|
    decreases c
  {
    ghost var h := store.Now();
    assert LocalGood(c, h, store.size);
    BeforeNone(c, h, store.size);
    hide Good, LocalGood, AllGood, View, Views, LocalView, Before, Touching;
    answered, count := store.failure.Working?, 0;
    if answered {
      answered, count := LocalCount(store, c, tags, page);
    }
    var k := 0;
    while answered && k < |c.segments|
      invariant k <= |c.segments| && AllGood(c.segments[..k], h, store.size)
      invariant answered ==> count == |Touching(Before(c, h, store.size, k), tags, page)|
      decreases |c.segments| - k
    {
      BeforeNext(c, h, store.size, k);
      var more;
      answered, more := PageCount(store, c.segments[k], tags, page);
      TouchingJoined(Before(c, h, store.size, k), View(c.segments[k], h, store.size), tags, page);
      count, k := count + more, k + 1;
    }
  }

  /** Up to `limit` elements from `offset` on. */
  function Slice<U>(s: seq<U>, offset: nat, limit: nat): seq<U> {
    if offset >= |s| then []
    else if offset + limit > |s| then s[offset..]
    else s[offset..offset + limit]
  }

  /** A slice of the ordered positions of the records that touch the page. */
  method PagePositions<T>(store: StoreContext<T>, c: Cells<T>, tags: Tags<T>, page: nat, offset: nat, limit: nat)
    returns (answered: bool, positions: seq<nat>)
    requires Good(c, store.Now(), store.size)
    ensures answered ==> positions == Slice(Touching(View(c, store.Now(), store.size), tags, page), offset, limit)
  {
    ghost var v := View(c, store.Now(), store.size);
    ghost var all := Touching(v, tags, page);
    assert Touching(v[..0], tags, page) == [] && Slice<nat>([], offset, limit) == [] && (limit == 0 ==> Slice(all, offset, limit) == []);
    hide Touching, View, Good, IsFirst, Slice;
    answered, positions := true, [];
    if limit == 0 {
      return;
    }
    var start: nat, index: nat := 0, 0;
    while index < offset + limit
      invariant start <= |v| && index <= offset + limit
      invariant |Touching(v[..start], tags, page)| == index
      invariant positions == Slice(Touching(v[..start], tags, page), offset, limit)
      decreases offset + limit - index
    {
      var r;
      answered, r := PagePosition(store, c, tags, page, start);
      if !answered {
        return;
      }
      FoundIsNext(v, tags, page, start, r);
      if r.None? {
        return;
      }
      Found(v, tags, page, start, r.value);
      SlicePush(Touching(v[..start], tags, page), r.value, offset, limit);
      if index >= offset {
        positions := positions + [r.value];
      }
      start, index := r.value + 1, index + 1;
    }
    TouchingPrefix(v, tags, page, start);
    SliceOfPrefix(Touching(v[..start], tags, page), all, offset, limit);
  }

  lemma SlicePush(s: seq<nat>, x: nat, offset: nat, limit: nat)
    requires |s| < offset + limit
    ensures Slice(s + [x], offset, limit) == if |s| >= offset then Slice(s, offset, limit) + [x] else Slice(s, offset, limit)
  {
  }

  lemma SliceOfPrefix(s: seq<nat>, all: seq<nat>, offset: nat, limit: nat)
    requires s <= all && |s| == offset + limit && limit > 0
    ensures Slice(s, offset, limit) == Slice(all, offset, limit)
  {
    assert all[..|s|] == s;
  }

  lemma Found<T>(v: seq<T>, tags: Tags<T>, page: nat, start: nat, position: nat)
    requires IsFirst(v, tags, page, start, Some(position))
    ensures position < |v|
  {
  }
}
