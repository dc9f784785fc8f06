/** Reading schema attribution in windows: the declarations of a page, and the pages of a
    declaration. */
module SchemaQueries {
  import opened Wrappers
  import opened Schema

  const MAX_LIMIT: nat := 256

  /** The second halves of the pairs that belong to `owner`, from `from` on, in ascending
      order. */
  ghost predicate Listing(pairs: set<(nat, nat)>, owner: nat, from: nat, list: seq<nat>) {
    && (forall k :: 0 <= k < |list| ==> (owner, list[k]) in pairs && list[k] >= from)
    && (forall a, b :: 0 <= a < b < |list| ==> list[a] < list[b])
    && (forall m :: m in pairs && m.0 == owner && m.1 >= from ==> m.1 in list)
  }

  /** The positions of the declarations shown for a page. */
  ghost predicate ShownList(objects: seq<Object>, attributions: set<(nat, nat)>, page: nat, list: seq<nat>) {
    && (forall position: nat :: position in list <==> ShownFor(objects, attributions, page, position))
    && (forall a, b :: 0 <= a < b < |list| ==> list[a] < list[b])
  }

  /** The pages shown for a declaration. */
  ghost predicate PageList(members: set<(nat, nat)>, o: Object, list: seq<nat>) {
    && (forall page :: page in list <==> page in AttributedPages(members, o))
    && (forall a, b :: 0 <= a < b < |list| ==> list[a] < list[b])
  }

  /** The items from `offset` on, at most `limit` of them. */
  function Window(list: seq<nat>, offset: nat, limit: nat): seq<nat> {
    if offset >= |list| then []
    else if offset + limit >= |list| then list[offset..]
    else list[offset..offset + limit]
  }

  datatype Batch = Batch(items: seq<nat>, total: nat, next: Option<nat>)

  /** A batch shows a window of the list, its length, and where to go on. */
  ghost predicate Shows(list: seq<nat>, offset: nat, limit: nat, b: Batch) {
    && b.total == |list| && b.items == Window(list, offset, limit)
    && (b.next.Some? <==> offset + limit < |list|)
    && (b.next.Some? ==> b.next.value == offset + limit)
  }

  lemma WindowStep(list: seq<nat>, offset: nat, limit: nat, x: nat)
    requires limit > 0
    ensures Window(list + [x], offset, limit)
         == if |list| >= offset && |Window(list, offset, limit)| < limit then Window(list, offset, limit) + [x] else Window(list, offset, limit)
  {
    var longer := list + [x];
    if offset <= |list| {
      assert longer[offset..] == list[offset..] + [x];
      if offset + limit <= |list| {
        assert longer[offset..offset + limit] == list[offset..offset + limit];
      }
    }
  }

  ghost predicate NextFrom(pairs: set<(nat, nat)>, owner: nat, from: nat, next: Option<nat>) {
    && (next.Some? ==> (owner, next.value) in pairs && next.value >= from)
    && (next.Some? ==> forall m :: m in pairs && m.0 == owner && m.1 >= from ==> next.value <= m.1)
    && (next.None? ==> forall m :: m in pairs && m.0 == owner ==> m.1 < from)
  }

  /** The least entry of an owner from `from` on. */
  method ReadNext(pairs: set<(nat, nat)>, owner: nat, from: nat) returns (next: Option<nat>)
    ensures NextFrom(pairs, owner, from, next)
  {
    var rest := set m | m in pairs && m.0 == owner && m.1 >= from :: m.1;
    next := None;
    if rest != {} {
      ghost var least := Least(rest);
      var chosen: nat :| chosen in rest && forall other :: other in rest ==> chosen <= other;
      next := Some(chosen);
      assert exists m :: m in pairs && m.0 == owner && m.1 >= from && m.1 == chosen;
    }
    forall m | m in pairs && m.0 == owner && m.1 >= from
      ensures m.1 in rest
    {
    }
  }

  ghost function RemainingFrom(pairs: set<(nat, nat)>, from: nat): set<(nat, nat)> {
    set m | m in pairs && m.1 >= from
  }

  lemma FewerFrom(pairs: set<(nat, nat)>, owner: nat, from: nat, next: nat)
    requires (owner, next) in pairs && next >= from
    ensures |RemainingFrom(pairs, next + 1)| < |RemainingFrom(pairs, from)|
  {
    assert (owner, next) in RemainingFrom(pairs, from) && (owner, next) !in RemainingFrom(pairs, next + 1);
    Smaller(RemainingFrom(pairs, next + 1), RemainingFrom(pairs, from), (owner, next));
  }

  /** Entries below `from` have been looked at. */
  ghost predicate ShownBelow(objects: seq<Object>, attributions: set<(nat, nat)>, page: nat, from: nat, list: seq<nat>) {
    && (forall position: nat :: position in list <==> position < from && ShownFor(objects, attributions, page, position))
    && (forall a, b :: 0 <= a < b < |list| ==> list[a] < list[b])
  }

  lemma ShownStep(objects: seq<Object>, attributions: set<(nat, nat)>, page: nat, from: nat, next: nat, list: seq<nat>)
    requires ShownBelow(objects, attributions, page, from, list) && NextFrom(attributions, page, from, Some(next))
    ensures ShownFor(objects, attributions, page, next) ==> ShownBelow(objects, attributions, page, next + 1, list + [next])
    ensures !ShownFor(objects, attributions, page, next) ==> ShownBelow(objects, attributions, page, next + 1, list)
  {
    forall position: nat | ShownFor(objects, attributions, page, position) && position < next + 1
      ensures position < from || position == next
    {
      assert (page, position) in attributions;
      assert position >= from ==> next <= (page, position).1;
    }
    forall k | 0 <= k < |list|
      ensures list[k] < from
    {
      assert list[k] in list;
    }
  }

  /** The declarations of a page. Entries that a stopped update left past a declaration's
      boundary are passed over. */
  method PageSchema(objects: seq<Object>, attributions: set<(nat, nat)>, page: nat, offset: nat, limit: nat)
    returns (answered: bool, batch: Batch, ghost list: seq<nat>)
    requires forall a :: a in attributions ==> a.1 < |objects|
    ensures answered ==> 0 < limit <= MAX_LIMIT
    ensures answered ==> ShownList(objects, attributions, page, list) && Shows(list, offset, limit, batch)
  {
    list, batch, answered := [], Batch([], 0, None), false;
    if limit == 0 || limit > MAX_LIMIT {
      return;
    }
    var items, total, from := [], 0, 0;
    var next := ReadNext(attributions, page, 0);
    while next.Some?
      invariant NextFrom(attributions, page, from, next) && ShownBelow(objects, attributions, page, from, list)
      invariant total == |list| && items == Window(list, offset, limit)
      decreases |RemainingFrom(attributions, from)|
    {
      var position := next.value;
      var admitted: bool := *;
      if !admitted {
        return;
      }
      var o := objects[position];
      ShownStep(objects, attributions, page, from, position, list);
      FewerFrom(attributions, page, from, position);
      if o.root.Some? && o.through.Some? && page <= o.through.value {
        WindowStep(list, offset, limit, position);
        if total >= offset && |items| < limit {
          items := items + [position];
        }
        total := total + 1;
        list := list + [position];
      }
      from := position + 1;
      next := ReadNext(attributions, page, from);
    }
    forall position: nat | ShownFor(objects, attributions, page, position)
      ensures position < from
    {
      assert (page, position).1 < from;
    }
    var end := offset + |items|;
    batch := Batch(items, total, if end < total && end > offset then Some(end) else None);
    answered := true;
  }

  ghost predicate PagesBelow(members: set<(nat, nat)>, root: nat, through: nat, from: nat, list: seq<nat>) {
    && (forall page :: page in list <==> 0 < page < from && page <= through && (root, page) in members)
    && (forall a, b :: 0 <= a < b < |list| ==> list[a] < list[b])
  }

  lemma PagesStep(members: set<(nat, nat)>, root: nat, through: nat, from: nat, next: nat, list: seq<nat>)
    requires PagesBelow(members, root, through, from, list) && NextFrom(members, root, from, Some(next)) && from > 0 && next <= through
    ensures PagesBelow(members, root, through, next + 1, list + [next])
  {
    forall page | (root, page) in members && 0 < page < next + 1
      ensures page < from || page == next
    {
      assert page >= from ==> next <= (root, page).1;
    }
    forall k | 0 <= k < |list|
      ensures list[k] < from
    {
      assert list[k] in list;
    }
  }

  /** The pages of a declaration, up to its accepted boundary. */
  method SchemaPages(members: set<(nat, nat)>, o: Object, offset: nat, limit: nat)
    returns (answered: bool, batch: Batch, ghost list: seq<nat>)
    requires o.root.None? ==> o.through.None?
    ensures answered ==> 0 < limit <= MAX_LIMIT
    ensures answered ==> PageList(members, o, list) && Shows(list, offset, limit, batch)
  {
    list, batch, answered := [], Batch([], 0, None), false;
    if limit == 0 || limit > MAX_LIMIT {
      return;
    }
    var admitted: bool := *;
    if !admitted {
      return;
    }
    var root, through := o.root.GetOr(0), o.through.GetOr(0);
    var items, total, from := [], 0, 1;
    var next := ReadNext(members, root, 1);
    while next.Some? && next.value <= through
      invariant from > 0 && NextFrom(members, root, from, next) && PagesBelow(members, root, through, from, list)
      invariant total == |list| && items == Window(list, offset, limit)
      decreases |RemainingFrom(members, from)|
    {
      var page := next.value;
      PagesStep(members, root, through, from, page, list);
      FewerFrom(members, root, from, page);
      WindowStep(list, offset, limit, page);
      if total >= offset && |items| < limit {
        items := items + [page];
      }
      total := total + 1;
      list := list + [page];
      from := page + 1;
      next := ReadNext(members, root, from);
    }
    AllPagesListed(members, o, from, next, list);
    var end := offset + |items|;
    batch := Batch(items, total, if end < total && end > offset then Some(end) else None);
    answered := true;
  }

  lemma AllPagesListed(members: set<(nat, nat)>, o: Object, from: nat, next: Option<nat>, list: seq<nat>)
    requires o.root.None? ==> o.through.None?
    requires NextFrom(members, o.root.GetOr(0), from, next) && PagesBelow(members, o.root.GetOr(0), o.through.GetOr(0), from, list)
    requires next.Some? ==> next.value > o.through.GetOr(0)
    ensures PageList(members, o, list)
  {
    var root := o.root.GetOr(0);
    forall page | page in AttributedPages(members, o)
      ensures page in list
    {
      var m := (root, page);
      assert m in members && m.0 == root && (next.Some? ==> page < next.value);
    }
    forall page | page in list
      ensures page in AttributedPages(members, o)
    {
      assert (root, page) in members;
    }
  }

  /** Following the windows of both queries: a page is read for a declaration exactly when the
      declaration is read for the page. */
  lemma ListsAgree(objects: seq<Object>, members: set<(nat, nat)>, attributions: set<(nat, nat)>, position: nat, page: nat,
                   shown: seq<nat>, pages: seq<nat>)
    requires position < |objects| && Agree(objects, members, attributions)
    requires ShownList(objects, attributions, page, shown) && PageList(members, objects[position], pages)
    ensures position in shown <==> page in pages
  {
    assert ShownFor(objects, attributions, page, position) <==> page in AttributedPages(members, objects[position]);
  }

  /** A reader who asks for window after window, from 0 on. */
  ghost predicate Followed(list: seq<nat>, limits: seq<nat>, batches: seq<Batch>, offsets: seq<nat>) {
    && |limits| == |batches| == |offsets| > 0 && offsets[0] == 0
    && (forall k :: 0 <= k < |batches| ==> limits[k] > 0 && Shows(list, offsets[k], limits[k], batches[k]))
    && (forall k :: 0 <= k < |batches| - 1 ==> batches[k].next == Some(offsets[k + 1]))
    && batches[|batches| - 1].next.None?
  }

  function Joined(batches: seq<Batch>): seq<nat> {
    if batches == [] then [] else Joined(batches[..|batches| - 1]) + batches[|batches| - 1].items
  }

  /** Where a window ends. */
  function WindowEnd(list: seq<nat>, offset: nat, limit: nat): nat {
    if offset + limit < |list| then offset + limit else |list|
  }

  lemma BatchEnd(list: seq<nat>, offset: nat, limit: nat, b: Batch)
    requires Shows(list, offset, limit, b) && offset <= |list|
    ensures list[..offset] + b.items == list[..WindowEnd(list, offset, limit)]
    ensures b.next == if offset + limit < |list| then Some(offset + limit) else None
  {
    assert list[..offset] + list[offset..] == list;
    if offset + limit < |list| {
      assert list[..offset] + list[offset..offset + limit] == list[..offset + limit];
    }
  }

  lemma {:induction false} JoinedSoFar(list: seq<nat>, limits: seq<nat>, batches: seq<Batch>, offsets: seq<nat>, n: nat)
    requires Followed(list, limits, batches, offsets) && 0 < n <= |batches|
    ensures offsets[n - 1] <= |list|
    ensures Joined(batches[..n]) == list[..WindowEnd(list, offsets[n - 1], limits[n - 1])]
  {
    hide Shows;
    var last := batches[n - 1];
    assert batches[..n][..n - 1] == batches[..n - 1] && batches[..n][n - 1] == last;
    assert Shows(list, offsets[n - 1], limits[n - 1], last);
    if n > 1 {
      JoinedSoFar(list, limits, batches, offsets, n - 1);
      assert Shows(list, offsets[n - 2], limits[n - 2], batches[n - 2]);
      BatchEnd(list, offsets[n - 2], limits[n - 2], batches[n - 2]);
      assert batches[n - 2].next == Some(offsets[n - 2 + 1]);
    } else {
      assert batches[..0] == [] && list[..0] == [];
    }
    BatchEnd(list, offsets[n - 1], limits[n - 1], last);
  }

  /** Following the windows reads the whole list once, in order. */
  lemma AllRead(list: seq<nat>, limits: seq<nat>, batches: seq<Batch>, offsets: seq<nat>)
    requires Followed(list, limits, batches, offsets)
    ensures Joined(batches) == list
  {
    JoinedSoFar(list, limits, batches, offsets, |batches|);
    assert batches[..|batches|] == batches;
    BatchEnd(list, offsets[|batches| - 1], limits[|batches| - 1], batches[|batches| - 1]);
    assert list[..|list|] == list;
  }
}
