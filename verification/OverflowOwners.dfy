/** Settling the owners of overflow pages: a page that several validated claims name belongs
    to none of them, and every recorded chain is cut at its first disputed claim. */
module OverflowOwners {
  import opened Wrappers
  import opened Control
  import opened ClaimGraph
  import opened ClaimTables
  import opened Inventory
  import opened Chains
  import opened Overflow

  // ---------------------------------------------------------------- what is promised

  ghost predicate HasLink(claims: seq<Claim>, source: Entity, target: nat) {
    exists i :: 0 <= i < |claims| && claims[i].IsLink() && claims[i].source == source && claims[i].target.value == target
  }

  /** Every step of the prefix, from the origin cell on, is a claim that is validated now. */
  ghost predicate StepsValid(claims: seq<Claim>, origin: Entity, prefix: seq<nat>) {
    && (prefix != [] ==> HasLink(claims, origin, prefix[0]))
    && (forall k :: 0 <= k < |prefix| - 1 ==> HasLink(claims, Page(prefix[k]), prefix[k + 1]))
  }

  /** Distinct traversals share no page. */
  ghost predicate DisjointPrefixes(traversals: seq<Traversal>) {
    forall a, b, page :: 0 <= a < b < |traversals| && page in traversals[a].prefix ==> page !in traversals[b].prefix
  }

  // ---------------------------------------------------------------- disputed claims

  /** The disputed claims by their sources. */
  ghost predicate Boundaries(claims: seq<Claim>, disputed: set<nat>, cells: map<Entity, nat>, pages: map<nat, nat>) {
    && (forall i :: i in disputed ==>
         i < |claims| && (if claims[i].source.Page? then claims[i].source.page in pages else claims[i].source in cells))
    && (forall e :: e in cells ==> cells[e] in disputed && cells[e] < |claims| && claims[cells[e]].source == e)
    && (forall p :: p in pages ==> pages[p] in disputed && pages[p] < |claims| && claims[pages[p]].source == Page(p))
  }

  /** The first position of the prefix whose page has a disputed claim, or its length. */
  function FirstDisputed(prefix: seq<nat>, pages: map<nat, nat>): (r: nat)
    ensures r <= |prefix|
    ensures r < |prefix| ==> prefix[r] in pages
    ensures forall k :: 0 <= k < r ==> prefix[k] !in pages
  {
    if prefix == [] then 0
    else if prefix[0] in pages then 0
    else 1 + FirstDisputed(prefix[1..], pages)
  }

  function CutAt(t: Traversal, length: nat, c: Claim): Traversal
    requires length <= |t.prefix|
  {
    t.(prefix := t.prefix[..length], stop := Some(TraversalStop(ConflictingClaim, c.id, c.target)))
  }

  /** One traversal after reconciliation: a disputed origin empties it, a disputed page ends
      it after that page. */
  ghost function Cut(t: Traversal, claims: seq<Claim>, cells: map<Entity, nat>, pages: map<nat, nat>): Traversal
    requires forall e :: e in cells ==> cells[e] < |claims|
    requires forall p :: p in pages ==> pages[p] < |claims|
  {
    if t.origin.Cell? && t.origin in cells then CutAt(t, 0, claims[cells[t.origin]])
    else
      var at := FirstDisputed(t.prefix, pages);
      if at < |t.prefix| then CutAt(t, at + 1, claims[pages[t.prefix[at]]]) else t
  }

  // ---------------------------------------------------------------- why the cuts suffice

  /** Two different claims on one page are both disputed. */
  lemma BothShared(claims: seq<Claim>, i: nat, j: nat)
    requires i < |claims| && j < |claims| && i != j
    requires claims[i].IsLink() && claims[j].IsLink() && claims[i].target == claims[j].target
    ensures i in SharedClaims(claims) && j in SharedClaims(claims)
  {
    assert Shared(claims, i) && Shared(claims, j);
  }

  /** The validated claim of an unmarked page. */
  lemma StepClaim(pages: seq<PageInfo>, s: State, page: nat) returns (i: nat)
    requires Indexed(pages, s) && page in s.next && page !in s.marked
    ensures i < |s.claims| && s.claims[i].IsLink() && s.claims[i].source == Page(page)
    ensures s.claims[i].target == Some(s.next[page]) && page in s.pageClaims && s.pageClaims[page] == i
  {
    assert PageEntry(s, page);
    i := s.pageClaims[page];
  }

  /** Before the first dispute, no pointer of a recorded chain is a withdrawn one: it would
      lie on a cycle, and where the chain meets that cycle two claims name one page. */
  lemma {:induction false} StepNotWithdrawn(pages: seq<PageInfo>, s: State, origin: Entity, path: seq<nat>, k: nat)
    requires Indexed(pages, s) && Chain(s.next, path) && path != [] && Starts(s, origin, path[0])
    requires s.cellClaims[origin] !in SharedClaims(s.claims)
    requires k + 1 < |path|
    requires forall m :: 0 <= m < k ==> path[m] in s.pageClaims && s.pageClaims[path[m]] !in SharedClaims(s.claims)
    ensures forall m :: 0 <= m <= k ==> path[m] !in s.marked
  {
    if k > 0 {
      StepNotWithdrawn(pages, s, origin, path, k - 1);
    }
    if path[k] in s.marked {
      var loop :| LoopTo(s.next, s.marked, path[k], loop);
      var meet, other := WithdrawnStep(s.next, s.marked, path, k, loop, k);
      var j := StepClaim(pages, s, other);
      if meet == 0 {
        BothShared(s.claims, s.cellClaims[origin], j);
      } else {
        assert s.next[path[meet - 1]] == path[meet - 1 + 1];
        var i := StepClaim(pages, s, path[meet - 1]);
        BothShared(s.claims, i, j);
      }
      assert false;
    }
  }

  /** What is left of a recorded chain after its cut consists of validated claims. */
  lemma CutIsValid(pages: seq<PageInfo>, room: nat, s: State, t: Traversal, cells: map<Entity, nat>, disputedPages: map<nat, nat>)
    requires Indexed(pages, s) && GoodTraversal(pages, room, s, t)
    requires Boundaries(s.claims, SharedClaims(s.claims), cells, disputedPages)
    ensures var after := Demote(s.claims, SharedClaims(s.claims), ConflictingClaim);
      StepsValid(after, t.origin, Cut(t, after, cells, disputedPages).prefix)
  {
    var after := Demote(s.claims, SharedClaims(s.claims), ConflictingClaim);
    var kept := Cut(t, after, cells, disputedPages).prefix;
    if kept != [] {
      var i := s.cellClaims[t.origin];
      assert CellEntry(s, t.origin);
      assert after[i].IsLink() && after[i].source == t.origin;
      var at := FirstDisputed(t.prefix, disputedPages);
      forall k | 0 <= k < |kept| - 1
        ensures HasLink(after, Page(kept[k]), kept[k + 1])
      {
        UndisputedBefore(pages, s, t.prefix, disputedPages, cells, k);
        StepNotWithdrawn(pages, s, t.origin, t.prefix, k);
        var j := StepClaim(pages, s, t.prefix[k]);
        assert after[j].IsLink();
      }
    }
  }

  lemma UndisputedBefore(pages: seq<PageInfo>, s: State, path: seq<nat>, disputedPages: map<nat, nat>, cells: map<Entity, nat>, k: nat)
    requires Indexed(pages, s) && Chain(s.next, path)
    requires Boundaries(s.claims, SharedClaims(s.claims), cells, disputedPages)
    requires k + 1 < |path| && k < FirstDisputed(path, disputedPages)
    ensures forall m :: 0 <= m <= k ==> path[m] in s.pageClaims && s.pageClaims[path[m]] !in SharedClaims(s.claims)
  {
    forall m | 0 <= m <= k
      ensures path[m] in s.pageClaims && s.pageClaims[path[m]] !in SharedClaims(s.claims)
    {
      assert path[m] in s.next;
      assert PageEntry(s, path[m]);
      assert path[m] !in disputedPages;
    }
  }

  /** With one owner to a page, chains from different cells cannot meet. */
  lemma {:induction false} NoMeeting(claims: seq<Claim>, o: Entity, p: seq<nat>, a: nat, q: Entity, r: seq<nat>, b: nat)
    requires SingleOwner(claims)
    requires o.Cell? && q.Cell? && o != q
    requires StepsValid(claims, o, p) && StepsValid(claims, q, r)
    requires a < |p| && b < |r|
    ensures p[a] != r[b]
    decreases a
  {
    if p[a] == r[b] {
      var i := LinkInto(claims, o, p, a);
      var j := LinkInto(claims, q, r, b);
      assert i == j;
      if a > 0 && b > 0 {
        NoMeeting(claims, o, p, a - 1, q, r, b - 1);
      }
      assert false;
    }
  }

  lemma LinkInto(claims: seq<Claim>, origin: Entity, prefix: seq<nat>, k: nat) returns (i: nat)
    requires StepsValid(claims, origin, prefix) && k < |prefix|
    ensures i < |claims| && claims[i].IsLink() && claims[i].target.value == prefix[k]
    ensures claims[i].source == if k == 0 then origin else Page(prefix[k - 1])
  {
    if k == 0 {
      i :| 0 <= i < |claims| && claims[i].IsLink() && claims[i].source == origin && claims[i].target.value == prefix[0];
    } else {
      assert HasLink(claims, Page(prefix[k - 1]), prefix[k - 1 + 1]);
      i :| 0 <= i < |claims| && claims[i].IsLink() && claims[i].source == Page(prefix[k - 1]) && claims[i].target.value == prefix[k];
    }
  }

  // ---------------------------------------------------------------- no cycle is left

  lemma {:induction false} RecordedIn(traversals: seq<Traversal>, page: nat) returns (k: nat)
    requires page in RecordedPages(traversals)
    ensures k < |traversals| && page in traversals[k].prefix
  {
    var last := |traversals| - 1;
    if page in traversals[last].prefix {
      k := last;
    } else {
      k := RecordedIn(traversals[..last], page);
    }
  }

  /** The pointer of `p` stays in the loop, and an undisputed pointer in the loop names `p`. */
  ghost predicate Inside(s: State, loop: set<nat>, p: nat) {
    && p in s.next && p in s.pageClaims && s.next[p] in loop
    && exists q :: q in loop && Undisputed(s, q) && s.next[q] == p
  }

  ghost predicate ClosedLoop(s: State, loop: set<nat>) {
    forall p {:trigger Inside(s, loop, p)} :: p in loop ==> Inside(s, loop, p)
  }

  ghost predicate Undisputed(s: State, page: nat) {
    page in s.next && page !in s.marked && page in s.pageClaims && s.pageClaims[page] !in SharedClaims(s.claims)
  }

  lemma {:induction false} ChainStaysIn(s: State, loop: set<nat>, path: seq<nat>, k: nat)
    requires ClosedLoop(s, loop) && Chain(s.next, path)
    requires k < |path| && path[0] in loop
    ensures path[k] in loop
  {
    if k > 0 {
      ChainStaysIn(s, loop, path, k - 1);
      assert Inside(s, loop, path[k - 1]);
      assert s.next[path[k - 1]] == path[k - 1 + 1];
    }
  }

  lemma BackInLoop(s: State, loop: set<nat>, page: nat)
    requires ClosedLoop(s, loop) && OnLoop(s.next, s.marked, page) && s.next[page] in loop
    ensures page in loop
  {
    var back :| LoopTo(s.next, s.marked, page, back);
    ChainStaysIn(s, loop, back, |back| - 1);
  }

  /** A page that an intact pointer names and that a chain enters from elsewhere has two
      owners. */
  lemma SecondOwner(pages: seq<PageInfo>, room: nat, s: State, t: Traversal, k: nat, q: nat)
    requires Indexed(pages, s) && GoodTraversal(pages, room, s, t) && k < |t.prefix|
    requires q in s.next && q !in s.marked && q in s.pageClaims && s.next[q] == t.prefix[k]
    requires k > 0 ==> t.prefix[k - 1] != q && t.prefix[k - 1] !in s.marked
    ensures s.pageClaims[q] in SharedClaims(s.claims)
  {
    var j := StepClaim(pages, s, q);
    if k == 0 {
      assert CellEntry(s, t.origin);
      BothShared(s.claims, s.cellClaims[t.origin], j);
    } else {
      assert s.next[t.prefix[k - 1]] == t.prefix[k - 1 + 1];
      var i := StepClaim(pages, s, t.prefix[k - 1]);
      BothShared(s.claims, i, j);
    }
  }

  /** Some cell's chain entered the loop, and where it did a page has two owners. */
  lemma {:induction false} NoEntry(pages: seq<PageInfo>, room: nat, s: State, loop: set<nat>, t: Traversal, k: nat)
    requires Indexed(pages, s) && GoodTraversal(pages, room, s, t) && ClosedLoop(s, loop)
    requires k < |t.prefix|
    ensures t.prefix[k] !in loop
  {
    if t.prefix[k] in loop {
      assert Inside(s, loop, t.prefix[k]);
      var q :| q in loop && Undisputed(s, q) && s.next[q] == t.prefix[k];
      if k > 0 {
        NoEntry(pages, room, s, loop, t, k - 1);
        assert s.next[t.prefix[k - 1]] == t.prefix[k - 1 + 1];
        if t.prefix[k - 1] in s.marked {
          BackInLoop(s, loop, t.prefix[k - 1]);
        }
      }
      SecondOwner(pages, room, s, t, k, q);
    }
  }

  lemma NoClosedLoop(pages: seq<PageInfo>, room: nat, s: State, loop: set<nat>)
    requires Indexed(pages, s) && GoodTraversals(pages, room, s, []) && ClosedLoop(s, loop)
    ensures loop == {}
  {
    if p :| p in loop {
      assert Inside(s, loop, p);
      assert p in RecordedPages(s.traversals);
      var k := RecordedIn(s.traversals, p);
      var at :| 0 <= at < |s.traversals[k].prefix| && s.traversals[k].prefix[at] == p;
      NoEntry(pages, room, s, loop, s.traversals[k], at);
      assert false;
    }
  }

  /** An edge that is left comes from an undisputed claim; if its source page has no B-tree
      header, that claim is the page's own pointer. */
  lemma EdgeLeft(pages: seq<PageInfo>, s: State, e: Edge)
    requires Indexed(pages, s)
    requires e in ClaimEdges(Demote(s.claims, SharedClaims(s.claims), ConflictingClaim))
    ensures Plain(pages, e.1)
    ensures Plain(pages, e.0) ==> Undisputed(s, e.0) && s.next[e.0] == e.1
  {
    var after := Demote(s.claims, SharedClaims(s.claims), ConflictingClaim);
    var i :| 0 <= i < |after| && after[i].IsLink() && EdgeOf(after[i]) == e;
    assert i !in SharedClaims(s.claims) && s.claims[i].IsLink();
    assert Owned(pages, s, i);
    if s.claims[i].source.Page? {
      assert PageEntry(s, e.0);
    }
  }

  /** No overflow page reaches itself through the claims that are left. */
  lemma OwnersAcyclic(pages: seq<PageInfo>, room: nat, s: State)
    requires Indexed(pages, s) && GoodTraversals(pages, room, s, [])
    ensures Acyclic(ClaimEdges(Demote(s.claims, SharedClaims(s.claims), ConflictingClaim)))
  {
    var edges := ClaimEdges(Demote(s.claims, SharedClaims(s.claims), ConflictingClaim));
    forall path | IsPath(edges, path) && |path| >= 2
      ensures path[0] != path[|path| - 1]
    {
      if path[0] == path[|path| - 1] {
        var loop := PagesOf(path);
        var top := |path| - 1;
        forall k | 0 <= k < |path|
          ensures Plain(pages, path[k])
        {
          var into := if k == 0 then top else k;
          assert (path[into - 1], path[into - 1 + 1]) in edges;
          EdgeLeft(pages, s, (path[into - 1], path[into]));
        }
        forall p | p in loop
          ensures Inside(s, loop, p)
        {
          var k :| 0 <= k < |path| && path[k] == p;
          var from, into := if k == top then 0 else k, if k == 0 then top else k;
          assert (path[from], path[from + 1]) in edges;
          EdgeLeft(pages, s, (path[from], path[from + 1]));
          assert (path[into - 1], path[into - 1 + 1]) in edges;
          EdgeLeft(pages, s, (path[into - 1], path[into]));
          assert path[into - 1] in loop && Undisputed(s, path[into - 1]) && s.next[path[into - 1]] == p;
        }
        assert path[0] in loop;
        NoClosedLoop(pages, room, s, loop);
        assert false;
      }
    }
  }

  // ---------------------------------------------------------------- the reconciliation

  ghost function SharedOutside(claims: seq<Claim>, keys: set<nat>): set<nat> {
    set i | 0 <= i < |claims| && Shared(claims, i) && claims[i].target.value !in keys
  }

  lemma SharedKey(claims: seq<Claim>, target: nat, keys: set<nat>, group: seq<nat>)
    requires CleanLinks(claims) && group == LinksTo(claims, target, |claims|)
    requires target in keys
    ensures Demotable(claims, group)
    ensures SharedOutside(claims, keys - {target})
         == if |group| >= 2 then SharedOutside(claims, keys) + Members(group) else SharedOutside(claims, keys)
    ensures |group| >= 2 ==> Members(group) !! SharedOutside(claims, keys) && Members(group) <= SharedClaims(claims)
  {
    hide LinksTo;
    LinksToMeaning(claims, target, |claims|);
    GroupIsShared(claims, target);
    if |group| >= 2 {
      forall i | i in SharedOutside(claims, keys - {target}) && i !in SharedOutside(claims, keys)
        ensures i in Members(group)
      {
        assert i in group;
      }
    }
  }

  /** Notes the sources of a demoted group. */
  method AddBoundaries(table: ClaimTable, group: seq<nat>, cells0: map<Entity, nat>, pages0: map<nat, nat>,
                       ghost before: seq<Claim>, ghost disputed: set<nat>)
    returns (cells: map<Entity, nat>, pages: map<nat, nat>, complete: bool)
    requires SameClaims(before, table.claims) && |before| == |table.claims|
    requires forall k :: 0 <= k < |group| ==> group[k] < |before|
    requires Boundaries(before, disputed, cells0, pages0)
    modifies table.control`stop, table.control`failed
    ensures table.control.Later()
    ensures !complete ==> table.control.stop || table.control.failed
    ensures complete ==> Boundaries(before, disputed + Members(group), cells, pages)
  {
    cells, pages, complete := cells0, pages0, false;
    SameClaimsMeaning(before, table.claims);
    for k: nat := 0 to |group|
      invariant table.control.Later()
      invariant Boundaries(before, disputed + Members(group[..k]), cells, pages)
    {
      var stopped := table.control.Stopped();
      if stopped {
        return;
      }
      var read := table.control.Access();
      if !read {
        return;
      }
      assert Members(group[..k + 1]) == Members(group[..k]) + {group[k]} by {
        assert forall m :: 0 <= m < k ==> group[..k + 1][m] == group[..k][m];
        assert group[..k + 1][k] == group[k];
      }
      match table.claims[group[k]].source
      case Page(page) =>
        pages := pages[page := group[k]];
      case Cell(_, _) =>
        cells := cells[table.claims[group[k]].source := group[k]];
    }
    assert group[..|group|] == group;
    complete := true;
  }

  /** Demotes every group of claims on one page and notes where chains must be cut. */
  method DemoteOwners(table: ClaimTable, incoming: map<nat, seq<nat>>)
    returns (cells: map<Entity, nat>, pages: map<nat, nat>, complete: bool)
    requires !table.control.failed ==>
      CleanLinks(table.claims) && incoming == TargetIndex(table.claims, |table.claims|)
    modifies table`claims, table.control`stop, table.control`failed
    ensures table.control.Later()
    ensures SameClaims(old(table.claims), table.claims) && |table.claims| == |old(table.claims)|
    ensures !complete ==> table.control.stop || table.control.failed
    ensures complete && !table.control.stop && !table.control.failed ==>
      && table.claims == Demote(old(table.claims), SharedClaims(old(table.claims)), ConflictingClaim)
      && Boundaries(old(table.claims), SharedClaims(old(table.claims)), cells, pages)
  {
    var control := table.control;
    ghost var before, demoted: set<nat> := table.claims, {};
    cells, pages, complete := map[], map[], false;
    var keys := incoming.Keys;
    if !control.failed {
      NoneOutside(before);
    }
    while keys != {}
      invariant control.Later()
      invariant SameClaims(before, table.claims) && |table.claims| == |before|
      invariant keys <= incoming.Keys
      invariant Boundaries(before, demoted, cells, pages)
      invariant !control.failed ==>
        table.claims == Demote(before, demoted, ConflictingClaim) && demoted <= SharedOutside(before, keys)
      invariant !control.failed && !control.stop ==> demoted == SharedOutside(before, keys)
    {
      var target :| target in keys;
      var admitted := control.ReserveMemory();
      var read := control.Access();
      var group := if admitted && read then incoming[target] else [];
      if read {
        TargetIndexMeaning(before, |before|, target);
        SharedKey(before, target, keys, LinksTo(before, target, |before|));
      }
      keys := keys - {target};
      if |group| >= 2 {
        var done := table.ConflictingClaims(group, ConflictingClaim, before, demoted);
        if !done {
          return;
        }
        var noted: bool;
        cells, pages, noted := AddBoundaries(table, group, cells, pages, before, demoted);
        if !noted {
          return;
        }
        demoted := demoted + Members(group);
      }
    }
    complete := true;
    if !control.failed {
      AllKeysDone(before);
    }
  }

  lemma NoneOutside(claims: seq<Claim>)
    ensures SharedOutside(claims, TargetIndex(claims, |claims|).Keys) == {}
  {
    forall i | 0 <= i < |claims| && claims[i].IsLink()
      ensures claims[i].target.value in TargetIndex(claims, |claims|)
    {
      TargetIndexMeaning(claims, |claims|, claims[i].target.value);
      LinksToMeaning(claims, claims[i].target.value, |claims|);
      assert i in LinksTo(claims, claims[i].target.value, |claims|);
    }
  }

  lemma AllKeysDone(claims: seq<Claim>)
    ensures SharedOutside(claims, {}) == SharedClaims(claims)
  {
  }

  lemma {:induction false} FirstDisputedIs(prefix: seq<nat>, pages: map<nat, nat>, at: nat)
    requires at <= |prefix| && (at < |prefix| ==> prefix[at] in pages)
    requires forall k :: 0 <= k < at ==> prefix[k] !in pages
    ensures FirstDisputed(prefix, pages) == at
  {
    if at > 0 {
      FirstDisputedIs(prefix[1..], pages, at - 1);
    }
  }

  ghost predicate InRange(claims: seq<Claim>, cells: map<Entity, nat>, pages: map<nat, nat>) {
    (forall e :: e in cells ==> cells[e] < |claims|) && (forall p :: p in pages ==> pages[p] < |claims|)
  }

  /** Looks for the first page of the prefix with a disputed claim. */
  method FindDisputed(prefix: seq<nat>, pages: map<nat, nat>, control: WorkControl) returns (at: nat, complete: bool)
    modifies control`stop
    ensures old(control.stop) ==> control.stop
    ensures !complete ==> control.stop
    ensures complete ==> control.stop == old(control.stop)
    ensures complete ==> at == FirstDisputed(prefix, pages)
  {
    at, complete := 0, false;
    while at < |prefix| && prefix[at] !in pages
      invariant control.stop == old(control.stop)
      invariant at <= |prefix| && forall m :: 0 <= m < at ==> prefix[m] !in pages
    {
      var stopped := control.Stopped();
      if stopped {
        return;
      }
      at := at + 1;
    }
    FirstDisputedIs(prefix, pages, at);
    complete := true;
  }

  /** Cuts one traversal in place. */
  method CutTraversal(topology: OverflowTopology, k: nat, cells: map<Entity, nat>, pages: map<nat, nat>) returns (complete: bool)
    requires topology.table.control == topology.control
    requires k < |topology.traversals|
    requires !topology.control.failed ==> InRange(topology.table.claims, cells, pages)
    modifies topology`traversals, topology.control`stop, topology.control`failed
    ensures topology.control.Later()
    ensures complete ==> !topology.control.stop
    ensures !complete ==> topology.control.stop || topology.control.failed
    ensures topology.traversals == old(topology.traversals)
         || (exists t :: topology.traversals == old(topology.traversals)[k := t]
               && t.origin == old(topology.traversals)[k].origin && t.prefix <= old(topology.traversals)[k].prefix)
    ensures complete && !topology.control.failed ==>
      topology.traversals == old(topology.traversals)[k := Cut(old(topology.traversals)[k], topology.table.claims, cells, pages)]
  {
    var control := topology.control;
    complete := false;
    var read := control.Access();
    if !read {
      return;
    }
    var t := topology.traversals[k];
    var stopped := control.Stopped();
    if stopped {
      return;
    }
    var at, found := FindDisputed(t.prefix, pages, control);
    if !found {
      return;
    }
    var boundary, index := at + 1, if at < |t.prefix| then Some(pages[t.prefix[at]]) else None;
    if t.origin.Cell? && t.origin in cells {
      boundary, index := 0, Some(cells[t.origin]);
    }
    if index.Some? {
      read := control.Access();
      if !read {
        return;
      }
      var written := control.Access();
      if written {
        topology.traversals := topology.traversals[k := CutAt(t, boundary, topology.table.claims[index.value])];
      }
    } else {
      assert topology.traversals == topology.traversals[k := t];
    }
    complete := true;
  }

  /** Each traversal keeps its origin and a part of its prefix. */
  ghost predicate Shortened(before: seq<Traversal>, after: seq<Traversal>) {
    |before| == |after| && forall k :: 0 <= k < |after| ==>
      after[k].origin == before[k].origin && after[k].prefix <= before[k].prefix
  }

  lemma {:induction false} ShortenedRetains(before: seq<Traversal>, after: seq<Traversal>)
    requires Shortened(before, after)
    ensures Retained(after) <= Retained(before)
  {
    if after != [] {
      ShortenedRetains(before[..|before| - 1], after[..|after| - 1]);
    }
  }

  /** What reconciliation promises when it reports completion. */
  ghost predicate Reconciled(room: nat, pages: seq<PageInfo>, claims: seq<Claim>, traversals: seq<Traversal>) {
    && (forall k :: 0 <= k < |traversals| ==>
         && traversals[k].kind.OverflowChain? && traversals[k].origin.Cell?
         && StepsValid(claims, traversals[k].origin, traversals[k].prefix)
         && Fits(room, Spill(pages, traversals[k].origin), |traversals[k].prefix|, traversals[k].stop.None?))
    && DisjointPrefixes(traversals)
  }

  /** The claims of the phase, however it ended: one owner to a page, no cycles, and links
      only from B-tree cells and overflow pages to overflow pages. */
  ghost predicate OverflowLinks(pages: seq<PageInfo>, claims: seq<Claim>) {
    && SingleOwner(claims) && Acyclic(ClaimEdges(claims)) && UniqueNames(claims)
    && (forall i :: 0 <= i < |claims| ==> OverflowLink(pages, claims[i]))
  }

  ghost predicate OverflowLink(pages: seq<PageInfo>, c: Claim) {
    && c.kind == RelationshipKind.Overflow && c.id == OverflowId(c.source)
    && (c.source.Cell? ==> HasKind(pages, c.source.page))
    && (c.source.Page? ==> Plain(pages, c.source.page))
    && (c.IsLink() ==> Plain(pages, c.target.value))
  }

  lemma CutsReconcile(pages: seq<PageInfo>, room: nat, s: State, cells: map<Entity, nat>, disputedPages: map<nat, nat>, cut: seq<Traversal>)
    requires Indexed(pages, s) && GoodTraversals(pages, room, s, [])
    requires Boundaries(s.claims, SharedClaims(s.claims), cells, disputedPages)
    requires |cut| == |s.traversals|
    requires forall k :: 0 <= k < |cut| ==>
      cut[k] == Cut(s.traversals[k], Demote(s.claims, SharedClaims(s.claims), ConflictingClaim), cells, disputedPages)
    ensures Reconciled(room, pages, Demote(s.claims, SharedClaims(s.claims), ConflictingClaim), cut)
  {
    var after := Demote(s.claims, SharedClaims(s.claims), ConflictingClaim);
    DemotedSharedIsSingleOwner(s.claims, ConflictingClaim);
    forall k | 0 <= k < |cut|
      ensures cut[k].kind.OverflowChain? && cut[k].origin == s.traversals[k].origin && cut[k].origin.Cell?
      ensures StepsValid(after, cut[k].origin, cut[k].prefix)
      ensures Fits(room, Spill(pages, cut[k].origin), |cut[k].prefix|, cut[k].stop.None?)
    {
      assert GoodTraversal(pages, room, s, s.traversals[k]);
      CutIsValid(pages, room, s, s.traversals[k], cells, disputedPages);
      FitsShorter(room, Spill(pages, cut[k].origin), |s.traversals[k].prefix|, |cut[k].prefix|);
    }
    forall a, b, page | 0 <= a < b < |cut| && page in cut[a].prefix
      ensures page !in cut[b].prefix
    {
      if page in cut[b].prefix {
        var i :| 0 <= i < |cut[a].prefix| && cut[a].prefix[i] == page;
        var j :| 0 <= j < |cut[b].prefix| && cut[b].prefix[j] == page;
        NoMeeting(after, cut[a].origin, cut[a].prefix, i, cut[b].origin, cut[b].prefix, j);
        assert false;
      }
    }
  }

  lemma FitsShorter(room: nat, spill: nat, length: nat, shorter: nat)
    requires shorter <= length
    ensures Fits(room, spill, length, false) ==> Fits(room, spill, shorter, false)
  {
    if 0 < shorter {
      assert (length - 1) * room == (shorter - 1) * room + (length - shorter) * room;
    }
  }

  /** A cell and a page have one claim each. */
  lemma IndexedNames(pages: seq<PageInfo>, s: State)
    requires Indexed(pages, s)
    ensures UniqueNames(s.claims)
  {
    forall i, j | 0 <= i < j < |s.claims|
      ensures s.claims[i].id != s.claims[j].id
    {
      assert Owned(pages, s, i) && Owned(pages, s, j);
    }
  }

  lemma OwnersAreLinks(pages: seq<PageInfo>, room: nat, s: State)
    requires Indexed(pages, s) && GoodTraversals(pages, room, s, [])
    ensures OverflowLinks(pages, Demote(s.claims, SharedClaims(s.claims), ConflictingClaim))
  {
    var after := Demote(s.claims, SharedClaims(s.claims), ConflictingClaim);
    DemotedSharedIsSingleOwner(s.claims, ConflictingClaim);
    OwnersAcyclic(pages, room, s);
    IndexedNames(pages, s);
    forall i | 0 <= i < |after|
      ensures OverflowLink(pages, after[i])
    {
      assert Owned(pages, s, i);
    }
  }

  /** Demotes disputed claims and cuts every chain at its first dispute. */
  method ReconcileOwners(topology: OverflowTopology) returns (complete: bool)
    requires topology.table.control == topology.control
    requires !topology.control.failed ==>
      topology.Good([]) && (topology.traversals == [] ==> topology.table.claims == [])
    modifies topology`traversals, topology.table`claims, topology.control`stop, topology.control`failed
    ensures topology.control.Later()
    ensures Shortened(old(topology.traversals), topology.traversals)
    ensures SameClaims(old(topology.table.claims), topology.table.claims)
    ensures !complete ==> topology.control.stop || topology.control.failed
    ensures complete && !topology.control.failed ==>
      && OverflowLinks(topology.pages, topology.table.claims)
      && Reconciled(topology.room, topology.pages, topology.table.claims, topology.traversals)
      && Whole(topology.Given(), topology.table.claims, topology.traversals)
  {
    hide Whole, Reconciled, Indexed, GoodTraversals, Truthful, OverflowLinks, Cut, Boundaries;
    var control := topology.control;
    ghost var before := topology.Now();
    complete := false;
    var incoming, indexed := topology.table.IndexLinks();
    if !indexed {
      return;
    }
    if !control.failed {
      IndexedIsClean(topology.pages, before);
    }
    var cells, pages, demoted := DemoteOwners(topology.table, incoming);
    if !demoted {
      return;
    }
    if !control.failed && !control.stop {
      OwnersAreLinks(topology.pages, topology.room, before);
    }
    complete := CutTraversals(topology, cells, pages);
    if topology.table.claims == [] && topology.traversals == [] {
      NothingFound(topology.Given());
    }
    if complete && !control.failed && !control.stop {
      CutsReconcile(topology.pages, topology.room, before, cells, pages, topology.traversals);
      CutsAreWhole(topology.Given(), before, cells, pages, topology.traversals);
    }
  }

  lemma NothingFound(u: Setting)
    ensures OverflowLinks(u.pages, []) && Reconciled(u.room, u.pages, [], []) && Whole(u, [], [])
  {
    NoLinksNoCycles([]);
  }

  // ---------------------------------------------------------------- nothing is left out

  /** Where a traversal ended: on its last page, or at its origin. */
  function EndOf(t: Traversal): Entity {
    if t.prefix == [] then t.origin else Page(t.prefix[|t.prefix| - 1])
  }

  /** The claim at the end of the traversal gives it cause to end there. */
  ghost predicate Ended(u: Setting, claims: seq<Claim>, t: Traversal) {
    exists i :: 0 <= i < |claims| && claims[i].source == EndOf(t) && Cause(u, claims[i], t)
  }

  /** A claim is what the file says, unless it was withdrawn or lost its page to a dispute. */
  ghost predicate AsLeft(u: Setting, c: Claim) {
    AsRead(u, c) || (c.state.Conflicting? && Lost(c) && AsRead(u, c.(state := Validated, stop := None)))
  }

  predicate Lost(c: Claim) {
    c.stop == Some(ConflictingClaim)
  }

  ghost predicate Rivalled(claims: seq<Claim>, i: nat)
    requires i < |claims|
  {
    exists j :: 0 <= j < |claims| && j != i && Lost(claims[j]) && claims[j].target == claims[i].target
  }

  /** Claims say what the file says; only claims on a page that another claim wants too lost
      it; and no traversal ended before its end. */
  ghost predicate Whole(u: Setting, claims: seq<Claim>, traversals: seq<Traversal>) {
    && (forall i :: 0 <= i < |claims| ==> AsLeft(u, claims[i]))
    && (forall i :: 0 <= i < |claims| && Lost(claims[i]) ==> Rivalled(claims, i))
    && (forall k :: 0 <= k < |traversals| ==> Ended(u, claims, traversals[k]))
  }

  lemma ReadIsNotLost(u: Setting, c: Claim)
    requires AsRead(u, c)
    ensures !Lost(c)
  {
  }

  lemma CutEnds(u: Setting, s: State, t: Traversal, cells: map<Entity, nat>, disputedPages: map<nat, nat>)
    requires Indexed(u.pages, s) && Caused(u, s, t) && t.origin.Cell?
    requires Boundaries(s.claims, SharedClaims(s.claims), cells, disputedPages)
    ensures var after := Demote(s.claims, SharedClaims(s.claims), ConflictingClaim);
      Ended(u, after, Cut(t, after, cells, disputedPages))
  {
    hide SharedClaims, Cause, Ended, Indexed, Caused;
    var after := Demote(s.claims, SharedClaims(s.claims), ConflictingClaim);
    var at := FirstDisputed(t.prefix, disputedPages);
    if t.origin in cells {
      DisputeEnds(u, s.claims, t, 0, cells[t.origin]);
    } else if at < |t.prefix| {
      assert t.prefix[..at + 1][at] == t.prefix[at];
      DisputeEnds(u, s.claims, t, at + 1, disputedPages[t.prefix[at]]);
    } else {
      UncutEnds(u, s, t, cells, disputedPages);
    }
  }

  lemma DisputeEnds(u: Setting, claims: seq<Claim>, t: Traversal, length: nat, i: nat)
    requires i < |claims| && i in SharedClaims(claims) && length <= |t.prefix|
    requires claims[i].source == if length == 0 then t.origin else Page(t.prefix[length - 1])
    ensures var after := Demote(claims, SharedClaims(claims), ConflictingClaim);
      i < |after| && Ended(u, after, CutAt(t, length, after[i]))
  {
    hide SharedClaims;
    var after := Demote(claims, SharedClaims(claims), ConflictingClaim);
    var cut := CutAt(t, length, after[i]);
    assert after[i].source == EndOf(cut) && Cause(u, after[i], cut);
  }

  lemma UncutEnds(u: Setting, s: State, t: Traversal, cells: map<Entity, nat>, disputedPages: map<nat, nat>)
    requires Indexed(u.pages, s) && Caused(u, s, t) && t.origin.Cell? && t.origin !in cells
    requires Boundaries(s.claims, SharedClaims(s.claims), cells, disputedPages)
    requires forall k :: 0 <= k < |t.prefix| ==> t.prefix[k] !in disputedPages
    ensures Ended(u, Demote(s.claims, SharedClaims(s.claims), ConflictingClaim), t)
  {
    hide SharedClaims, Cause;
    var after := Demote(s.claims, SharedClaims(s.claims), ConflictingClaim);
    var i := LastIndex(s, t).value;
    if t.prefix == [] {
      assert CellEntry(s, t.origin);
    } else {
      assert PageEntry(s, t.prefix[|t.prefix| - 1]);
    }
    assert s.claims[i].source == EndOf(t);
    assert i !in SharedClaims(s.claims);
    assert after[i] == s.claims[i];
  }

  lemma ClaimsLeft(u: Setting, s: State)
    requires Indexed(u.pages, s) && AllRead(u, s.claims)
    ensures var after := Demote(s.claims, SharedClaims(s.claims), ConflictingClaim);
      && (forall i :: 0 <= i < |after| ==> AsLeft(u, after[i]))
      && (forall i :: 0 <= i < |after| && Lost(after[i]) ==> Rivalled(after, i))
  {
    hide AsRead;
    var after := Demote(s.claims, SharedClaims(s.claims), ConflictingClaim);
    forall i | 0 <= i < |after|
      ensures AsLeft(u, after[i])
      ensures Lost(after[i]) ==> i in SharedClaims(s.claims)
    {
      assert AsRead(u, s.claims[i]) && Owned(u.pages, s, i);
      ReadIsNotLost(u, s.claims[i]);
      assert i in SharedClaims(s.claims) ==> after[i].(state := Validated, stop := None) == s.claims[i];
    }
    forall i | 0 <= i < |after| && Lost(after[i])
      ensures Rivalled(after, i)
    {
      assert Shared(s.claims, i);
      var j :| 0 <= j < |s.claims| && j != i && s.claims[j].IsLink() && s.claims[j].target == s.claims[i].target;
      BothShared(s.claims, i, j);
      assert Lost(after[j]);
    }
  }

  lemma CutsAreWhole(u: Setting, s: State, cells: map<Entity, nat>, disputedPages: map<nat, nat>, cut: seq<Traversal>)
    requires Indexed(u.pages, s) && GoodTraversals(u.pages, u.room, s, []) && Truthful(u, s)
    requires Boundaries(s.claims, SharedClaims(s.claims), cells, disputedPages)
    requires |cut| == |s.traversals|
    requires forall k :: 0 <= k < |cut| ==>
      cut[k] == Cut(s.traversals[k], Demote(s.claims, SharedClaims(s.claims), ConflictingClaim), cells, disputedPages)
    ensures Whole(u, Demote(s.claims, SharedClaims(s.claims), ConflictingClaim), cut)
  {
    hide Indexed, Ended, AsLeft, Rivalled, Cut, Boundaries, Caused, Demote, SharedClaims;
    ClaimsLeft(u, s);
    forall k | 0 <= k < |cut|
      ensures Ended(u, Demote(s.claims, SharedClaims(s.claims), ConflictingClaim), cut[k])
    {
      assert GoodTraversal(u.pages, u.room, s, s.traversals[k]) && Caused(u, s, s.traversals[k]);
      CutEnds(u, s, s.traversals[k], cells, disputedPages);
    }
  }

  lemma IndexedIsClean(pages: seq<PageInfo>, s: State)
    requires Indexed(pages, s)
    ensures CleanLinks(s.claims)
  {
    forall i | 0 <= i < |s.claims| && s.claims[i].state.Validated?
      ensures s.claims[i].stop.None?
    {
      assert Owned(pages, s, i);
    }
  }

  method CutTraversals(topology: OverflowTopology, cells: map<Entity, nat>, pages: map<nat, nat>) returns (complete: bool)
    requires topology.table.control == topology.control
    requires !topology.control.failed && !topology.control.stop ==> InRange(topology.table.claims, cells, pages)
    modifies topology`traversals, topology.control`stop, topology.control`failed
    ensures topology.control.Later()
    ensures Shortened(old(topology.traversals), topology.traversals)
    ensures !complete ==> topology.control.stop || topology.control.failed
    ensures complete && topology.traversals != [] ==> !topology.control.stop
    ensures complete && !topology.control.failed && !topology.control.stop ==> forall k :: 0 <= k < |topology.traversals| ==>
      topology.traversals[k] == Cut(old(topology.traversals)[k], topology.table.claims, cells, pages)
  {
    var control := topology.control;
    ghost var before := topology.traversals;
    for k: nat := 0 to |topology.traversals|
      invariant control.Later()
      invariant Shortened(before, topology.traversals)
      invariant k > 0 ==> !control.stop
      invariant !control.failed && !control.stop ==> InRange(topology.table.claims, cells, pages)
      invariant !control.failed && !control.stop ==> forall m :: 0 <= m < |before| ==>
        topology.traversals[m] == if m < k then Cut(before[m], topology.table.claims, cells, pages) else before[m]
    {
      var stopped := control.Stopped();
      if stopped {
        return false;
      }
      complete := CutTraversal(topology, k, cells, pages);
      if !complete {
        return;
      }
    }
    complete := true;
  }
}
