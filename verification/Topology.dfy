/** Topology inspection as a whole: freelist, B-trees, overflow chains, and the reconciliation
    of the freelist with what points into it. */
module Topology {
  import opened Wrappers
  import opened Control
  import opened ClaimGraph
  import opened ClaimTables
  import opened Inventory
  import opened FileGeometry
  import opened LinkForest
  import BtreeClaims
  import BtreeTraversal
  import Overflow
  import OverflowOwners
  import OverflowPhase
  import Freelist
  import Storage = StorageReconciliation

  // ---------------------------------------------------------------- one forest from three phases

  /** B-tree pages below overflow pages below freelist pages: a link never leads down. */
  ghost function Level(view: seq<PageInfo>, overrides: map<nat, AllocationRole>, page: nat): nat {
    if page in overrides then 2 else if HasKind(view, page) then 0 else 1
  }

  ghost predicate AllocationHidden(view: seq<PageInfo>, overrides: map<nat, AllocationRole>) {
    && (forall p :: p in overrides ==> p > 1 && Listed(view, p) && view[p - 1].kind.None? && view[p - 1].allocation.Some?)
  }

  lemma OverridesHide(pages: seq<PageInfo>, overrides: map<nat, AllocationRole>)
    requires forall p :: p in overrides ==> Listed(pages, p) && p > 1
    ensures AllocationHidden(ApplyOverrides(pages, overrides), overrides)
  {
  }

  lemma TreeLayer(pageCount: nat, view: seq<PageInfo>, overrides: map<nat, AllocationRole>, claims: seq<Claim>)
    requires AllocationHidden(view, overrides) && BtreeClaims.TreeLinks(pageCount, view, claims)
    ensures Layer(ClaimEdges(claims), p => Level(view, overrides, p), 0)
  {
    forall e | e in ClaimEdges(claims)
      ensures Level(view, overrides, e.0) == 0 && Level(view, overrides, e.1) == 0
    {
      var i :| 0 <= i < |claims| && claims[i].IsLink() && EdgeOf(claims[i]) == e;
      assert BtreeClaims.SoundLink(pageCount, view, claims[i]);
    }
  }

  lemma OverflowLayer(view: seq<PageInfo>, overrides: map<nat, AllocationRole>, claims: seq<Claim>)
    requires AllocationHidden(view, overrides) && OverflowOwners.OverflowLinks(view, claims)
    ensures Layer(ClaimEdges(claims), p => Level(view, overrides, p), 1)
  {
    forall e | e in ClaimEdges(claims)
      ensures Level(view, overrides, e.0) <= 1 && Level(view, overrides, e.1) == 1
    {
      var i :| 0 <= i < |claims| && claims[i].IsLink() && EdgeOf(claims[i]) == e;
      assert OverflowOwners.OverflowLink(view, claims[i]);
    }
  }

  lemma FreelistLayer(g: Geometry, pages: seq<PageInfo>, overrides: map<nat, AllocationRole>, claims: seq<Claim>)
    requires g.Valid() && Freelist.FreelistLinks(g, pages, overrides, claims)
    ensures Layer(ClaimEdges(claims), p => Level(ApplyOverrides(pages, overrides), overrides, p), 2)
  {
    forall e | e in ClaimEdges(claims)
      ensures e.1 in overrides
    {
      var i :| 0 <= i < |claims| && claims[i].IsLink() && EdgeOf(claims[i]) == e;
      assert Freelist.FreelistLink(g, pages, overrides, claims[i]);
    }
  }

  ghost predicate Layered(a: seq<Relationship>, b: seq<Relationship>, c: seq<Relationship>, level: nat -> nat) {
    && Forest(a) && Forest(b) && Forest(c)
    && Layer(RelationshipEdges(a), level, 0) && Layer(RelationshipEdges(b), level, 1) && Layer(RelationshipEdges(c), level, 2)
  }

  /** The links of the three phases, taken together. */
  lemma PhasesAreLayered(g: Geometry, pages: seq<PageInfo>, overrides: map<nat, AllocationRole>,
                         tree: seq<Claim>, overflow: seq<Claim>, free: seq<Claim>)
    requires g.Valid() && forall p :: p in overrides ==> Listed(pages, p) && p > 1
    requires BtreeClaims.TreeLinks(g.pageCount, ApplyOverrides(pages, overrides), tree)
    requires OverflowOwners.OverflowLinks(ApplyOverrides(pages, overrides), overflow)
    requires Freelist.FreelistLinks(g, pages, overrides, free)
    ensures Layered(Relationships(tree), Relationships(overflow), Relationships(free),
              p => Level(ApplyOverrides(pages, overrides), overrides, p))
  {
    var view := ApplyOverrides(pages, overrides);
    OverridesHide(pages, overrides);
    TreeLayer(g.pageCount, view, overrides, tree);
    OverflowLayer(view, overrides, overflow);
    FreelistLayer(g, pages, overrides, free);
    RelationshipsOfClaims(tree);
    RelationshipsOfClaims(overflow);
    RelationshipsOfClaims(free);
  }

  /** Leaving out links of any phase leaves a forest. */
  lemma SelectedLayers(a0: seq<Relationship>, b0: seq<Relationship>, c0: seq<Relationship>, level: nat -> nat,
                       a: seq<Relationship>, b: seq<Relationship>, c: seq<Relationship>)
    requires Layered(a0, b0, c0, level)
    requires Selected(a, a0) && Selected(b, b0) && Selected(c, c0)
    ensures Forest(a + b + c)
  {
    SelectedKeepsForest(a, a0);
    SelectedKeepsForest(b, b0);
    SelectedKeepsForest(c, c0);
    LayeredForest(a, b, c, level);
  }

  // ---------------------------------------------------------------- the inspection

  /** One relationship per validated claim; an interruption leaves out the later ones. */
  method NormalizeRelationships(claims: seq<Claim>, control: WorkControl) returns (links: seq<Relationship>, complete: bool)
    modifies control`stop, control`failed
    ensures old(control.failed) ==> control.failed
    ensures old(control.stop) ==> control.stop
    ensures !control.failed ==> Selected(links, Relationships(claims))
    ensures !complete ==> control.stop || control.failed
    ensures complete && !control.failed ==> links == Relationships(claims)
  {
    links, complete := [], false;
    NothingSelected(Relationships(claims));
    for n: nat := 0 to |claims|
      invariant old(control.failed) ==> control.failed
      invariant old(control.stop) ==> control.stop
      invariant !control.failed ==> links == Relationships(claims[..n])
    {
      RelationshipsPrefix(claims, n);
      assert claims[..n + 1][..n] == claims[..n];
      var read := control.Access();
      var stopped := control.Stopped();
      if !read || stopped {
        return;
      }
      if claims[n].IsLink() {
        var written := control.Access();
        if written {
          links := links + [RelationshipOf(claims[n])];
        }
      }
    }
    assert claims[..|claims|] == claims;
    AllSelected(Relationships(claims));
    complete := true;
  }

  lemma {:induction false} RelationshipsPrefix(claims: seq<Claim>, n: nat)
    requires n <= |claims|
    ensures Selected(Relationships(claims[..n]), Relationships(claims))
    decreases |claims| - n
  {
    if n == |claims| {
      assert claims[..n] == claims;
      AllSelected(Relationships(claims));
    } else {
      RelationshipsPrefix(claims, n + 1);
      SelectedStep(claims, n);
      SelectedTwice(Relationships(claims[..n]), Relationships(claims[..n + 1]), Relationships(claims));
    }
  }

  lemma SelectedStep(claims: seq<Claim>, n: nat)
    requires n < |claims|
    ensures Selected(Relationships(claims[..n]), Relationships(claims[..n + 1]))
  {
    var links := Relationships(claims[..n]);
    assert claims[..n + 1][..n] == claims[..n];
    AllSelected(links);
    assert claims[n].IsLink() ==> (links + [RelationshipOf(claims[n])])[..|links|] == links;
    assert links + [] == links;
  }

  lemma {:induction false} SelectedTwice<T>(a: seq<T>, b: seq<T>, c: seq<T>)
    requires Selected(a, b) && Selected(b, c)
    ensures Selected(a, c)
  {
    if c != [] {
      var rest := c[..|c| - 1];
      if Selected(b, rest) {
        SelectedTwice(a, b, rest);
      } else if Selected(a, b[..|b| - 1]) {
        SelectedTwice(a, b[..|b| - 1], rest);
      } else {
        SelectedTwice(a[..|a| - 1], b[..|b| - 1], rest);
      }
    }
  }

  // ---------------------------------------------------------------- what traversals rest on

  /** Every step of the prefix is an edge, and so is the step from the origin into it, unless
      the prefix starts on its origin. */
  ghost predicate Backed(edges: set<Edge>, t: Traversal) {
    && (t.prefix != [] ==> IsPath(edges, t.prefix))
    && (t.prefix == [] || t.origin == Page(t.prefix[0]) || (t.origin.page, t.prefix[0]) in edges)
  }

  lemma BackedByMore(small: set<Edge>, large: set<Edge>, t: Traversal)
    requires small <= large && Backed(small, t)
    ensures Backed(large, t)
  {
  }

  lemma TreeBacked(view: seq<PageInfo>, claims: seq<Claim>, t: Traversal)
    requires BtreeTraversal.TreeTraversal(view, claims, t)
    ensures Backed(ClaimEdges(claims), t)
  {
  }

  lemma OverflowBacked(claims: seq<Claim>, t: Traversal)
    requires t.origin.Cell? && OverflowOwners.StepsValid(claims, t.origin, t.prefix)
    ensures Backed(ClaimEdges(claims), t)
  {
    forall k | 0 <= k < |t.prefix| - 1
      ensures (t.prefix[k], t.prefix[k + 1]) in ClaimEdges(claims)
    {
      assert OverflowOwners.HasLink(claims, Page(t.prefix[k]), t.prefix[k + 1]);
      var i :| 0 <= i < |claims| && claims[i].IsLink() && claims[i].source == Page(t.prefix[k]) && claims[i].target.value == t.prefix[k + 1];
      assert EdgeOf(claims[i]) == (t.prefix[k], t.prefix[k + 1]);
    }
    if t.prefix != [] {
      var i :| 0 <= i < |claims| && claims[i].IsLink() && claims[i].source == t.origin && claims[i].target.value == t.prefix[0];
      assert EdgeOf(claims[i]) == (t.origin.page, t.prefix[0]);
    }
  }

  /** A freelist traversal cut before the first page that lost its claim rests on the
      relationships that were kept. */
  lemma CutIsBacked(free: seq<Claim>, ids: set<ClaimId>, t: Traversal, cut: Traversal)
    requires IsPath(ClaimEdges(free), [t.origin.page] + t.prefix) && Storage.CutBefore(free, ids, t, cut)
    ensures Backed(RelationshipEdges(Storage.Without(Relationships(free), ids)), cut)
  {
    var path := [t.origin.page] + t.prefix;
    var kept := Storage.Without(Relationships(free), ids);
    forall k | 0 <= k < |cut.prefix|
      ensures (path[k], path[k + 1]) in RelationshipEdges(kept)
    {
      assert (path[k], path[k + 1]) in ClaimEdges(free);
      var i :| 0 <= i < |free| && free[i].IsLink() && EdgeOf(free[i]) == (path[k], path[k + 1]);
      assert !Storage.Conflicted(free, ids, t.prefix[k]);
      KeptLink(free, ids, i);
    }
    if cut.prefix != [] {
      assert (path[0], path[0 + 1]) in RelationshipEdges(kept);
    }
    forall k | 0 <= k < |cut.prefix| - 1
      ensures (cut.prefix[k], cut.prefix[k + 1]) in RelationshipEdges(kept)
    {
      assert cut.prefix[k] == path[k + 1] && cut.prefix[k + 1] == path[k + 2];
    }
  }

  lemma KeptLink(claims: seq<Claim>, ids: set<ClaimId>, i: nat)
    requires i < |claims| && claims[i].IsLink() && claims[i].id !in ids
    ensures EdgeOf(claims[i]) in RelationshipEdges(Storage.Without(Relationships(claims), ids))
  {
    LinkListed(claims, i);
    var all := Relationships(claims);
    var kept := Storage.Without(all, ids);
    Storage.WithoutMeaning(all, ids);
    assert RelationshipOf(claims[i]) in kept;
    var m :| 0 <= m < |kept| && kept[m] == RelationshipOf(claims[i]);
    assert (kept[m].source.page, kept[m].target) == EdgeOf(claims[i]);
  }

  lemma {:induction false} LinkListed(claims: seq<Claim>, i: nat)
    requires i < |claims| && claims[i].IsLink()
    ensures RelationshipOf(claims[i]) in Relationships(claims)
  {
    if i < |claims| - 1 {
      LinkListed(claims[..|claims| - 1], i);
    }
  }

  /** Links into B-tree pages and overflow pages are never disputed by the freelist. */
  lemma StorageLinksStay(g: Geometry, pages: seq<PageInfo>, overrides: map<nat, AllocationRole>, tree: seq<Claim>, overflow: seq<Claim>)
    requires g.Valid() && forall p :: p in overrides ==> Listed(pages, p) && p > 1
    requires BtreeClaims.TreeLinks(g.pageCount, ApplyOverrides(pages, overrides), tree)
    requires OverflowOwners.OverflowLinks(ApplyOverrides(pages, overrides), overflow)
    ensures forall i :: 0 <= i < |tree + overflow| && (tree + overflow)[i].IsLink() ==> !Storage.Disputes((tree + overflow)[i], overrides)
  {
    var view := ApplyOverrides(pages, overrides);
    OverridesHide(pages, overrides);
    forall i | 0 <= i < |tree + overflow| && (tree + overflow)[i].IsLink()
      ensures !Storage.Disputes((tree + overflow)[i], overrides)
    {
      if i < |tree| {
        assert BtreeClaims.SoundLink(g.pageCount, view, tree[i]);
      } else {
        assert OverflowOwners.OverflowLink(view, overflow[i - |tree|]);
      }
    }
  }

  // ---------------------------------------------------------------- names

  lemma ReconciledNames(pageCount: nat, view: seq<PageInfo>, tree: seq<Claim>)
    requires tree == BtreeClaims.Reconciled(pageCount, view, BtreeClaims.CollectedClaims(view, |view|))
    ensures BtreeClaims.TreeNames(tree)
  {
    hide BtreeClaims.CollectedClaims, BtreeClaims.Reconciled, BtreeClaims.TreeNames, BtreeClaims.FromInventory, SameClaims;
    var collected := BtreeClaims.CollectedClaims(view, |view|);
    BtreeClaims.CollectedClaimsMeaning(view, |view|);
    BtreeClaims.ReconciledIsSame(pageCount, view, collected);
    BtreeClaims.NamedBySource(view, collected, tree);
  }

  lemma OverflowNames(view: seq<PageInfo>, overflow: seq<Claim>)
    requires OverflowOwners.OverflowLinks(view, overflow)
    ensures UniqueNames(overflow)
    ensures forall i :: 0 <= i < |overflow| ==> overflow[i].id.OverflowCellId? || overflow[i].id.OverflowPageId?
  {
    forall i | 0 <= i < |overflow|
      ensures overflow[i].id.OverflowCellId? || overflow[i].id.OverflowPageId?
    {
      assert OverflowOwners.OverflowLink(view, overflow[i]);
    }
  }

  lemma DemotedNames(claims: seq<Claim>, chosen: set<nat>, reason: StopReason)
    ensures var after := Demote(claims, chosen, reason); forall i :: 0 <= i < |after| ==> after[i].id == claims[i].id
    ensures UniqueNames(claims) ==> UniqueNames(Demote(claims, chosen, reason))
  {
  }

  /** The claims of all phases together are named apart. */
  lemma AllNamesApart(view: seq<PageInfo>, tree: seq<Claim>, overflow: seq<Claim>, free0: seq<Claim>,
                      storage: seq<Claim>, a: set<nat>, free: seq<Claim>, b: set<nat>)
    requires BtreeClaims.TreeNames(tree) && OverflowOwners.OverflowLinks(view, overflow) && Freelist.FreelistNames(free0)
    requires storage == Demote(tree + overflow, a, ConflictingClaim) && free == Demote(free0, b, ConflictingClaim)
    ensures UniqueNames(storage + free)
  {
    OverflowNames(view, overflow);
    DemotedNames(tree + overflow, a, ConflictingClaim);
    DemotedNames(free0, b, ConflictingClaim);
    hide OverflowOwners.OverflowLinks, Demote, UniqueNames;
    NamesJoined(tree, overflow);
    NamesJoined(storage, free);
  }

  // ---------------------------------------------------------------- the phases in order

  /** What a phase has to show for itself. */
  datatype Part = Part(claims: seq<Claim>, links: seq<Relationship>, walks: seq<Traversal>)

  /** The budgets of an inspection. */
  datatype Limits = Limits(maxPages: nat, overflowPages: nat, trunks: nat, total: nat)

  /** The B-tree and overflow phases on the view that hides the freelist. */
  datatype Stored = Stored(tree: Part, overflow: Part) {
    function Claims(): seq<Claim> {
      tree.claims + overflow.claims
    }

    function Walks(): seq<Traversal> {
      tree.walks + overflow.walks
    }
  }

  /** All phases, before the freelist is reconciled with what points into it. */
  datatype Phases = Phases(overrides: map<nat, AllocationRole>, stored: Stored, free: Part)

  /** The same claims, links and walks afterwards. */
  datatype Outcome = Outcome(storage: seq<Claim>, walks: seq<Traversal>, free: Part)

  ghost predicate TreesFound(g: Geometry, view: seq<PageInfo>, tree: Part) {
    BtreeClaims.TreeLinks(g.pageCount, view, tree.claims) && Selected(tree.links, Relationships(tree.claims))
  }

  /** The claims are the pointers of the inventory, judged; each walk is a path from a root,
      and no page has two origins. */
  ghost predicate TreesComplete(g: Geometry, view: seq<PageInfo>, tree: Part) {
    && tree.claims == BtreeClaims.Reconciled(g.pageCount, view, BtreeClaims.CollectedClaims(view, |view|))
    && tree.links == Relationships(tree.claims)
    && (forall k :: 0 <= k < |tree.walks| ==> BtreeTraversal.TreeTraversal(view, tree.claims, tree.walks[k]))
    && BtreeTraversal.OneOrigin(tree.walks)
  }

  ghost predicate EveryTreePage(view: seq<PageInfo>, walks: seq<Traversal>) {
    forall page :: HasKind(view, page) ==> page in RecordedPages(walks)
  }

  ghost predicate ChainsFound(view: seq<PageInfo>, overflow: Part) {
    OverflowOwners.OverflowLinks(view, overflow.claims) && Selected(overflow.links, Relationships(overflow.claims))
  }

  /** Every cell with an overflow pointer has its chain; the claims are what the file says; no
      chain ended before its end, and what is left of each is valid. */
  ghost predicate ChainsComplete(u: Overflow.Setting, overflow: Part) {
    && overflow.links == Relationships(overflow.claims)
    && OverflowOwners.Reconciled(u.room, u.pages, overflow.claims, overflow.walks)
    && OverflowPhase.EveryCell(u.pages, overflow.walks)
    && OverflowOwners.Whole(u, overflow.claims, overflow.walks)
  }

  function SettingOf(g: Geometry, view: seq<PageInfo>, words: Freelist.Words, limits: Limits): Overflow.Setting
    requires g.Valid()
  {
    Overflow.Setting(g.pageCount, view, g.usableSize - 4, FirstWords(words), limits.overflowPages)
  }

  ghost predicate StoredFound(g: Geometry, view: seq<PageInfo>, s: Stored) {
    TreesFound(g, view, s.tree) && ChainsFound(view, s.overflow)
  }

  /** What the two phases promise when nothing interrupted them. */
  ghost predicate StoredComplete(g: Geometry, view: seq<PageInfo>, words: Freelist.Words, limits: Limits, s: Stored)
    requires g.Valid()
  {
    TreesComplete(g, view, s.tree) && ChainsComplete(SettingOf(g, view, words, limits), s.overflow)
  }

  /** The B-tree phases: claims, their relationships, and the walks over them. */
  method InspectTrees(g: Geometry, view: seq<PageInfo>, maxPages: nat, maxTotal: nat, control: WorkControl)
    returns (tree: Part, used: nat)
    requires g.Valid()
    modifies control
    ensures old(control.failed) ==> control.failed
    ensures (old(control.stop) ==> control.stop) && (old(control.budget) ==> control.budget)
    ensures Retained(tree.walks) <= used <= maxTotal
    ensures !control.failed ==> TreesFound(g, view, tree)
    ensures !control.failed && !control.stop ==> TreesComplete(g, view, tree)
    ensures |view| == g.pageCount && !control.failed && !control.stop && !control.budget ==> EveryTreePage(view, tree.walks)
  {
    var table := BtreeClaims.CollectBtreeClaims(view, control);
    ghost var collected := table.claims;
    BtreeClaims.ReconciledIsForest(g.pageCount, view, collected);
    BtreeClaims.ValidateBtreeClaims(g.pageCount, view, table);
    var links, complete := NormalizeRelationships(table.claims, control);
    var traversals;
    traversals, used := [], 0;
    var stopped := control.Stopped();
    if complete && !stopped {
      traversals, used := BtreeTraversal.BtreeTraversals(g.pageCount, view, table.claims, |view| == g.pageCount, maxPages, maxTotal, control);
    }
    tree := Part(table.claims, links, traversals);
  }

  lemma {:induction false} RetainedAppend(a: seq<Traversal>, b: seq<Traversal>)
    ensures Retained(a + b) == Retained(a) + Retained(b)
  {
    if b == [] {
      assert a + b == a;
    } else {
      RetainedAppend(a, b[..|b| - 1]);
      assert (a + b)[..|a + b| - 1] == a + b[..|b| - 1];
    }
  }

  lemma {:induction false} RecordedAppend(a: seq<Traversal>, b: seq<Traversal>)
    ensures RecordedPages(a + b) == RecordedPages(a) + RecordedPages(b)
  {
    if b == [] {
      assert a + b == a;
    } else {
      RecordedAppend(a, b[..|b| - 1]);
      assert (a + b)[..|a + b| - 1] == a + b[..|b| - 1];
    }
  }

  function FirstWords(words: Freelist.Words): nat -> Option<nat> {
    p => words(p, 0)
  }

  /** The relationships of the overflow claims, unless the work is already cut short. */
  method NormalizeChains(claims: seq<Claim>, control: WorkControl) returns (links: seq<Relationship>)
    modifies control`stop, control`failed
    ensures old(control.failed) ==> control.failed
    ensures old(control.stop) ==> control.stop
    ensures !control.failed ==> Selected(links, Relationships(claims))
    ensures !control.failed && !control.stop && !control.aggregate ==> links == Relationships(claims)
  {
    NothingSelected(Relationships(claims));
    hide Selected, Relationships;
    links := [];
    var stopped := control.Stopped();
    if !stopped && !control.aggregate {
      var complete;
      links, complete := NormalizeRelationships(claims, control);
    }
  }

  /** The overflow phase and its relationships, unless the work is already cut short. */
  method InspectChains(g: Geometry, view: seq<PageInfo>, words: Freelist.Words, limits: Limits, used: nat, control: WorkControl)
    returns (overflow: Part)
    requires g.Valid() && WellFormed(view) && used <= limits.total
    modifies control
    ensures old(control.failed) ==> control.failed
    ensures old(control.stop) ==> control.stop
    ensures old(control.budget) ==> control.budget
    ensures used + Retained(overflow.walks) <= limits.total
    ensures !control.failed ==> ChainsFound(view, overflow)
    ensures !control.failed && !control.stop && !control.aggregate ==> ChainsComplete(SettingOf(g, view, words, limits), overflow)
  {
    overflow := Part([], [], []);
    NoChains(view);
    hide ChainsFound, ChainsComplete, WellFormed;
    var stopped := control.Stopped();
    if !stopped && !control.aggregate {
      overflow := FollowChains(g, view, words, limits, used, control);
    }
  }

  method FollowChains(g: Geometry, view: seq<PageInfo>, words: Freelist.Words, limits: Limits, used: nat, control: WorkControl)
    returns (overflow: Part)
    requires g.Valid() && WellFormed(view) && used <= limits.total
    modifies control
    ensures old(control.failed) ==> control.failed
    ensures old(control.stop) ==> control.stop
    ensures old(control.budget) ==> control.budget
    ensures used + Retained(overflow.walks) <= limits.total
    ensures !control.failed ==> ChainsFound(view, overflow)
    ensures !control.failed && !control.stop && !control.aggregate ==> ChainsComplete(SettingOf(g, view, words, limits), overflow)
  {
    hide OverflowOwners.OverflowLinks, OverflowOwners.Reconciled, OverflowOwners.Whole, OverflowPhase.EveryCell, Selected, Relationships, Retained, WellFormed;
    assert g.usableSize >= 4;
    var topology := OverflowPhase.InspectOverflow(g.pageCount, view, g.usableSize - 4, FirstWords(words), limits.overflowPages, limits.total, used, control);
    var links := NormalizeChains(topology.table.claims, control);
    overflow := Part(topology.table.claims, links, topology.traversals);
  }

  lemma NoChains(view: seq<PageInfo>)
    ensures ChainsFound(view, Part([], [], [])) && Retained([]) == 0
  {
    NoLinksNoCycles([]);
    NothingSelected(Relationships([]));
  }

  // ---------------------------------------------------------------- what a whole inspection promises

  ghost predicate InFile(pages: seq<PageInfo>, overrides: map<nat, AllocationRole>) {
    forall p :: p in overrides ==> Listed(pages, p) && p > 1
  }

  /** The freelist phase, however it ended. */
  ghost predicate FreeFound(g: Geometry, pages: seq<PageInfo>, overrides: map<nat, AllocationRole>, free: Part)
    requires g.Valid()
  {
    && Freelist.FreelistLinks(g, pages, overrides, free.claims) && Freelist.FreelistNames(free.claims)
    && free.links == Relationships(free.claims)
    && (forall k :: 0 <= k < |free.walks| ==> IsPath(ClaimEdges(free.claims), [free.walks[k].origin.page] + free.walks[k].prefix))
    && (forall k :: 0 <= k < |free.walks| ==> free.walks[k].kind.FreelistChain? && free.walks[k].origin == Page(1))
  }

  ghost predicate Found(g: Geometry, pages: seq<PageInfo>, p: Phases)
    requires g.Valid()
  {
    && InFile(pages, p.overrides) && FreeFound(g, pages, p.overrides, p.free)
    && StoredFound(g, ApplyOverrides(pages, p.overrides), p.stored)
  }

  ghost predicate Reconciled(p: Phases, o: Outcome) {
    Storage.Settled(p.free.claims, p.stored.Claims(), p.overrides, o.free.claims, o.storage, p.free.links, o.free.links,
      p.free.walks, o.free.walks, p.stored.Walks(), o.walks)
  }

  /** An inspection that nothing interrupted, from the first phase to the reconciliation of the
      freelist. */
  ghost predicate Uninterrupted(g: Geometry, pages: seq<PageInfo>, words: Freelist.Words, limits: Limits, p: Phases, o: Outcome)
    requires g.Valid()
  {
    && Found(g, pages, p) && StoredComplete(g, ApplyOverrides(pages, p.overrides), words, limits, p.stored)
    && Reconciled(p, o)
  }

  /** The result, put together from its parts. */
  ghost predicate Assembled(p: Phases, o: Outcome, links: seq<Relationship>, traversals: seq<Traversal>, claims: seq<Claim>) {
    && links == p.stored.tree.links + p.stored.overflow.links + o.free.links
    && traversals == o.walks + o.free.walks
    && claims == o.storage + o.free.claims
  }

  // ---------------------------------------------------------------- backing

  ghost predicate AllBacked(links: seq<Relationship>, traversals: seq<Traversal>, claims: seq<Claim>) {
    && (forall k :: 0 <= k < |traversals| ==> Backed(RelationshipEdges(links), traversals[k]))
    && (forall k :: 0 <= k < |links| ==> HasClaim(claims, links[k]))
  }

  lemma WalksAreBacked(g: Geometry, view: seq<PageInfo>, words: Freelist.Words, limits: Limits, s: Stored, k: nat)
    requires g.Valid() && StoredComplete(g, view, words, limits, s)
    requires k < |s.Walks()|
    ensures Backed(RelationshipEdges(s.tree.links + s.overflow.links), s.Walks()[k])
  {
    hide Backed, OverflowOwners.Whole, OverflowPhase.EveryCell, BtreeClaims.Reconciled, BtreeClaims.CollectedClaims, BtreeTraversal.OneOrigin,
      RelationshipEdges, ClaimEdges, Relationships, OverflowOwners.StepsValid;
    var tree, overflow := s.tree, s.overflow;
    RelationshipsOfClaims(tree.claims);
    RelationshipsOfClaims(overflow.claims);
    EdgesAppend(tree.links, overflow.links);
    if k < |tree.walks| {
      assert BtreeTraversal.TreeTraversal(view, tree.claims, tree.walks[k]);
      TreeBacked(view, tree.claims, tree.walks[k]);
      BackedByMore(ClaimEdges(tree.claims), RelationshipEdges(tree.links + overflow.links), tree.walks[k]);
    } else {
      OverflowBacked(overflow.claims, overflow.walks[k - |tree.walks|]);
      BackedByMore(ClaimEdges(overflow.claims), RelationshipEdges(tree.links + overflow.links), overflow.walks[k - |tree.walks|]);
    }
  }

  lemma RestatedIsBacked(edges: set<Edge>, t: Traversal, ids: set<ClaimId>)
    requires Backed(edges, t)
    ensures Backed(edges, Storage.Restated(t, ids))
  {
  }

  lemma EveryWalkIsBacked(g: Geometry, pages: seq<PageInfo>, words: Freelist.Words, limits: Limits, p: Phases, o: Outcome, k: nat)
    requires g.Valid() && Uninterrupted(g, pages, words, limits, p, o) && k < |o.walks + o.free.walks|
    ensures Backed(RelationshipEdges(p.stored.tree.links + p.stored.overflow.links + o.free.links), (o.walks + o.free.walks)[k])
  {
    hide Backed, StoredComplete, StoredFound, Storage.Conflicts, Storage.Compared, Storage.CutBefore, Storage.Restated, Storage.Without, IsPath,
      Freelist.FreelistLinks, Freelist.FreelistNames, RelationshipEdges, ClaimEdges, Relationships;
    var early, walks := p.stored.tree.links + p.stored.overflow.links, o.walks;
    EdgesAppend(early, o.free.links);
    var edges, ids := RelationshipEdges(early + o.free.links), Storage.Conflicts(p.free.claims, p.stored.Claims(), p.overrides, |p.stored.Claims()|);
    if k < |walks| {
      WalksAreBacked(g, ApplyOverrides(pages, p.overrides), words, limits, p.stored, k);
      RestatedIsBacked(RelationshipEdges(early), p.stored.Walks()[k], ids);
      BackedByMore(RelationshipEdges(early), edges, walks[k]);
    } else {
      CutIsBacked(p.free.claims, ids, p.free.walks[k - |walks|], o.free.walks[k - |walks|]);
      BackedByMore(RelationshipEdges(o.free.links), edges, o.free.walks[k - |walks|]);
    }
  }

  /** Every relationship has a claim that is validated now, and every step of every traversal
      is a relationship. */
  lemma EverythingIsBacked(g: Geometry, pages: seq<PageInfo>, words: Freelist.Words, limits: Limits, p: Phases, o: Outcome)
    requires g.Valid() && Uninterrupted(g, pages, words, limits, p, o)
    ensures AllBacked(p.stored.tree.links + p.stored.overflow.links + o.free.links, o.walks + o.free.walks, o.storage + o.free.claims)
  {
    var links := p.stored.tree.links + p.stored.overflow.links + o.free.links;
    hide HasClaim, Backed, Uninterrupted;
    forall k | 0 <= k < |o.walks + o.free.walks|
      ensures Backed(RelationshipEdges(links), (o.walks + o.free.walks)[k])
    {
      EveryWalkIsBacked(g, pages, words, limits, p, o, k);
    }
    forall k | 0 <= k < |links|
      ensures HasClaim(o.storage + o.free.claims, links[k])
    {
      EveryLinkIsBacked(g, pages, words, limits, p, o, k);
    }
  }

  lemma EveryLinkIsBacked(g: Geometry, pages: seq<PageInfo>, words: Freelist.Words, limits: Limits, p: Phases, o: Outcome, k: nat)
    requires g.Valid() && Uninterrupted(g, pages, words, limits, p, o)
    requires k < |p.stored.tree.links + p.stored.overflow.links + o.free.links|
    ensures HasClaim(o.storage + o.free.claims, (p.stored.tree.links + p.stored.overflow.links + o.free.links)[k])
  {
    hide Relationships, HasClaim, Storage.Without, Storage.Conflicts, BtreeClaims.TreeLinks, OverflowOwners.OverflowLinks, Selected, Demote,
      BtreeClaims.Reconciled, OverflowOwners.Reconciled, OverflowOwners.Whole, OverflowPhase.EveryCell, BtreeTraversal.TreeTraversal, BtreeTraversal.OneOrigin;
    var early := p.stored.tree.links + p.stored.overflow.links;
    if k < |early| {
      StorageLinkStays(g, pages, p.overrides, p.stored.tree.claims, p.stored.overflow.claims, o.storage, o.free.claims, k);
    } else {
      FreeLinkStays(p.free.claims, p.stored.Claims(), p.overrides, o.free.claims, o.storage, k - |early|);
    }
  }

  lemma StorageLinkStays(g: Geometry, pages: seq<PageInfo>, overrides: map<nat, AllocationRole>, tree: seq<Claim>, overflow: seq<Claim>,
                         storage: seq<Claim>, free: seq<Claim>, k: nat)
    requires g.Valid() && forall p :: p in overrides ==> Listed(pages, p) && p > 1
    requires BtreeClaims.TreeLinks(g.pageCount, ApplyOverrides(pages, overrides), tree)
    requires OverflowOwners.OverflowLinks(ApplyOverrides(pages, overrides), overflow)
    requires storage == Demote(tree + overflow, Storage.Disputing(tree + overflow, overrides, |tree + overflow|), ConflictingClaim)
    requires k < |Relationships(tree) + Relationships(overflow)|
    ensures HasClaim(storage + free, (Relationships(tree) + Relationships(overflow))[k])
  {
    var all, link := tree + overflow, (Relationships(tree) + Relationships(overflow))[k];
    RelationshipsOfClaims(tree);
    RelationshipsOfClaims(overflow);
    StorageLinksStay(g, pages, overrides, tree, overflow);
    var i :| 0 <= i < |all| && all[i].IsLink() && RelationshipOf(all[i]) == link by {
      if k < |Relationships(tree)| {
        assert HasClaim(tree, link);
        var i :| 0 <= i < |tree| && tree[i].IsLink() && RelationshipOf(tree[i]) == link;
        assert all[i] == tree[i];
      } else {
        assert HasClaim(overflow, link);
        var i :| 0 <= i < |overflow| && overflow[i].IsLink() && RelationshipOf(overflow[i]) == link;
        assert all[|tree| + i] == overflow[i];
      }
    }
    assert (storage + free)[i] == all[i];
  }

  lemma FreeLinkStays(free0: seq<Claim>, storage0: seq<Claim>, overrides: map<nat, AllocationRole>, free: seq<Claim>, storage: seq<Claim>, k: nat)
    requires free == Demote(free0, Storage.Entering(free0, Storage.DisputedPages(storage0, overrides, |storage0|)), ConflictingClaim)
    requires k < |Storage.Without(Relationships(free0), Storage.Conflicts(free0, storage0, overrides, |storage0|))|
    ensures HasClaim(storage + free, Storage.Without(Relationships(free0), Storage.Conflicts(free0, storage0, overrides, |storage0|))[k])
  {
    var ids := Storage.Conflicts(free0, storage0, overrides, |storage0|);
    var link := Storage.Without(Relationships(free0), ids)[k];
    Storage.WithoutMeaning(Relationships(free0), ids);
    RelationshipsOfClaims(free0);
    assert link in Storage.Without(Relationships(free0), ids);
    assert HasClaim(free0, link);
    var i :| 0 <= i < |free0| && free0[i].IsLink() && RelationshipOf(free0[i]) == link;
    assert free[i] == free0[i];
    assert (storage + free)[|storage| + i] == free[i];
  }

  lemma EveryNameIsUnique(g: Geometry, pages: seq<PageInfo>, words: Freelist.Words, limits: Limits, p: Phases, o: Outcome)
    requires g.Valid() && Uninterrupted(g, pages, words, limits, p, o)
    ensures UniqueNames(o.storage + o.free.claims)
  {
    hide UniqueNames, Relationships, Selected, OverflowOwners.OverflowLinks, BtreeClaims.TreeLinks, BtreeClaims.Reconciled, BtreeClaims.CollectedClaims,
      Demote, OverflowOwners.Reconciled, Freelist.FreelistNames, BtreeClaims.TreeNames;
    var view, storage0 := ApplyOverrides(pages, p.overrides), p.stored.Claims();
    ReconciledNames(g.pageCount, view, p.stored.tree.claims);
    AllNamesApart(view, p.stored.tree.claims, p.stored.overflow.claims, p.free.claims,
      o.storage, Storage.Disputing(storage0, p.overrides, |storage0|),
      o.free.claims, Storage.Entering(p.free.claims, Storage.DisputedPages(storage0, p.overrides, |storage0|)));
  }

  /** Reconciliation takes no page from any storage walk. */
  lemma {:induction false} RestatedPages(before: seq<Traversal>, ids: set<ClaimId>, after: seq<Traversal>)
    requires |after| == |before| && forall k :: 0 <= k < |after| ==> after[k] == Storage.Restated(before[k], ids)
    ensures RecordedPages(after) == RecordedPages(before)
  {
    if after != [] {
      RestatedPages(before[..|before| - 1], ids, after[..|after| - 1]);
    }
  }

  lemma EveryPageRecorded(p: Phases, o: Outcome, view: seq<PageInfo>)
    requires Reconciled(p, o) && EveryTreePage(view, p.stored.tree.walks)
    ensures EveryTreePage(view, o.walks + o.free.walks)
  {
    RestatedPages(p.stored.Walks(), Storage.Conflicts(p.free.claims, p.stored.Claims(), p.overrides, |p.stored.Claims()|), o.walks);
    RecordedAppend(p.stored.tree.walks, p.stored.overflow.walks);
    RecordedAppend(o.walks, o.free.walks);
  }

  // ---------------------------------------------------------------- the inspection

  /** The B-tree and overflow phases on the view that hides the freelist. */
  method InspectStorage(g: Geometry, view: seq<PageInfo>, words: Freelist.Words, limits: Limits, evaluated: nat, control: WorkControl)
    returns (s: Stored)
    requires g.Valid() && WellFormed(view) && evaluated <= limits.total
    modifies control
    ensures old(control.failed) ==> control.failed
    ensures (old(control.stop) ==> control.stop) && (old(control.budget) ==> control.budget)
    ensures evaluated + Retained(s.tree.walks) + Retained(s.overflow.walks) <= limits.total
    ensures !control.failed ==> StoredFound(g, view, s)
    ensures !control.failed && !control.stop && !control.aggregate ==> StoredComplete(g, view, words, limits, s)
    ensures |view| == g.pageCount && !control.failed && !control.stop && !control.budget ==> EveryTreePage(view, s.tree.walks)
  {
    hide TreesFound, TreesComplete, ChainsFound, ChainsComplete, Retained, EveryTreePage, WellFormed;
    var tree, used := InspectTrees(g, view, limits.maxPages, limits.total - evaluated, control);
    var overflow := InspectChains(g, view, words, limits, used + evaluated, control);
    s := Stored(tree, overflow);
  }

  /** What the freelist's one traversal retains, and that it is a path of links. */
  lemma FreelistWalks(g: Geometry, pages: seq<PageInfo>, s: Freelist.State, evaluated: nat, maxTotal: nat,
                      traversals: seq<Traversal>, trunks: seq<nat>, kept: nat)
    requires g.Valid() && Freelist.FreelistResult(g, pages, s, evaluated, maxTotal, traversals, trunks, kept)
    ensures Retained(traversals) <= evaluated <= maxTotal
    ensures forall k :: 0 <= k < |traversals| ==> traversals[k].kind.FreelistChain? && traversals[k].origin == Page(1)
    ensures IsPath(ClaimEdges(s.claims), [1] + trunks[..kept]) ==>
      forall k :: 0 <= k < |traversals| ==> IsPath(ClaimEdges(s.claims), [traversals[k].origin.page] + traversals[k].prefix)
  {
    hide IsPath, Freelist.Distinct;
    if traversals != [] {
      assert Retained(traversals[..0]) == 0;
      assert [traversals[0].origin.page] + traversals[0].prefix == [1] + trunks[..kept];
    }
  }

  lemma FreelistForest(g: Geometry, pages: seq<PageInfo>, overrides: map<nat, AllocationRole>, claims: seq<Claim>)
    requires g.Valid() && Freelist.FreelistLinks(g, pages, overrides, claims)
    ensures Forest(Relationships(claims))
  {
    RelationshipsOfClaims(claims);
  }

  /** The freelist phase: the walk, its claims and their relationships. */
  method FollowFreelist(g: Geometry, pages: seq<PageInfo>, words: Freelist.Words, limits: Limits, control: WorkControl)
    returns (free: Part, overrides: map<nat, AllocationRole>, evaluated: nat, complete: bool, table: ClaimTable)
    requires g.Valid()
    modifies control
    ensures old(control.failed) ==> control.failed
    ensures fresh(table) && table.control == control && table.claims == free.claims
    ensures InFile(pages, overrides) && Retained(free.walks) <= evaluated <= limits.total && Forest(free.links)
    ensures !control.failed ==> FreeFound(g, pages, overrides, free)
    ensures Freelist.Undisturbed(g, pages, words, control) ==>
      && words(1, 32).Some? && words(1, 36).Some?
      && (complete <==> Freelist.HasSoundFreelist(g, words, words(1, 32).value, words(1, 36).value))
  {
    hide Forest, Freelist.FreelistLinks, Freelist.FreelistNames, Freelist.FreelistResult, Freelist.LongestPrefix, Freelist.SoundFreelist,
      Freelist.HasSoundFreelist, Relationships, IsPath, Retained;
    table := new ClaimTable(control);
    ghost var trunks, kept;
    var walk;
    walk, trunks, kept := Freelist.Inspect(g, pages, words, limits.total, limits.trunks, table);
    FreelistWalks(g, pages, walk.Now(), walk.evaluated, limits.total, walk.traversals, trunks, kept);
    FreelistForest(g, pages, walk.overrides, table.claims);
    free := Part(table.claims, Relationships(table.claims), walk.traversals);
    overrides, evaluated, complete := walk.overrides, walk.evaluated, walk.reason == Freelist.Complete;
  }

  /** The freelist of the file is sound and nothing else claims a page of it. */
  ghost predicate SoundAndUndisputed(g: Geometry, words: Freelist.Words, p: Phases)
    requires g.Valid()
  {
    && words(1, 32).Some? && words(1, 36).Some?
    && Freelist.HasSoundFreelist(g, words, words(1, 32).value, words(1, 36).value)
    && Storage.Conflicts(p.free.claims, p.stored.Claims(), p.overrides, |p.stored.Claims()|) == {}
  }

  /** The result of a topology inspection; `freelist` says that the freelist was followed to its
      end and nothing disputes it. */
  datatype Result = Result(links: seq<Relationship>, traversals: seq<Traversal>, claims: seq<Claim>, freelist: bool)

  /** Inspects a file. However it is interrupted, the relationships of all kinds together are
      a forest and the page identities retained by all traversals are within the ceiling,
      unless the private store failed. When nothing interrupts it, the result is put together
      from complete phases: every pointer of the inventory was judged, every cell's chain was
      followed as far as it is sound, every relationship has a claim validated to the end, and
      every step of every traversal is one of the relationships. If the inventory is complete
      and no budget was binding either, no B-tree page is missed, and the freelist counts as
      complete exactly when it is sound and undisputed. */
  method Inspect(g: Geometry, pages: seq<PageInfo>, words: Freelist.Words, limits: Limits, control: WorkControl)
    returns (r: Result, ghost p: Phases, ghost o: Outcome)
    requires g.Valid() && WellFormed(pages)
    modifies control
    ensures old(control.failed) ==> control.failed
    ensures Retained(r.traversals) <= limits.total
    ensures !control.failed ==> Forest(r.links)
    ensures !control.failed && !control.stop && !control.aggregate ==>
      && Uninterrupted(g, pages, words, limits, p, o) && Assembled(p, o, r.links, r.traversals, r.claims)
      && AllBacked(r.links, r.traversals, r.claims) && UniqueNames(r.claims)
    ensures !control.failed && !control.stop && !control.budget && !control.aggregate && |pages| == g.pageCount ==>
      EveryTreePage(ApplyOverrides(pages, p.overrides), r.traversals)
    ensures Freelist.Undisturbed(g, pages, words, control) && !control.aggregate ==> (r.freelist <==> SoundAndUndisputed(g, words, p))
  {
    hide Forest, AllBacked, FreeFound, InFile, Freelist.HasSoundFreelist, Freelist.Readable, Relationships, Retained, UniqueNames,
      StoredFound, StoredComplete, EveryTreePage, Reconciled, Uninterrupted, Assembled, Storage.Conflicts, WellFormed;
    NothingFound();
    var nothing := Part([], [], []);
    r, p, o := Result([], [], [], false), Phases(map[], Stored(nothing, nothing), nothing), Outcome([], [], nothing);
    var granted := control.ReserveMemory();
    if granted {
      var free, overrides, evaluated, complete, table := FollowFreelist(g, pages, words, limits, control);
      r := Result(free.links, free.walks, free.claims, complete);
      var stopped := control.Stopped();
      if !stopped && !control.aggregate {
        r, p, o := InspectRest(g, pages, words, limits, overrides, evaluated, free, complete, table);
      }
    }
  }

  lemma NothingFound()
    ensures Forest([]) && Retained([]) == 0
  {
    NoLinksNoCycles([]);
    RelationshipsOfClaims([]);
  }

  /** Everything after the freelist walk. */
  method InspectRest(g: Geometry, pages: seq<PageInfo>, words: Freelist.Words, limits: Limits, overrides: map<nat, AllocationRole>,
                     evaluated: nat, free: Part, complete: bool, table: ClaimTable)
    returns (r: Result, ghost p: Phases, ghost o: Outcome)
    requires g.Valid() && WellFormed(pages) && InFile(pages, overrides) && table.claims == free.claims
    requires Retained(free.walks) <= evaluated <= limits.total
    requires !table.control.failed ==> FreeFound(g, pages, overrides, free)
    modifies table`claims, table.control
    ensures old(table.control.failed) ==> table.control.failed
    ensures (old(table.control.stop) ==> table.control.stop) && (old(table.control.budget) ==> table.control.budget)
    ensures Retained(r.traversals) <= limits.total
    ensures !table.control.failed ==> Forest(r.links)
    ensures !table.control.failed && !table.control.stop && !table.control.aggregate ==>
      && Uninterrupted(g, pages, words, limits, p, o) && Assembled(p, o, r.links, r.traversals, r.claims)
      && AllBacked(r.links, r.traversals, r.claims) && UniqueNames(r.claims)
      && (r.freelist <==> complete && Storage.Conflicts(p.free.claims, p.stored.Claims(), p.overrides, |p.stored.Claims()|) == {})
    ensures !table.control.failed && !table.control.stop && !table.control.budget && !table.control.aggregate && |pages| == g.pageCount ==>
      EveryTreePage(ApplyOverrides(pages, p.overrides), r.traversals)
  {
    hide Forest, AllBacked, StoredComplete, StoredFound, FreeFound, Reconciled, Retained, UniqueNames, EveryTreePage, Storage.Conflicts, WellFormed;
    var view := ApplyOverrides(pages, overrides);
    var stored := InspectStorage(g, view, words, limits, evaluated, table.control);
    var storage := new ClaimTable(table.control);
    storage.claims := stored.Claims();
    p := Phases(overrides, stored, free);
    ghost var early := stored.tree.walks;
    RetainedAppend(stored.tree.walks, stored.overflow.walks);
    r, o := Join(g, pages, p, stored, overrides, free, complete, storage, table);
    if !table.control.failed && !table.control.stop && !table.control.aggregate {
      EverythingIsBacked(g, pages, words, limits, p, o);
      EveryNameIsUnique(g, pages, words, limits, p, o);
      if |pages| == g.pageCount && !table.control.budget {
        EveryPageRecorded(p, o, view);
      }
    }
  }

  /** Reconciles the freelist and puts the parts together. */
  method Join(ghost g: Geometry, ghost pages: seq<PageInfo>, ghost p: Phases, stored: Stored, overrides: map<nat, AllocationRole>, free: Part,
              complete: bool, storage: ClaimTable, table: ClaimTable)
    returns (r: Result, ghost o: Outcome)
    requires g.Valid() && p == Phases(overrides, stored, free)
    requires storage != table && storage.control == table.control && storage.claims == stored.Claims() && table.claims == free.claims
    requires !table.control.failed ==> Found(g, pages, p)
    modifies storage`claims, table`claims, table.control`stop, table.control`failed
    ensures old(table.control.failed) ==> table.control.failed
    ensures old(table.control.stop) ==> table.control.stop
    ensures Retained(r.traversals) <= Retained(stored.Walks()) + Retained(free.walks)
    ensures Assembled(p, o, r.links, r.traversals, r.claims)
    ensures !table.control.failed ==> Forest(r.links)
    ensures !table.control.failed && !table.control.stop && !table.control.aggregate ==>
      && Reconciled(p, o)
      && (r.freelist <==> complete && Storage.Conflicts(p.free.claims, p.stored.Claims(), p.overrides, |p.stored.Claims()|) == {})
  {
    hide Forest, FreeFound, StoredFound, Storage.Settled, Storage.Conflicts, Retained, Relationships, Selected, Found;
    AllSelected(free.links);
    var freeLinks, freeWalks, walks, clean := free.links, free.walks, stored.Walks(), true;
    var stopped := table.control.Stopped();
    if !stopped && !table.control.aggregate {
      var disputed;
      freeLinks, freeWalks, walks, disputed, clean := Storage.ReconcileStorage(storage, table, overrides, freeLinks, freeWalks, walks);
    }
    o := Outcome(storage.claims, walks, Part(table.claims, freeLinks, freeWalks));
    r := Result(stored.tree.links + stored.overflow.links + freeLinks, walks + freeWalks, storage.claims + table.claims, complete && clean);
    RetainedAppend(walks, freeWalks);
    if !table.control.failed {
      FinishedForest(g, pages, p, freeLinks);
    }
  }

  lemma FinishedForest(g: Geometry, pages: seq<PageInfo>, p: Phases, freeLinks: seq<Relationship>)
    requires g.Valid() && Found(g, pages, p) && Selected(freeLinks, p.free.links)
    ensures Forest(p.stored.tree.links + p.stored.overflow.links + freeLinks)
  {
    hide Forest, Selected, Relationships, BtreeClaims.TreeLinks, OverflowOwners.OverflowLinks, Freelist.FreelistLinks, Layered;
    var tree, overflow := p.stored.tree, p.stored.overflow;
    PhasesAreLayered(g, pages, p.overrides, tree.claims, overflow.claims, p.free.claims);
    SelectedLayers(Relationships(tree.claims), Relationships(overflow.claims), p.free.links,
      q => Level(ApplyOverrides(pages, p.overrides), p.overrides, q), tree.links, overflow.links, freeLinks);
  }
}
