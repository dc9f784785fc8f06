/** Claims, relationships and traversals, and what it means for links between pages to form
    a forest. */
module ClaimGraph {
  import opened Wrappers

  datatype Entity = Page(page: nat) | Cell(page: nat, cell: nat)

  datatype RelationshipKind = BtreeChild | FreelistTrunk | FreelistLeaf | Overflow

  datatype RelationshipState = Validated | Unresolved | Invalid | Conflicting | Terminal

  datatype StopReason =
    | MissingTarget
    | OutOfRange
    | CoverageStop
    | InvalidReference
    | TypeMismatch
    | Cycle
    | ConflictingClaim
    | OverlappingExtent
    | Budget
    | Cancelled

  /** Claim names. The source prints the kind and the numbers into one string; each name
      gives back its parts. */
  datatype ClaimId =
    | BtreeCellId(page: nat, cell: nat)
    | BtreeRightmostId(page: nat)
    | OverflowCellId(page: nat, cell: nat)
    | OverflowPageId(page: nat)
    | FreelistId(page: nat, offset: nat)
    | PageRoleId(page: nat)

  datatype Claim = Claim(
    id: ClaimId,
    kind: RelationshipKind,
    source: Entity,
    target: Option<nat>,
    state: RelationshipState,
    stop: Option<StopReason>
  ) {
    /** A claim that authorizes a link. */
    predicate IsLink() {
      state.Validated? && target.Some?
    }
  }

  datatype Relationship = Relationship(claimId: ClaimId, kind: RelationshipKind, source: Entity, target: nat)

  datatype TraversalKind = BtreeTree | FreelistChain | OverflowChain

  datatype TraversalStop = TraversalStop(reason: StopReason, claimId: ClaimId, target: Option<nat>)

  datatype Traversal = Traversal(kind: TraversalKind, origin: Entity, prefix: seq<nat>, stop: Option<TraversalStop>)

  function RelationshipOf(c: Claim): Relationship
    requires c.IsLink()
  {
    Relationship(c.id, c.kind, c.source, c.target.value)
  }

  /** `normalize_relationships` without interruption: one relationship per validated claim. */
  function Relationships(claims: seq<Claim>): seq<Relationship> {
    if claims == [] then []
    else
      var last := claims[|claims| - 1];
      Relationships(claims[..|claims| - 1]) + (if last.IsLink() then [RelationshipOf(last)] else [])
  }

  /** A claim is known by its name. */
  ghost predicate UniqueNames(claims: seq<Claim>) {
    forall i, j :: 0 <= i < j < |claims| ==> claims[i].id != claims[j].id
  }

  lemma NamesJoined(a: seq<Claim>, b: seq<Claim>)
    requires UniqueNames(a) && UniqueNames(b)
    requires forall i, j :: 0 <= i < |a| && 0 <= j < |b| ==> a[i].id != b[j].id
    ensures UniqueNames(a + b)
  {
  }

  type Edge = (nat, nat)

  ghost function EdgeOf(c: Claim): Edge
    requires c.IsLink()
  {
    (c.source.page, c.target.value)
  }

  ghost function ClaimEdges(claims: seq<Claim>): set<Edge> {
    set i | 0 <= i < |claims| && claims[i].IsLink() :: EdgeOf(claims[i])
  }

  ghost function RelationshipEdges(links: seq<Relationship>): set<Edge> {
    set i | 0 <= i < |links| :: (links[i].source.page, links[i].target)
  }

  ghost predicate IsPath(edges: set<Edge>, path: seq<nat>) {
    |path| >= 1 && forall k :: 0 <= k < |path| - 1 ==> (path[k], path[k + 1]) in edges
  }

  /** No page reaches itself. */
  ghost predicate Acyclic(edges: set<Edge>) {
    forall path :: IsPath(edges, path) && |path| >= 2 ==> path[0] != path[|path| - 1]
  }

  /** No two links enter the same page. */
  ghost predicate SingleOwner(claims: seq<Claim>) {
    forall i, j :: 0 <= i < j < |claims| && claims[i].IsLink() && claims[j].IsLink()
      ==> claims[i].target != claims[j].target
  }

  ghost predicate SingleOwnerLinks(links: seq<Relationship>) {
    forall i, j :: 0 <= i < j < |links| ==> links[i].target != links[j].target
  }

  ghost predicate Forest(links: seq<Relationship>) {
    SingleOwnerLinks(links) && Acyclic(RelationshipEdges(links))
  }

  lemma AcyclicSubset(small: set<Edge>, large: set<Edge>)
    requires small <= large
    requires Acyclic(large)
    ensures Acyclic(small)
  {
    forall path | IsPath(small, path) && |path| >= 2
      ensures path[0] != path[|path| - 1]
    {
      assert IsPath(large, path);
    }
  }

  lemma NoLinksNoCycles(claims: seq<Claim>)
    requires forall i :: 0 <= i < |claims| ==> !claims[i].IsLink()
    ensures SingleOwner(claims) && Acyclic(ClaimEdges(claims))
  {
    forall path: seq<nat> | |path| >= 2
      ensures !IsPath(ClaimEdges(claims), path)
    {
      assert (path[0], path[0 + 1]) !in ClaimEdges(claims);
    }
  }

  ghost function PagesUpTo(n: nat): (r: set<nat>)
    ensures |r| == n
    ensures forall p :: p in r <==> 1 <= p <= n
  {
    if n == 0 then {} else PagesUpTo(n - 1) + {n}
  }

  /** A duplicate-free list of page numbers is no longer than the pages it is taken from. */
  lemma {:induction false} DistinctFit(path: seq<nat>, pages: set<nat>)
    requires forall a, b :: 0 <= a < b < |path| ==> path[a] != path[b]
    requires forall k :: 0 <= k < |path| ==> path[k] in pages
    ensures |path| <= |pages|
  {
    if path != [] {
      var last := |path| - 1;
      DistinctFit(path[..last], pages - {path[last]});
    }
  }

  /** In a finite file, links without cycles cannot be followed more often than there are
      pages. */
  lemma PathsFit(edges: set<Edge>, path: seq<nat>, n: nat)
    requires Acyclic(edges) && IsPath(edges, path)
    requires forall k :: 0 <= k < |path| ==> 1 <= path[k] <= n
    ensures |path| <= n
  {
    forall a, b | 0 <= a < b < |path|
      ensures path[a] != path[b]
    {
      var part := path[a..b + 1];
      forall k | 0 <= k < |part| - 1
        ensures (part[k], part[k + 1]) in edges
      {
        assert (path[a + k], path[a + k + 1]) in edges;
      }
      assert IsPath(edges, part);
    }
    DistinctFit(path, PagesUpTo(n));
  }

  // ---------------------------------------------------------------- what traversals retain

  /** The page identities held by all recorded prefixes together. */
  function Retained(traversals: seq<Traversal>): nat {
    if traversals == [] then 0 else Retained(traversals[..|traversals| - 1]) + |traversals[|traversals| - 1].prefix|
  }

  ghost function PagesOf(prefix: seq<nat>): set<nat> {
    set page | page in prefix
  }

  ghost function RecordedPages(traversals: seq<Traversal>): set<nat> {
    if traversals == [] then {}
    else RecordedPages(traversals[..|traversals| - 1]) + PagesOf(traversals[|traversals| - 1].prefix)
  }

  lemma RecordPush(traversals: seq<Traversal>, t: Traversal)
    ensures Retained(traversals + [t]) == Retained(traversals) + |t.prefix|
    ensures RecordedPages(traversals + [t]) == RecordedPages(traversals) + PagesOf(t.prefix)
  {
    assert (traversals + [t])[..|traversals|] == traversals;
  }
}
