/** What a published revision holds: the inspection of the file, contained when the spill budget
    failed, and the schema attribution on top of it. */
module RevisionContents {
  import opened Wrappers
  import opened Control
  import opened ClaimGraph
  import opened Inventory
  import opened FileGeometry
  import opened Inspection
  import opened LinkForest
  import BtreeTraversal
  import Freelist
  import OverflowOwners
  import OverflowPhase
  import RolePropagation
  import RoleReconciliation
  import Schema
  import SelectedCell
  import Storage = StorageReconciliation
  import Topology

  function GraphOf(r: Result, complete: bool, wholePages: set<nat>): Schema.Graph {
    Schema.Graph(r.pageRoles, r.links, r.claims, r.traversals, complete, wholePages)
  }

  ghost predicate RootFirst(t: Traversal) {
    t.kind.BtreeTree? && t.prefix != [] ==> t.origin.page == t.prefix[0]
  }

  lemma StoredRootFirst(g: Geometry, o: Observed, limits: Topology.Limits, t: Trace, k: nat)
    requires g.Valid() && TopologyDone(g, o, limits, t) && k < |t.phases.stored.Walks()|
    ensures RootFirst(t.phases.stored.Walks()[k])
  {
    hide Forest, UniqueNames, Topology.AllBacked, Topology.EveryTreePage, Topology.StoredFound, Topology.FreeFound, Topology.Reconciled,
      BtreeTraversal.OneOrigin, Relationships, OverflowOwners.Whole, OverflowPhase.EveryCell;
    var s := t.phases.stored;
    if k < |s.tree.walks| {
      assert BtreeTraversal.TreeTraversal(ApplyOverrides(o.pages, t.phases.overrides), s.tree.claims, s.tree.walks[k]);
    }
  }

  lemma StartRootFirst(g: Geometry, o: Observed, limits: Topology.Limits, t: Trace, k: nat)
    requires g.Valid() && TopologyDone(g, o, limits, t) && k < |t.start.traversals|
    ensures RootFirst(t.start.traversals[k])
  {
    hide Forest, UniqueNames, Topology.AllBacked, Topology.EveryTreePage, Topology.Found, Topology.StoredComplete, RootFirst,
      Storage.Compared, Storage.Conflicts, Storage.Without;
    SelectedCell.OtherOrigins(g, o, limits, t);
    var walks := t.outcome.walks;
    if k < |walks| {
      StoredRootFirst(g, o, limits, t, k);
      RestatedRootFirst(t.phases.stored.Walks()[k], walks[k]);
    } else {
      FreeRootFirst(t.outcome.free.walks[k - |walks|]);
    }
  }

  lemma RestatedRootFirst(t: Traversal, u: Traversal)
    requires RootFirst(t) && u.kind == t.kind && u.origin == t.origin && u.prefix <= t.prefix
    ensures RootFirst(u)
  {
  }

  lemma FreeRootFirst(t: Traversal)
    requires t.kind.FreelistChain?
    ensures RootFirst(t)
  {
  }

  /** A completed inspection is what schema attribution needs. */
  lemma CompletedFeedsSchema(g: Geometry, o: Observed, limits: Topology.Limits, t: Trace, r: Result, complete: bool, wholePages: set<nat>)
    requires g.Valid() && Completed(g, o, limits, t, r) && Settled(r)
    ensures Schema.FromClaims(GraphOf(r, complete, wholePages))
  {
    hide TopologyDone, MapsDone, RoleReconciliation.Reconciled, HasClaim, RootFirst, UniqueNames, Undisputed, RoleReconciliation.ValidNames,
      RolePropagation.EntriesWeakened, RoleReconciliation.Boundary, RoleReconciliation.Unfounded;
    forall k | 0 <= k < |r.traversals|
      ensures RootFirst(r.traversals[k])
    {
      StartRootFirst(g, o, limits, t, k);
      RestatedRootFirst(t.start.traversals[k], r.traversals[k]);
    }
    RootsFirst(r, complete, wholePages);
  }

  lemma RootsFirst(r: Result, complete: bool, wholePages: set<nat>)
    requires SingleOwnerLinks(r.links) && (forall k :: 0 <= k < |r.links| ==> HasClaim(r.claims, r.links[k]))
    requires forall k :: 0 <= k < |r.traversals| ==> RootFirst(r.traversals[k])
    ensures Schema.FromClaims(GraphOf(r, complete, wholePages))
  {
  }

  lemma NothingFeedsSchema(r: Result, complete: bool, wholePages: set<nat>)
    requires r.links == [] && r.traversals == []
    ensures Schema.FromClaims(GraphOf(r, complete, wholePages))
  {
  }

  /** What a session keeps of an inspection when the store failed: a failure of the spill budget
      drops relationships, traversals and page roles, keeps the claims and the map entries,
      and is then cleared; any other failure ends the session. */
  method ContainStorageStop(r0: Result, control: WorkControl) returns (r: Result, fatal: bool)
    modifies control`failed
    ensures !old(control.failed) ==> r == r0 && !fatal
    ensures fatal ==> control.unavailable
    ensures old(control.failed) && !fatal ==> r == Result([], [], r0.claims, r0.maps, [])
    ensures !fatal ==> !control.failed
  {
    r, fatal := r0, false;
    if control.failed {
      if control.unavailable {
        fatal := *;
      }
      if !fatal {
        r := Result([], [], r0.claims, r0.maps, []);
        control.ClearBudgetStop();
      }
    }
  }

  /** Everything a scan puts into a revision. Whatever interrupted it, and also when the spill
      budget failed in any phase, the published relationships form a forest, the traversals
      stay within the ceiling, the published attribution is sound, and a page is listed for a
      declaration exactly when the declaration is listed for that page. */
  method InspectRevision(g: Geometry, o: Observed, limits: Topology.Limits, decoded: seq<Schema.Object>, wholePages: set<nat>, control: WorkControl)
    returns (published: bool, r: Result, trees: Schema.TreeIndex, objects: seq<Schema.Object>, attributions: set<(nat, nat)>,
             available: bool, ghost graph: Schema.Graph)
    requires g.Valid() && o.Valid(g)
    requires forall i :: 0 <= i < |decoded| ==> decoded[i].root.None? && decoded[i].through.None?
    modifies control
    ensures published ==> Forest(r.links) && Retained(r.traversals) <= limits.total
    ensures published ==> graph.links == r.links && graph.claims == r.claims && graph.traversals == r.traversals && graph.roles == r.pageRoles
    ensures published && available ==>
      && Schema.ExactIndex(graph, trees) && Schema.Published(graph, trees, objects, attributions)
      && Schema.Agree(objects, trees.members, attributions)
  {
    hide Forest, Retained, Completed, Settled, Schema.FromClaims, Schema.ExactIndex, Schema.Published, Schema.Agree, Schema.NothingLost;
    ghost var t;
    var settled;
    r, settled, t := InspectFile(g, o, limits, control);
    ghost var whole := settled && !control.failed;
    ghost var found := r;
    var fatal;
    r, fatal := ContainStorageStop(r, control);
    Topology.NothingFound();
    trees, objects, attributions, available := Schema.TreeIndex(map[], {}, {}), [], {}, false;
    graph := GraphOf(r, !control.budget, wholePages);
    published := !fatal;
    if published {
      if whole {
        CompletedFeedsSchema(g, o, limits, t, r, !control.budget, wholePages);
      } else if r.pageRoles != [] {
        NothingFeedsSchema(r, !control.budget, wholePages);
      }
      ghost var lost;
      trees, objects, attributions, available, lost := Schema.AttributeSchema(GraphOf(r, !control.budget, wholePages), decoded, control);
      published := PublishSchema(control);
    }
  }

  /** A failure of the spill budget during attribution is cleared, and the schema published as
      it is; any other failure ends the session. */
  method PublishSchema(control: WorkControl) returns (published: bool)
    modifies control`failed
    ensures published <==> !old(Schema.MayLose(control))
    ensures published ==> !control.failed
  {
    published := !(control.failed && control.unavailable);
    if published && control.failed {
      control.ClearBudgetStop();
    }
  }
}
