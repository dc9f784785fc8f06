/** A whole inspection: topology, pointer maps and page roles, one after the other. */
module Inspection {
  import opened Wrappers
  import opened Bytes
  import opened Control
  import opened ClaimGraph
  import opened ClaimTables
  import opened Inventory
  import opened FileGeometry
  import opened LinkForest
  import Freelist
  import M = MapReconciliation
  import OverflowOwners
  import PointerMap
  import RoleCollection
  import RolePropagation
  import RoleReconciliation
  import Roles
  import Topology

  /** What the file shows and how much of it was listed and decoded. */
  datatype Observed = Observed(
    file: seq<Byte>,
    words: Freelist.Words,
    declaredPages: nat,
    pages: seq<PageInfo>,
    /** The roles that each page's own bytes speak for. */
    local: seq<seq<Roles.RoleClaim>>
  ) {
    ghost predicate Valid(g: Geometry) {
      && WellFormed(pages) && |local| == |pages|
      && (forall p :: 0 <= p < |local| ==> RoleCollection.NotFromClaims(local[p]))
      && WordsOf(g, file, words)
    }
  }

  /** A word that can be read is the one that the file holds there. */
  ghost predicate WordsOf(g: Geometry, file: seq<Byte>, words: Freelist.Words) {
    forall page: nat, offset: nat :: words(page, offset).Some? ==>
      && page >= 1 && PointerMap.FileOffset(g, page, offset) + 4 <= |file|
      && words(page, offset).value == Big32(file, PointerMap.FileOffset(g, page, offset))
  }

  datatype Result = Result(
    links: seq<Relationship>,
    traversals: seq<Traversal>,
    claims: seq<Claim>,
    maps: seq<PointerMap.MapPage>,
    pageRoles: seq<Roles.PageRole>
  )

  // ---------------------------------------------------------------- the maps

  /** What a completed comparison of the pointer maps with the claims leaves: every entry found
      in the file was checked on its own and then judged by the claims, and exactly the claims
      on the pages of refuted entries were withdrawn. */
  ghost predicate MapsCompared(g: Geometry, before: seq<Claim>, found: seq<PointerMap.MapPage>, checked: seq<PointerMap.MapPage>,
                               evaluated: bool, maps: seq<PointerMap.MapPage>, after: seq<Claim>)
    requires g.Valid()
  {
    && PointerMap.MapsApart(g, found) && M.SameMaps(found, checked)
    && (forall m :: 0 <= m < |checked| ==> M.Checked(g, found[m].entries, |found[m].entries|, checked[m].entries))
    && M.MapsJudged(before, checked, evaluated, maps)
    && after == M.Disputed(before, M.RefutedIn(before, checked, |checked|, evaluated))
    && M.MapsAgree(after, maps)
  }

  /** Reads the pointer maps and checks them against the claims. `evaluated` says that every
      link of the file was looked at. */
  method InspectMaps(g: Geometry, o: Observed, table: ClaimTable, evaluated: bool)
    returns (maps: seq<PointerMap.MapPage>, complete: bool, ghost found: seq<PointerMap.MapPage>, ghost checked: seq<PointerMap.MapPage>)
    requires g.Valid()
    modifies table`claims, table.control`stop, table.control`failed
    ensures old(table.control.failed) ==> table.control.failed
    ensures old(table.control.stop) ==> table.control.stop
    ensures !table.control.failed ==> M.OnlyDemoted(old(table.claims), table.claims)
    ensures !complete ==> table.control.stop || table.control.failed
    ensures complete ==> !table.control.stop
    ensures complete && !table.control.failed ==> MapsCompared(g, old(table.claims), found, checked, evaluated, maps, table.claims)
  {
    M.UnchangedDemotes(table.claims);
    hide M.OnlyDemoted, M.MapsAgree, M.Checked, M.MapsJudged, M.Disputed, PointerMap.MapsApart, M.SameMaps;
    PointerMap.NoMapYet(g);
    maps := [];
    if g.largestRoot != 0 {
      var read;
      maps, read := PointerMap.InspectMaps(g, o.file, o.declaredPages, |o.pages|, table.control);
    }
    found := maps;
    maps, complete := M.ValidateMaps(g, maps, table.control);
    checked := maps;
    if complete {
      M.SameMapsApart(g, found, maps);
      maps, complete := M.ReconcileMaps(g, maps, table, evaluated);
    }
  }

  lemma DemotedIsWeakened(before: seq<Claim>, after: seq<Claim>)
    requires M.OnlyDemoted(before, after)
    ensures RolePropagation.Weakened(before, after)
    ensures UniqueNames(before) ==> UniqueNames(after)
  {
    forall i | 0 <= i < |after|
      ensures RolePropagation.WeakenedClaim(before[i], after[i]) && after[i].id == before[i].id
    {
    }
  }

  lemma WeakenedNames(before: seq<Claim>, after: seq<Claim>)
    requires RolePropagation.Weakened(before, after) && UniqueNames(before)
    ensures UniqueNames(after)
  {
    forall i | 0 <= i < |after|
      ensures after[i].id == before[i].id
    {
      assert RolePropagation.WeakenedClaim(before[i], after[i]);
    }
  }

  // ---------------------------------------------------------------- the roles

  /** The maps with the verdicts that the role phase left. */
  function Restated(maps: seq<PointerMap.MapPage>, states: seq<seq<RelationshipState>>): (r: seq<PointerMap.MapPage>)
    requires |states| == |maps| && forall m :: 0 <= m < |maps| ==> |states[m]| == |maps[m].entries|
    ensures M.SameMaps(maps, r) && RoleReconciliation.AllStates(r) == states
  {
    var r := seq(|maps|, m requires 0 <= m < |maps| =>
      maps[m].(entries := seq(|maps[m].entries|, e requires 0 <= e < |maps[m].entries| => maps[m].entries[e].(state := states[m][e]))));
    assert forall m :: 0 <= m < |maps| ==> RoleReconciliation.EntryStates(r[m].entries) == states[m];
    r
  }

  lemma SameShape(maps: seq<PointerMap.MapPage>, states: seq<seq<RelationshipState>>)
    requires RolePropagation.EntriesWeakened(RoleReconciliation.AllStates(maps), states)
    ensures |states| == |maps| && forall m :: 0 <= m < |maps| ==> |states[m]| == |maps[m].entries|
  {
    forall m | 0 <= m < |maps|
      ensures |states[m]| == |maps[m].entries|
    {
      assert RolePropagation.StatesWeakened(RoleReconciliation.AllStates(maps)[m], states[m]);
    }
  }

  ghost predicate Undisputed(pageRoles: seq<Roles.PageRole>, c: Claim) {
    c.IsLink() && 1 <= c.target.value <= |pageRoles| ==> !pageRoles[c.target.value - 1].Conflicting?
  }

  lemma {:induction false} CutRetains(pageRoles: seq<Roles.PageRole>, physical: seq<bool>, valid: set<ClaimId>, before: seq<Traversal>, after: seq<Traversal>)
    requires |physical| == |pageRoles| && |after| == |before|
    requires forall k :: 0 <= k < |after| ==> RoleReconciliation.CutAtDispute(pageRoles, physical, valid, before[k], after[k])
    ensures Retained(after) <= Retained(before)
  {
    OverflowOwners.ShortenedRetains(before, after);
  }

  // ---------------------------------------------------------------- what a completed inspection promises

  /** How a completed inspection came about, step by step. */
  datatype Trace = Trace(
    phases: Topology.Phases,
    outcome: Topology.Outcome,
    start: Topology.Result,
    evaluated: bool,
    found: seq<PointerMap.MapPage>,
    checked: seq<PointerMap.MapPage>,
    maps: seq<PointerMap.MapPage>,
    claims: seq<Claim>,
    evidence: RolePropagation.State,
    physical: seq<bool>
  )

  /** The topology phases ran to their end; every link of the file counts as looked at only if
      the whole inventory was listed, no budget was binding and the freelist is complete. */
  ghost predicate TopologyDone(g: Geometry, o: Observed, limits: Topology.Limits, t: Trace)
    requires g.Valid()
  {
    && Topology.Uninterrupted(g, o.pages, o.words, limits, t.phases, t.outcome)
    && Topology.Assembled(t.phases, t.outcome, t.start.links, t.start.traversals, t.start.claims)
    && Topology.AllBacked(t.start.links, t.start.traversals, t.start.claims) && UniqueNames(t.start.claims)
    && Forest(t.start.links)
    && (t.evaluated ==>
         && |o.pages| == g.pageCount && t.start.freelist
         && Topology.EveryTreePage(ApplyOverrides(o.pages, t.phases.overrides), t.start.traversals))
  }

  ghost predicate MapsDone(g: Geometry, t: Trace)
    requires g.Valid()
  {
    MapsCompared(g, t.start.claims, t.found, t.checked, t.evaluated, t.maps, t.claims)
  }

  /** Page roles are settled, claims are grounded in them, relationships rest on the claims that
      are left, and no traversal runs into a disputed page. */
  ghost predicate RolesDone(t: Trace, r: Result) {
    && RoleReconciliation.Reconciled(t.evidence, r.pageRoles, t.claims, r.claims, t.start.links, r.links)
    && |t.physical| == |r.pageRoles| && |r.traversals| == |t.start.traversals|
    && (forall k :: 0 <= k < |r.traversals| ==>
         RoleReconciliation.CutAtDispute(r.pageRoles, t.physical, RoleReconciliation.ValidNames(r.claims, |r.claims|), t.start.traversals[k], r.traversals[k]))
    && M.SameMaps(t.maps, r.maps)
    && RolePropagation.EntriesWeakened(RoleReconciliation.AllStates(t.maps), RoleReconciliation.AllStates(r.maps))
  }

  ghost predicate Completed(g: Geometry, o: Observed, limits: Topology.Limits, t: Trace, r: Result)
    requires g.Valid()
  {
    TopologyDone(g, o, limits, t) && MapsDone(g, t) && RolesDone(t, r) && |r.pageRoles| == |o.pages|
  }

  /** What follows for the result: every relationship has a claim of its own that is validated
      to the end, and a claim that still authorizes a link leads to a page whose role nothing
      disputes. */
  ghost predicate Settled(r: Result) {
    && Forest(r.links)
    && (forall k :: 0 <= k < |r.links| ==> HasClaim(r.claims, r.links[k]))
    && (forall j :: 0 <= j < |r.claims| ==> Undisputed(r.pageRoles, r.claims[j]))
    && UniqueNames(r.claims)
  }

  lemma CompletedIsSettled(g: Geometry, o: Observed, limits: Topology.Limits, t: Trace, r: Result)
    requires g.Valid() && Completed(g, o, limits, t, r)
    ensures Settled(r)
  {
    hide Topology.Uninterrupted, Topology.Assembled, Topology.EveryTreePage, Forest, UniqueNames, RolePropagation.EntriesWeakened, M.SameMaps,
      M.MapsJudged, M.MapsAgree, M.OnlyDemoted, M.Disputed, HasClaim, RoleReconciliation.CutAtDispute, Undisputed, RoleReconciliation.Grounded,
      RolePropagation.Weakened, RoleReconciliation.Backing, RoleReconciliation.ValidNames, PointerMap.MapsApart;
    M.DisputedTargets(t.start.claims, M.RefutedIn(t.start.claims, t.checked, |t.checked|, t.evaluated));
    DemotedIsWeakened(t.start.claims, t.claims);
    RolePropagation.WeakenedTwice(t.start.claims, t.claims, r.claims);
    WeakenedNames(t.start.claims, r.claims);
    KeptIsForest(t, r);
    RoleReconciliation.KeptHaveClaims(t.start.claims, r.claims, t.start.links);
    forall j | 0 <= j < |r.claims|
      ensures Undisputed(r.pageRoles, r.claims[j])
    {
      assert RoleReconciliation.Grounded(t.evidence, r.pageRoles, r.claims[j]);
      GroundedIsUndisputed(t.evidence, r.pageRoles, r.claims[j]);
    }
  }

  lemma GroundedIsUndisputed(s: RolePropagation.State, pageRoles: seq<Roles.PageRole>, c: Claim)
    requires RoleReconciliation.Grounded(s, pageRoles, c)
    ensures Undisputed(pageRoles, c)
  {
  }

  lemma KeptIsForest(t: Trace, r: Result)
    requires Forest(t.start.links) && r.links == RoleReconciliation.Backing(t.start.links, RoleReconciliation.ValidNames(r.claims, |r.claims|))
    ensures Forest(r.links)
  {
    RoleReconciliation.BackingMeaning(t.start.links, RoleReconciliation.ValidNames(r.claims, |r.claims|));
    SelectedKeepsForest(r.links, t.start.links);
  }

  // ---------------------------------------------------------------- the inspection

  /** Settles page roles with the help of the pointer maps. If that is cut short, the claims
      and map entries remain as far as they came, and the relationships and traversals built
      on them are withheld. */
  method ReconcilePageRoles(g: Geometry, o: Observed, start: Topology.Result, evaluated: bool, control: WorkControl)
    returns (r: Result, settled: bool, ghost found: seq<PointerMap.MapPage>, ghost checked: seq<PointerMap.MapPage>,
             ghost maps: seq<PointerMap.MapPage>, ghost claims: seq<Claim>, ghost evidence: RolePropagation.State, ghost physical: seq<bool>)
    requires g.Valid() && o.Valid(g)
    requires !control.failed ==> Forest(start.links) && UniqueNames(start.claims)
    modifies control`stop, control`failed
    ensures old(control.failed) ==> control.failed
    ensures !control.failed ==> Forest(r.links) && Retained(r.traversals) <= Retained(start.traversals)
    ensures !control.failed ==> RolePropagation.Weakened(start.claims, r.claims)
    ensures !settled ==> r.links == [] && r.traversals == []
    ensures settled && !control.failed ==>
      && MapsCompared(g, start.claims, found, checked, evaluated, maps, claims) && |r.pageRoles| == |o.pages|
      && forall t: Trace :: t.start == start && t.maps == maps && t.claims == claims && t.evidence == evidence && t.physical == physical ==> RolesDone(t, r)
  {
    hide Forest, RolePropagation.Weakened, RoleReconciliation.Reconciled, RoleReconciliation.CutAtDispute, UniqueNames, Retained,
      M.OnlyDemoted, MapsCompared, RolePropagation.EntriesWeakened, M.SameMaps, Restated;
    Topology.NothingFound();
    evidence, physical := RolePropagation.State([], [], [], []), [];
    var table := new ClaimTable(control);
    table.claims := start.claims;
    var read;
    read, settled, found, checked := InspectMaps(g, o, table, evaluated);
    maps, claims := read, table.claims;
    r := Result([], [], table.claims, read, []);
    if !control.failed {
      DemotedIsWeakened(start.claims, table.claims);
    }
    if settled {
      var after, links, traversals, pageRoles, entries;
      after, links, traversals, pageRoles, entries, settled, evidence, physical :=
        RoleReconciliation.Reconcile(o.local, table.claims, read, start.links, start.traversals, control);
      SameShape(read, entries);
      r := Result([], [], after, Restated(read, entries), pageRoles);
      if !control.failed {
        RolePropagation.WeakenedTwice(start.claims, claims, after);
      }
      if settled {
        r := Result(links, traversals, after, Restated(read, entries), pageRoles);
        if !control.failed {
          CutRetains(pageRoles, physical, RoleReconciliation.ValidNames(after, |after|), start.traversals, traversals);
        }
      }
    }
  }

  /** Inspects a file from end to end. However the inspection is interrupted, the
      relationships it returns form a forest and its traversals stay within the ceiling,
      unless the private store failed. When the last phase completes, so has every phase
      before it, and the result follows from the file as the trace says. */
  method InspectFile(g: Geometry, o: Observed, limits: Topology.Limits, control: WorkControl)
    returns (r: Result, settled: bool, ghost t: Trace)
    requires g.Valid() && o.Valid(g)
    modifies control
    ensures !control.failed ==> Forest(r.links) && Retained(r.traversals) <= limits.total
    ensures !settled && r.pageRoles != [] ==> r.links == [] && r.traversals == []
    ensures settled && !control.failed ==> Completed(g, o, limits, t, r) && Settled(r)
  {
    hide Forest, Settled, Retained, UniqueNames, Topology.Uninterrupted, Topology.Assembled, Topology.AllBacked, Topology.EveryTreePage,
      Freelist.Undisturbed, RolesDone, MapsCompared, RolePropagation.Weakened;
    var start;
    ghost var phases, outcome;
    start, phases, outcome := Topology.Inspect(g, o.pages, o.words, limits, control);
    r, settled := Result(start.links, start.traversals, start.claims, [], []), false;
    ghost var found, checked, maps, claims, evidence, physical := [], [], [], [], RolePropagation.State([], [], [], []), [];
    var evaluated := false;
    var stopped := control.Stopped();
    if !stopped && !control.aggregate {
      evaluated := |o.pages| == g.pageCount && !control.budget && start.freelist;
      r, settled, found, checked, maps, claims, evidence, physical := ReconcilePageRoles(g, o, start, evaluated, control);
    }
    t := Trace(phases, outcome, start, evaluated, found, checked, maps, claims, evidence, physical);
    if settled && !control.failed {
      CompletedIsSettled(g, o, limits, t, r);
    }
  }
}
