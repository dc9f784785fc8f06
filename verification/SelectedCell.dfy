/** Section 1.7 of the SQLite file format from end to end: what a completed inspection says of
    a cell's overflow chain is what the reconstruction of the cell relies on. */
module SelectedCell {
  import opened Wrappers
  import opened Control
  import opened ClaimGraph
  import opened Inventory
  import opened FileGeometry
  import opened LinkForest
  import opened Inspection
  import opened Reconstruction
  import BtreeTraversal
  import Freelist
  import Overflow
  import OverflowOwners
  import OverflowPhase
  import RolePropagation
  import RoleReconciliation
  import Storage = StorageReconciliation
  import Topology

  /** The chain of a cell, as the overflow phase left it. */
  ghost predicate ChainOf(view: seq<PageInfo>, room: nat, t: Traversal) {
    && Overflow.Fits(room, Overflow.Spill(view, t.origin), |t.prefix|, t.stop.None?)
    && (t.prefix != [] ==> HasKind(view, t.origin.page))
    && (forall k :: 0 <= k < |t.prefix| ==> Listed(view, t.prefix[k]))
  }

  lemma PhaseLeavesChain(view: seq<PageInfo>, room: nat, claims: seq<Claim>, walks: seq<Traversal>, k: nat)
    requires OverflowOwners.OverflowLinks(view, claims) && OverflowOwners.Reconciled(room, view, claims, walks) && k < |walks|
    ensures ChainOf(view, room, walks[k])
  {
    var t := walks[k];
    assert OverflowOwners.StepsValid(claims, t.origin, t.prefix);
    forall m | 0 <= m < |t.prefix|
      ensures Listed(view, t.prefix[m]) && (m == 0 ==> HasKind(view, t.origin.page))
    {
      var from := if m == 0 then t.origin else Page(t.prefix[m - 1]);
      assert OverflowOwners.HasLink(claims, from, t.prefix[m]) by {
        if m > 0 {
          assert OverflowOwners.HasLink(claims, Page(t.prefix[m - 1]), t.prefix[m - 1 + 1]);
        }
      }
      var i :| 0 <= i < |claims| && claims[i].IsLink() && claims[i].source == from && claims[i].target.value == t.prefix[m];
      assert OverflowOwners.OverflowLink(view, claims[i]);
    }
  }

  /** A shorter part of a chain that gives a reason for ending is still a chain of the cell. */
  lemma CutLeavesChain(view: seq<PageInfo>, room: nat, t: Traversal, cut: Traversal)
    requires ChainOf(view, room, t) && cut.origin == t.origin && cut.prefix <= t.prefix
    requires if cut.prefix == t.prefix then cut.stop.None? == t.stop.None? else cut.stop.Some?
    ensures ChainOf(view, room, cut)
  {
    if cut.prefix != t.prefix {
      OverflowOwners.FitsShorter(room, Overflow.Spill(view, t.origin), |t.prefix|, |cut.prefix|);
    }
  }

  /** The storage walks come first, and those of cells are the overflow phase's. */
  lemma CellWalk(s: Topology.Stored, k: nat)
    requires k < |s.Walks()| && s.Walks()[k].origin.Cell?
    requires forall m :: 0 <= m < |s.tree.walks| ==> s.tree.walks[m].origin.Page?
    ensures |s.tree.walks| <= k && s.Walks()[k] == s.overflow.walks[k - |s.tree.walks|]
  {
  }

  lemma OtherOrigins(g: Geometry, o: Observed, limits: Topology.Limits, t: Trace)
    requires g.Valid() && TopologyDone(g, o, limits, t)
    ensures forall m :: 0 <= m < |t.phases.stored.tree.walks| ==> t.phases.stored.tree.walks[m].origin.Page?
    ensures forall m :: 0 <= m < |t.outcome.free.walks| ==> t.outcome.free.walks[m].origin.Page? && t.outcome.free.walks[m].kind.FreelistChain?
  {
    hide Forest, UniqueNames, Topology.AllBacked, Topology.EveryTreePage, Topology.ChainsComplete, Topology.StoredFound, Storage.Compared,
      BtreeTraversal.OneOrigin, Relationships, Freelist.FreelistLinks, Freelist.FreelistNames, IsPath;
    var view, tree := ApplyOverrides(o.pages, t.phases.overrides), t.phases.stored.tree;
    forall m | 0 <= m < |tree.walks|
      ensures tree.walks[m].origin.Page?
    {
      assert BtreeTraversal.TreeTraversal(view, tree.claims, tree.walks[m]);
    }
  }

  lemma StartLeavesChain(g: Geometry, o: Observed, limits: Topology.Limits, t: Trace, k: nat)
    requires g.Valid() && TopologyDone(g, o, limits, t) && k < |t.start.traversals| && t.start.traversals[k].origin.Cell?
    ensures ChainOf(ApplyOverrides(o.pages, t.phases.overrides), g.usableSize - 4, t.start.traversals[k])
  {
    hide Forest, UniqueNames, Topology.AllBacked, Topology.EveryTreePage, Topology.TreesFound, Topology.TreesComplete, ChainOf, Topology.FreeFound,
      OverflowOwners.OverflowLinks, OverflowOwners.Reconciled, OverflowOwners.Whole, Selected, Relationships, Storage.Compared, Storage.CutBefore,
      Storage.Conflicts, OverflowPhase.EveryCell;
    OtherOrigins(g, o, limits, t);
    var view, walks, s := ApplyOverrides(o.pages, t.phases.overrides), t.outcome.walks, t.phases.stored;
    assert forall j :: |walks| <= j < |t.start.traversals| ==> t.start.traversals[j] == t.outcome.free.walks[j - |walks|];
    if k < |walks| {
      assert walks[k].origin == s.Walks()[k].origin;
      CellWalk(s, k);
      var m := k - |s.tree.walks|;
      PhaseLeavesChain(view, g.usableSize - 4, s.overflow.claims, s.overflow.walks, m);
      CutLeavesChain(view, g.usableSize - 4, s.overflow.walks[m], t.start.traversals[k]);
    }
  }

  /** The chain that a completed inspection shows for a cell. */
  lemma ResultLeavesChain(g: Geometry, o: Observed, limits: Topology.Limits, t: Trace, r: Result, k: nat)
    requires g.Valid() && Completed(g, o, limits, t, r) && k < |r.traversals| && r.traversals[k].origin.Cell?
    ensures ChainOf(ApplyOverrides(o.pages, t.phases.overrides), g.usableSize - 4, r.traversals[k])
  {
    hide TopologyDone, MapsDone, RoleReconciliation.Reconciled, RolePropagation.EntriesWeakened, ChainOf, RoleReconciliation.Boundary,
      RoleReconciliation.Unfounded, RoleReconciliation.ValidNames;
    StartLeavesChain(g, o, limits, t, k);
    CutLeavesChain(ApplyOverrides(o.pages, t.phases.overrides), g.usableSize - 4, t.start.traversals[k], r.traversals[k]);
  }

  /** A chain fits its cell as the cell was decoded: no freelist page hides it. */
  lemma ChainFitsCell(pages: seq<PageInfo>, overrides: map<nat, AllocationRole>, room: nat, t: Traversal)
    requires ChainOf(ApplyOverrides(pages, overrides), room, t)
    ensures Overflow.Fits(room, Overflow.Spill(pages, t.origin), |t.prefix|, t.stop.None?)
    ensures forall k :: 0 <= k < |t.prefix| ==> Listed(pages, t.prefix[k])
  {
    var view := ApplyOverrides(pages, overrides);
    if t.prefix != [] {
      assert view[t.origin.page - 1] == pages[t.origin.page - 1];
    }
  }

  /** The number of pages that hold `bytes`, `room` to a page. */
  function Needed(bytes: nat, room: nat): nat
    requires room > 0
  {
    (bytes + room - 1) / room
  }

  lemma CompleteChainLength(room: nat, spill: nat, length: nat)
    requires room > 0 && Overflow.Fits(room, spill, length, true)
    ensures length == Needed(spill, room)
  {
    var q := (spill + room - 1) / room;
    assert (q - 1) * room == q * room - room;
    if length < q {
      Reconstruction.MorePagesMoreBytes(length, q - 1, room);
    } else if length > q {
      Reconstruction.MorePagesMoreBytes(q, length - 1, room);
    }
  }

  /** Reconstructs a cell from a completed inspection. Neither length check can fail, and a
      payload that is returned is, byte for byte, the cell's local part followed by the pages
      of its chain, as many of them as the payload needs. */
  method ReadCell(g: Geometry, ghost o: Observed, ghost limits: Topology.Limits, ghost t: Trace, r: Result, k: nat, cell: CellInfo, local: Segment,
                  reader: Reader, maxPayload: nat, maxPages: nat, linked: seq<bool>, role: seq<bool>)
    returns (outcome: Outcome)
    requires g.Valid() && Completed(g, o, limits, t, r) && k < |r.traversals|
    requires var origin := r.traversals[k].origin;
      origin.Cell? && Listed(o.pages, origin.page) && origin.cell < |o.pages[origin.page - 1].cells| && cell == o.pages[origin.page - 1].cells[origin.cell]
    requires cell.payloadSize.Some? && cell.localLength == Some(local.length) && local.length < cell.payloadSize.value
    requires reader.Valid() && reader.payload == [] && |linked| == |role| == |r.traversals[k].prefix|
    modifies reader`payload, reader`evidence, reader.control`stop
    ensures reader.Valid()
    ensures !outcome.OverflowLengthMismatch? && !outcome.PayloadLengthMismatch?
    ensures outcome.Done? ==>
      var prefix, total := r.traversals[k].prefix, cell.payloadSize.value;
      && |reader.payload| == total && |prefix| == Needed(total - local.length, g.usableSize - 4)
      && RealPages(prefix) && AllInFile(reader.file, PayloadSegments(local, total, prefix, g.usableSize - 4, g.pageSize))
      && reader.payload == Joined(reader.file, PayloadSegments(local, total, prefix, g.usableSize - 4, g.pageSize))
  {
    hide Completed, ChainOf, Joined, PayloadSegments, AllInFile;
    var chain, total := r.traversals[k], cell.payloadSize.value;
    ResultLeavesChain(g, o, limits, t, r, k);
    ChainFitsCell(o.pages, t.phases.overrides, g.usableSize - 4, chain);
    outcome := reader.ReadPayload(local, total, maxPayload, chain.prefix, chain.stop, g.usableSize - 4, g.pageSize, maxPages, linked, role);
    if outcome.Done? {
      CompleteChainLength(g.usableSize - 4, total - local.length, |chain.prefix|);
    }
  }
}
