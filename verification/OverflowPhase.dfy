/** The overflow phase as a whole: every cell in physical order, then the owners. */
module OverflowPhase {
  import opened Wrappers
  import opened Control
  import opened ClaimGraph
  import opened ClaimTables
  import opened Inventory
  import opened Chains
  import opened Overflow
  import opened OverflowOwners

  ghost predicate CellsBefore(cells: set<Entity>, page: nat, cell: nat) {
    forall e :: e in cells ==> e.Cell? && (e.page < page || (e.page == page && e.cell < cell))
  }

  /** Every cell with an overflow pointer, up to here, has its claim. */
  ghost predicate CellsDone(pages: seq<PageInfo>, cells: set<Entity>, page: nat, cell: nat) {
    forall e: Entity :: e.Cell? && Spills(pages, e) && (e.page < page || (e.page == page && e.cell < cell)) ==> e in cells
  }

  predicate Spills(pages: seq<PageInfo>, e: Entity) {
    e.Cell? && Listed(pages, e.page) && e.cell < |pages[e.page - 1].cells| && pages[e.page - 1].cells[e.cell].overflowPage.Some?
  }

  /** Every cell with an overflow pointer has its traversal. */
  ghost predicate EveryCell(pages: seq<PageInfo>, traversals: seq<Traversal>) {
    forall e: Entity :: Spills(pages, e) ==> Started(traversals, e)
  }

  lemma CellsNext(pages: seq<PageInfo>, before: set<Entity>, after: set<Entity>, page: nat, cell: nat)
    requires CellsDone(pages, before, page, cell) && before <= after
    requires Spills(pages, Cell(page, cell)) ==> Cell(page, cell) in after
    ensures CellsDone(pages, after, page, cell + 1)
  {
    forall e: Entity | e.Cell? && Spills(pages, e) && (e.page < page || (e.page == page && e.cell < cell + 1))
      ensures e in after
    {
      assert e == Cell(e.page, e.cell);
      assert e.page == page && e.cell == cell ==> e == Cell(page, cell);
    }
  }

  lemma PageDone(pages: seq<PageInfo>, cells: set<Entity>, page: nat)
    requires Listed(pages, page) && CellsDone(pages, cells, page, |pages[page - 1].cells|)
    ensures CellsDone(pages, cells, page + 1, 0)
  {
  }

  lemma CellsStarted(pages: seq<PageInfo>, cells: set<Entity>, traversals: seq<Traversal>)
    requires CellsDone(pages, cells, |pages| + 1, 0) && forall e :: e in cells ==> Started(traversals, e)
    ensures EveryCell(pages, traversals)
  {
    hide Started;
  }

  lemma ShortenedStarts(pages: seq<PageInfo>, before: seq<Traversal>, after: seq<Traversal>)
    requires EveryCell(pages, before) && Shortened(before, after)
    ensures EveryCell(pages, after)
  {
    forall e: Entity | Spills(pages, e)
      ensures Started(after, e)
    {
      assert Started(before, e);
      var k :| 0 <= k < |before| && before[k].origin == e;
      assert after[k].origin == e;
    }
  }

  /** What holds between two cells. */
  ghost predicate Between(topology: OverflowTopology, page: nat, cell: nat)
    reads topology, topology.table
  {
    && topology.Good([]) && topology.AllRecorded() && (topology.traversals == [] ==> topology.table.claims == [])
    && CellsDone(topology.pages, topology.cellClaims.Keys, page, cell)
  }

  /** Visits the cells of one page. */
  method InspectPage(topology: OverflowTopology, page: nat) returns (go: bool)
    requires topology.table.control == topology.control
    requires Listed(topology.pages, page) && WellFormed(topology.pages)
    requires topology.Paid(0)
    requires CellsBefore(topology.cellClaims.Keys, page, 0)
    requires !topology.control.failed ==> Between(topology, page, 0)
    modifies topology, topology.table`claims, topology.control
    ensures topology.control.Later()
    ensures topology.Paid(0)
    ensures CellsBefore(topology.cellClaims.Keys, page + 1, 0)
    ensures !go ==> topology.control.failed || topology.control.stop || topology.control.aggregate
    ensures !topology.control.failed ==> Indexed(topology.pages, topology.Now())
    ensures go && !topology.control.failed ==> Between(topology, page + 1, 0)
  {
    hide CellsDone, Truthful, Indexed, GoodTraversals, Retained, WellFormed;
    var control, cells := topology.control, topology.pages[page - 1].cells;
    for k: nat := 0 to |cells|
      invariant control.Later()
      invariant topology.Paid(0)
      invariant CellsBefore(topology.cellClaims.Keys, page, k)
      invariant !control.failed ==> Between(topology, page, k)
    {
      var stopped := control.Stopped();
      if control.aggregate || stopped {
        return false;
      }
      ghost var before := topology.cellClaims.Keys;
      CellIsSpilled(topology.pages, page, k);
      go := topology.InspectCell(page, k);
      if !go {
        return;
      }
      if !control.failed {
        CellsNext(topology.pages, before, topology.cellClaims.Keys, page, k);
      }
    }
    if !control.failed {
      PageDone(topology.pages, topology.cellClaims.Keys, page);
    }
    go := true;
  }

  lemma CellIsSpilled(pages: seq<PageInfo>, page: nat, cell: nat)
    requires WellFormed(pages) && Listed(pages, page) && cell < |pages[page - 1].cells|
    ensures HasKind(pages, page) && pages[page - 1].cells[cell].Spilled()
  {
    assert pages[page - 1].Decoded();
  }

  /** Visits every cell of every page. */
  method InspectPages(topology: OverflowTopology) returns (go: bool)
    requires topology.table.control == topology.control
    requires WellFormed(topology.pages)
    requires topology.Paid(0) && topology.cellClaims == map[]
    requires topology.Good([]) && topology.table.claims == []
    modifies topology, topology.table`claims, topology.control
    ensures topology.control.Later()
    ensures topology.Paid(0)
    ensures !go ==> topology.control.failed || topology.control.stop || topology.control.aggregate
    ensures !topology.control.failed ==> Indexed(topology.pages, topology.Now())
    ensures go && !topology.control.failed ==>
      && topology.Good([]) && (topology.traversals == [] ==> topology.table.claims == [])
      && EveryCell(topology.pages, topology.traversals)
  {
    hide Truthful, Indexed, GoodTraversals, Retained, WellFormed, Started, EveryCell;
    var control := topology.control;
    NoCellYet(topology.pages);
    for n: nat := 0 to |topology.pages|
      invariant control.Later()
      invariant topology.Paid(0)
      invariant CellsBefore(topology.cellClaims.Keys, n + 1, 0)
      invariant !control.failed ==> Between(topology, n + 1, 0)
    {
      var read := control.Access();
      if !read {
        return false;
      }
      var stopped := control.Stopped();
      if control.aggregate || stopped {
        return false;
      }
      go := InspectPage(topology, n + 1);
      if !go {
        return;
      }
    }
    if !control.failed {
      CellsStarted(topology.pages, topology.cellClaims.Keys, topology.traversals);
    }
    go := true;
  }

  lemma NoCellYet(pages: seq<PageInfo>)
    ensures CellsDone(pages, {}, 1, 0)
  {
  }

  /** Counts the cells first; a stop there leaves the phase empty. */
  method CountCells(pages: seq<PageInfo>, control: WorkControl) returns (counted: bool)
    modifies control`stop
    ensures old(control.stop) ==> control.stop
    ensures !counted ==> control.stop
  {
    for n: nat := 0 to |pages|
      invariant old(control.stop) ==> control.stop
    {
      var stopped := control.Stopped();
      if stopped {
        return false;
      }
    }
    counted := true;
  }

  lemma WithdrawnAreLinks(pages: seq<PageInfo>, s: State, claims: seq<Claim>)
    requires Indexed(pages, s) && SameClaims(s.claims, claims)
    requires forall i :: 0 <= i < |claims| ==> !claims[i].state.Validated?
    ensures OverflowLinks(pages, claims)
  {
    SameClaimsMeaning(s.claims, claims);
    forall i | 0 <= i < |claims|
      ensures OverflowLink(pages, claims[i])
    {
      assert Owned(pages, s, i);
    }
    NoLinksNoCycles(claims);
    IndexedNames(pages, s);
  }

  /** An interrupted phase keeps its claims and withdraws their verdicts. */
  method WithdrawAll(topology: OverflowTopology, ghost s: State)
    requires topology.table.control == topology.control
    requires !topology.control.failed ==> Indexed(topology.pages, s) && SameClaims(s.claims, topology.table.claims)
    modifies topology.table`claims, topology.control`failed
    ensures old(topology.control.failed) ==> topology.control.failed
    ensures !topology.control.failed ==> OverflowLinks(topology.pages, topology.table.claims)
  {
    ghost var before := topology.table.claims;
    topology.table.Downgrade(RelationshipKind.Overflow);
    if !topology.control.failed {
      SameClaimsMeaning(s.claims, before);
      forall i | 0 <= i < |before|
        ensures before[i].kind == RelationshipKind.Overflow
      {
        assert Owned(topology.pages, s, i);
      }
      assert SameClaims(s.claims, topology.table.claims);
      WithdrawnAreLinks(topology.pages, s, topology.table.claims);
    }
  }

  /** Inspects every overflow chain. Whatever interrupts the phase, its validated claims have
      one owner per page and no cycle, and the pages it retains were paid for; when nothing
      does, every step of every recorded chain is a claim still validated and different
      chains share no page. */
  method InspectOverflow(pageCount: nat, pages: seq<PageInfo>, room: nat, firstWord: nat -> Option<nat>,
                         maxPages: nat, maxTotal: nat, used: nat, control: WorkControl)
    returns (topology: OverflowTopology)
    requires WellFormed(pages)
    modifies control
    ensures control.Later()
    ensures fresh(topology) && fresh(topology.table)
    ensures used + Retained(topology.traversals) <= topology.used && (topology.used <= maxTotal || topology.used == used)
    ensures !control.failed ==> OverflowLinks(pages, topology.table.claims)
    ensures !control.failed && !control.stop && !control.aggregate ==>
      && Reconciled(room, pages, topology.table.claims, topology.traversals)
      && EveryCell(pages, topology.traversals)
      && Whole(Setting(pageCount, pages, room, firstWord, maxPages), topology.table.claims, topology.traversals)
  {
    hide EveryCell, Reconciled, Whole, OverflowLinks, Truthful, Indexed, GoodTraversals, Retained;
    var table := new ClaimTable(control);
    topology := new OverflowTopology(pageCount, pages, room, firstWord, maxPages, maxTotal, used, table);
    NothingFound(topology.Given());
    var counted := CountCells(pages, control);
    if !counted {
      return;
    }
    var complete := InspectPages(topology);
    ghost var inspected := topology.Now();
    if complete {
      var stopped := control.Stopped();
      complete := false;
      if !stopped {
        complete := ReconcileOwners(topology);
        ShortenedRetains(inspected.traversals, topology.traversals);
        if !control.failed {
          ShortenedStarts(pages, inspected.traversals, topology.traversals);
        }
      }
    }
    if !complete {
      WithdrawAll(topology, inspected);
    }
  }
}
