/** Overflow claims: following each chain once through a cache of next-page claims, and
    settling which chain owns a page that several of them reach. */
module Overflow {
  import opened Wrappers
  import opened Control
  import opened ClaimGraph
  import opened ClaimTables
  import opened Inventory
  import opened Chains

  // ---------------------------------------------------------------- single claims

  /** A page that an overflow pointer may name. */
  predicate Plain(pages: seq<PageInfo>, number: nat) {
    && Listed(pages, number)
    && var page := pages[number - 1];
    page.kind.None? && page.allocation.None? && !page.reserved && !page.readFailed
  }

  function ValidateTarget(pageCount: nat, pages: seq<PageInfo>, c: Claim): Claim {
    match c.target
    case None => c.(state := Invalid, stop := Some(InvalidReference))
    case Some(target) =>
      if target > pageCount then c.(state := Unresolved, stop := Some(OutOfRange))
      else if !Listed(pages, target) then c.(state := Unresolved, stop := Some(CoverageStop))
      else if pages[target - 1].readFailed then c.(state := Unresolved, stop := Some(MissingTarget))
      else if !Plain(pages, target) then c.(state := Conflicting, stop := Some(StopReason.TypeMismatch))
      else c.(state := Validated)
  }

  function OverflowId(source: Entity): ClaimId {
    match source
    case Page(page) => OverflowPageId(page)
    case Cell(page, cell) => OverflowCellId(page, cell)
  }

  function NonZero(word: nat): Option<nat> {
    if word == 0 then None else Some(word)
  }

  /** The claim of a cell about its first overflow page. */
  function FirstClaim(pageCount: nat, pages: seq<PageInfo>, source: Entity, cell: CellInfo): Claim
    requires cell.overflowPage.Some?
  {
    var c := Claim(OverflowId(source), RelationshipKind.Overflow, source, NonZero(cell.overflowPage.value), Unresolved, None);
    if cell.overlapping then c.(state := Invalid, stop := Some(OverlappingExtent))
    else ValidateTarget(pageCount, pages, c)
  }

  /** The claim of an overflow page about the next one, from the first word of the page. */
  function PageClaim(pageCount: nat, pages: seq<PageInfo>, page: nat, word: Option<nat>): Claim {
    var c := Claim(OverflowPageId(page), RelationshipKind.Overflow, Page(page), NonZero(word.GetOr(0)), Unresolved, None);
    match word
    case None => c.(state := Invalid, stop := Some(InvalidReference))
    case Some(n) => if n == 0 then c.(state := Terminal) else ValidateTarget(pageCount, pages, c)
  }

  /** A pointer that passed validation and was withdrawn because it closed a cycle. */
  predicate Withdrawn(c: Claim) {
    c.state.Conflicting? && c.stop == Some(StopReason.Cycle)
  }

  ghost predicate SoundClaim(pages: seq<PageInfo>, c: Claim) {
    && c.kind == RelationshipKind.Overflow
    && c.id == OverflowId(c.source)
    && (c.state.Validated? ==> c.target.Some? && c.stop.None? && Plain(pages, c.target.value))
    && (!c.state.Validated? && !c.state.Terminal? ==> c.stop.Some?)
  }

  // ---------------------------------------------------------------- the state of the phase

  /** The lists of the phase, with what they mean: the next-page function, the withdrawn
      pointers and the position of each cell's claim. */
  datatype State = State(
    claims: seq<Claim>,
    traversals: seq<Traversal>,
    pageClaims: map<nat, nat>,
    next: map<nat, nat>,
    marked: set<nat>,
    cellClaims: map<Entity, nat>
  )

  ghost predicate PageEntry(s: State, page: nat) {
    && page in s.pageClaims
    && s.pageClaims[page] < |s.claims|
    && var c := s.claims[s.pageClaims[page]];
    && c.source == Page(page)
    && (page in s.next <==> c.state.Validated? || Withdrawn(c))
    && (page in s.next ==> c.target == Some(s.next[page]))
    && (page in s.marked <==> Withdrawn(c))
  }

  ghost predicate CellEntry(s: State, cell: Entity) {
    && cell in s.cellClaims && cell.Cell?
    && s.cellClaims[cell] < |s.claims|
    && s.claims[s.cellClaims[cell]].source == cell
  }

  ghost predicate Owned(pages: seq<PageInfo>, s: State, i: nat)
    requires i < |s.claims|
  {
    && SoundClaim(pages, s.claims[i])
    && match s.claims[i].source
       case Page(page) => Plain(pages, page) && page in s.pageClaims && s.pageClaims[page] == i
       case Cell(page, _) => HasKind(pages, page) && s.claims[i].source in s.cellClaims && s.cellClaims[s.claims[i].source] == i
  }

  /** The cache and the claim list agree, and so do the functions they stand for. */
  ghost predicate Indexed(pages: seq<PageInfo>, s: State) {
    && (forall page :: page in s.pageClaims ==> PageEntry(s, page))
    && (forall cell :: cell in s.cellClaims ==> CellEntry(s, cell))
    && (forall i :: 0 <= i < |s.claims| ==> Owned(pages, s, i))
    && s.next.Keys <= s.pageClaims.Keys && s.marked <= s.next.Keys
    && MarkedLoops(s.next, s.marked)
  }

  /** The cell at `origin` holds a validated claim on `page`. */
  ghost predicate Starts(s: State, origin: Entity, page: nat) {
    CellEntry(s, origin) && s.claims[s.cellClaims[origin]].state.Validated? && s.claims[s.cellClaims[origin]].target == Some(page)
  }

  /** The payload bytes that the cell at `origin` leaves to overflow pages. */
  function Spill(pages: seq<PageInfo>, origin: Entity): nat {
    if origin.Cell? && Listed(pages, origin.page) && origin.cell < |pages[origin.page - 1].cells| then
      var cell := pages[origin.page - 1].cells[origin.cell];
      if cell.payloadSize.Some? && cell.localLength.Some? && cell.payloadSize.value > cell.localLength.value
      then cell.payloadSize.value - cell.localLength.value else 0
    else 0
  }

  /** No more pages than the spilled bytes need; exactly as many when nothing stopped it. */
  ghost predicate Fits(room: nat, spill: nat, length: nat, complete: bool) {
    && (length > 0 ==> (length - 1) * room < spill)
    && (complete ==> length > 0 && spill <= length * room)
  }

  ghost predicate GoodTraversal(pages: seq<PageInfo>, room: nat, s: State, t: Traversal) {
    && t.kind.OverflowChain? && t.origin.Cell? && t.origin in s.cellClaims
    && (t.prefix != [] ==> Starts(s, t.origin, t.prefix[0]))
    && Chain(s.next, t.prefix)
    && Fits(room, Spill(pages, t.origin), |t.prefix|, t.stop.None?)
  }

  /** A different cell starts each recorded chain, and chains explain every cached claim. */
  ghost predicate GoodTraversals(pages: seq<PageInfo>, room: nat, s: State, current: seq<nat>) {
    && (forall k :: 0 <= k < |s.traversals| ==> GoodTraversal(pages, room, s, s.traversals[k]))
    && (forall a, b :: 0 <= a < b < |s.traversals| ==> s.traversals[a].origin != s.traversals[b].origin)
    && s.pageClaims.Keys <= RecordedPages(s.traversals) + PagesOf(current)
  }

  ghost predicate NewOrigin(s: State, origin: Entity) {
    forall k :: 0 <= k < |s.traversals| ==> s.traversals[k].origin != origin
  }

  /** The chain being followed: it starts at a cell's claim and every step so far is valid. */
  ghost predicate OpenPath(pages: seq<PageInfo>, s: State, origin: Entity, path: seq<nat>) {
    && path != []
    && Starts(s, origin, path[0])
    && Chain(s.next, path) && Unmarked(s.marked, path)
    && (forall k :: 0 <= k < |path| ==> Plain(pages, path[k]))
    && NewOrigin(s, origin)
  }

  // ---------------------------------------------------------------- the file behind it

  /** What the phase reads and is allowed. */
  datatype Setting = Setting(pageCount: nat, pages: seq<PageInfo>, room: nat, firstWord: nat -> Option<nat>, maxPages: nat)

  /** A claim is what its cell or page says, unless its pointer was withdrawn. */
  ghost predicate AsRead(u: Setting, c: Claim) {
    match c.source
    case Cell(page, cell) =>
      && Listed(u.pages, page) && cell < |u.pages[page - 1].cells| && u.pages[page - 1].cells[cell].overflowPage.Some?
      && c == FirstClaim(u.pageCount, u.pages, c.source, u.pages[page - 1].cells[cell])
    case Page(page) =>
      var read := PageClaim(u.pageCount, u.pages, page, u.firstWord(page));
      c == read || (read.state.Validated? && c == read.(state := Conflicting, stop := Some(StopReason.Cycle)))
  }

  /** The claim gives the traversal cause to end: it is the end of the chain, it authorizes no
      further page, no payload is missing, or the chain is as long as it may be. */
  ghost predicate Cause(u: Setting, c: Claim, t: Traversal) {
    match t.stop
    case None => c.state.Terminal?
    case Some(stop) =>
      && stop.claimId == c.id && stop.target == c.target
      && (!c.state.Validated? || |t.prefix| * u.room >= Spill(u.pages, t.origin)
          || (stop.reason.Budget? && |t.prefix| >= u.maxPages))
  }

  /** Where the last claim of a traversal is kept. */
  function LastIndex(s: State, t: Traversal): Option<nat> {
    if t.prefix == [] then if t.origin in s.cellClaims then Some(s.cellClaims[t.origin]) else None
    else
      var last := t.prefix[|t.prefix| - 1];
      if last in s.pageClaims then Some(s.pageClaims[last]) else None
  }

  ghost predicate Caused(u: Setting, s: State, t: Traversal) {
    var i := LastIndex(s, t);
    i.Some? && i.value < |s.claims| && Cause(u, s.claims[i.value], t)
  }

  ghost predicate AllRead(u: Setting, claims: seq<Claim>) {
    forall i :: 0 <= i < |claims| ==> AsRead(u, claims[i])
  }

  /** Claims say what the file says, and every recorded chain ended for a cause. */
  ghost predicate Truthful(u: Setting, s: State) {
    AllRead(u, s.claims) && forall k :: 0 <= k < |s.traversals| ==> Caused(u, s, s.traversals[k])
  }

  /** Nothing is taken back: a claim that authorizes nothing stays as it is. */
  ghost predicate Grows(s: State, t: State) {
    && t.traversals == s.traversals && |s.claims| <= |t.claims|
    && (forall i :: 0 <= i < |s.claims| ==>
         || t.claims[i] == s.claims[i]
         || (s.claims[i].state.Validated? && t.claims[i] == s.claims[i].(state := Conflicting, stop := Some(StopReason.Cycle))))
    && (forall p :: p in s.pageClaims ==> p in t.pageClaims && t.pageClaims[p] == s.pageClaims[p])
    && (forall e :: e in s.cellClaims ==> e in t.cellClaims && t.cellClaims[e] == s.cellClaims[e])
  }

  lemma CausesKept(u: Setting, s: State, t: State)
    requires Truthful(u, s) && Grows(s, t) && AllRead(u, t.claims)
    ensures Truthful(u, t)
  {
    forall k | 0 <= k < |t.traversals|
      ensures Caused(u, t, t.traversals[k])
    {
      assert Caused(u, s, s.traversals[k]);
    }
  }

  lemma RecordedTruthful(u: Setting, s: State, added: Traversal)
    requires Truthful(u, s) && Caused(u, s, added)
    ensures Truthful(u, s.(traversals := s.traversals + [added]))
  {
    hide AsRead, Cause;
    var t := s.(traversals := s.traversals + [added]);
    forall k | 0 <= k < |t.traversals|
      ensures Caused(u, t, t.traversals[k])
    {
      assert k < |s.traversals| ==> Caused(u, s, s.traversals[k]);
    }
  }

  lemma PageClaimTruthful(u: Setting, s: State, page: nat)
    requires Truthful(u, s) && page !in s.pageClaims
    ensures Truthful(u, WithPageClaim(s, page, PageClaim(u.pageCount, u.pages, page, u.firstWord(page))))
  {
    hide Cause;
    var t := WithPageClaim(s, page, PageClaim(u.pageCount, u.pages, page, u.firstWord(page)));
    CausesKept(u, s, t);
  }

  lemma CellClaimTruthful(u: Setting, s: State, c: Claim)
    requires Truthful(u, s) && c.source !in s.cellClaims && AsRead(u, c)
    ensures Truthful(u, WithCellClaim(s, c))
  {
    hide Cause, AsRead;
    CausesKept(u, s, WithCellClaim(s, c));
  }

  lemma WithdrawnTruthful(u: Setting, s: State, page: nat, i: nat)
    requires Truthful(u, s) && i < |s.claims| && s.claims[i].state.Validated? && s.claims[i].source.Page?
    ensures Truthful(u, WithWithdrawn(s, page, i))
  {
    hide Cause;
    var t := WithWithdrawn(s, page, i);
    forall j | 0 <= j < |t.claims|
      ensures AsRead(u, t.claims[j])
    {
      assert AsRead(u, s.claims[j]);
    }
    CausesKept(u, s, t);
  }

  // ---------------------------------------------------------------- what each step keeps

  /** The state with the pointer claim of one more page. */
  function WithPageClaim(s: State, page: nat, c: Claim): State {
    s.(claims := s.claims + [c], pageClaims := s.pageClaims[page := |s.claims|],
       next := if c.IsLink() then s.next[page := c.target.value] else s.next)
  }

  lemma AddPageClaimIndexed(pages: seq<PageInfo>, s: State, page: nat, c: Claim)
    requires Indexed(pages, s) && page !in s.pageClaims && Plain(pages, page)
    requires c.source == Page(page) && SoundClaim(pages, c) && !Withdrawn(c)
    ensures Indexed(pages, WithPageClaim(s, page, c))
  {
    var t := WithPageClaim(s, page, c);
    if c.IsLink() {
      AddPointer(s.next, s.marked, page, c.target.value);
    }
    forall p | p in t.pageClaims
      ensures PageEntry(t, p)
    {
      assert p != page ==> PageEntry(s, p);
    }
    forall i | 0 <= i < |t.claims|
      ensures Owned(pages, t, i)
    {
      assert i < |s.claims| ==> Owned(pages, s, i);
    }
    forall cell | cell in t.cellClaims
      ensures CellEntry(t, cell)
    {
      assert CellEntry(s, cell);
    }
  }

  lemma AddPageClaim(pages: seq<PageInfo>, room: nat, s: State, path: seq<nat>, origin: Entity, page: nat, c: Claim)
    requires Indexed(pages, s) && GoodTraversals(pages, room, s, path) && OpenPath(pages, s, origin, path)
    requires page == path[|path| - 1] && page !in s.pageClaims
    requires c.source == Page(page) && SoundClaim(pages, c) && !Withdrawn(c)
    ensures var t := WithPageClaim(s, page, c);
      Indexed(pages, t) && GoodTraversals(pages, room, t, path) && OpenPath(pages, t, origin, path)
  {
    AddPageClaimIndexed(pages, s, page, c);
    var t := WithPageClaim(s, page, c);
    forall k | 0 <= k < |t.traversals|
      ensures GoodTraversal(pages, room, t, t.traversals[k])
    {
      assert GoodTraversal(pages, room, s, s.traversals[k]);
    }
  }

  function WithCellClaim(s: State, c: Claim): State {
    s.(claims := s.claims + [c], cellClaims := s.cellClaims[c.source := |s.claims|])
  }

  lemma AddCellClaim(pages: seq<PageInfo>, room: nat, s: State, c: Claim)
    requires Indexed(pages, s) && GoodTraversals(pages, room, s, [])
    requires c.source.Cell? && c.source !in s.cellClaims && SoundClaim(pages, c) && HasKind(pages, c.source.page)
    ensures var t := WithCellClaim(s, c);
      && Indexed(pages, t) && GoodTraversals(pages, room, t, [])
      && CellEntry(t, c.source) && NewOrigin(t, c.source)
      && (c.IsLink() ==> OpenPath(pages, t, c.source, [c.target.value]))
  {
    var t := WithCellClaim(s, c);
    forall p | p in t.pageClaims
      ensures PageEntry(t, p)
    {
      assert PageEntry(s, p);
    }
    forall i | 0 <= i < |t.claims|
      ensures Owned(pages, t, i)
    {
      assert i < |s.claims| ==> Owned(pages, s, i);
    }
    forall cell | cell in t.cellClaims
      ensures CellEntry(t, cell)
    {
      assert cell != c.source ==> CellEntry(s, cell);
    }
    forall k | 0 <= k < |t.traversals|
      ensures GoodTraversal(pages, room, t, t.traversals[k])
    {
      assert GoodTraversal(pages, room, s, s.traversals[k]);
    }
  }

  /** The state with the pointer claim at position `i`, of `page`, withdrawn. */
  function WithWithdrawn(s: State, page: nat, i: nat): State
    requires i < |s.claims|
  {
    s.(claims := s.claims[i := s.claims[i].(state := Conflicting, stop := Some(StopReason.Cycle))], marked := s.marked + {page})
  }

  lemma WithdrawIndexed(pages: seq<PageInfo>, s: State, path: seq<nat>, at: nat, i: nat)
    requires Indexed(pages, s)
    requires at < |path| && Chain(s.next, path) && Unmarked(s.marked, path)
    requires var last := path[|path| - 1];
      last in s.next && last !in s.marked && s.next[last] == path[at] && last in s.pageClaims && i == s.pageClaims[last]
    ensures i < |s.claims| && Indexed(pages, WithWithdrawn(s, path[|path| - 1], i))
    ensures forall cell :: cell in s.cellClaims ==> CellEntry(s, cell) && s.cellClaims[cell] != i
  {
    var last := path[|path| - 1];
    assert PageEntry(s, last);
    var t := WithWithdrawn(s, last, i);
    MarkPointer(s.next, s.marked, path, at);
    forall p | p in t.pageClaims
      ensures PageEntry(t, p)
    {
      assert PageEntry(s, p);
    }
    forall j | 0 <= j < |t.claims|
      ensures Owned(pages, t, j)
    {
      assert Owned(pages, s, j);
    }
    forall cell | cell in t.cellClaims
      ensures CellEntry(t, cell) && CellEntry(s, cell) && s.cellClaims[cell] != i
    {
      assert CellEntry(s, cell);
    }
  }

  lemma KnownEntry(pages: seq<PageInfo>, s: State, page: nat)
    requires Indexed(pages, s) && page in s.pageClaims
    ensures PageEntry(s, page)
  {
  }

  /** Withdrawing the pointer of the last page, which names a page of the chain itself. */
  lemma WithdrawLast(pages: seq<PageInfo>, room: nat, s: State, origin: Entity, path: seq<nat>, at: nat, i: nat)
    requires Indexed(pages, s) && GoodTraversals(pages, room, s, path) && OpenPath(pages, s, origin, path)
    requires at < |path|
    requires var last := path[|path| - 1];
      last in s.next && last !in s.marked && s.next[last] == path[at] && last in s.pageClaims && i == s.pageClaims[last]
    ensures i < |s.claims|
    ensures var t := WithWithdrawn(s, path[|path| - 1], i);
      Indexed(pages, t) && GoodTraversals(pages, room, t, path) && OpenPath(pages, t, origin, path)
  {
    WithdrawIndexed(pages, s, path, at, i);
    var t := WithWithdrawn(s, path[|path| - 1], i);
    assert CellEntry(s, origin);
    forall k | 0 <= k < |t.traversals|
      ensures GoodTraversal(pages, room, t, t.traversals[k])
    {
      assert GoodTraversal(pages, room, s, s.traversals[k]);
    }
  }

  /** Recording the chain being followed, or the bare start of one that is not followed. */
  lemma RecordChain(pages: seq<PageInfo>, room: nat, s: State, origin: Entity, prefix: seq<nat>, stop: Option<TraversalStop>)
    requires Indexed(pages, s) && GoodTraversals(pages, room, s, prefix)
    requires if prefix == [] then CellEntry(s, origin) && NewOrigin(s, origin) else OpenPath(pages, s, origin, prefix)
    requires Fits(room, Spill(pages, origin), |prefix|, stop.None?)
    ensures var t := s.(traversals := s.traversals + [Traversal(OverflowChain, origin, prefix, stop)]);
      Indexed(pages, t) && GoodTraversals(pages, room, t, [])
  {
    var added := Traversal(OverflowChain, origin, prefix, stop);
    var t := s.(traversals := s.traversals + [added]);
    RecordPush(s.traversals, added);
    SameIndex(pages, s, t);
    if prefix != [] {
      assert CellEntry(s, origin);
    }
    forall k | 0 <= k < |t.traversals|
      ensures GoodTraversal(pages, room, t, t.traversals[k])
    {
      if k < |s.traversals| {
        assert GoodTraversal(pages, room, s, s.traversals[k]);
      }
    }
  }

  lemma SameIndex(pages: seq<PageInfo>, s: State, t: State)
    requires Indexed(pages, s)
    requires t == s.(traversals := t.traversals)
    ensures Indexed(pages, t)
  {
    forall p | p in t.pageClaims
      ensures PageEntry(t, p)
    {
      assert PageEntry(s, p);
    }
    forall j | 0 <= j < |t.claims|
      ensures Owned(pages, t, j)
    {
      assert Owned(pages, s, j);
    }
    forall cell | cell in t.cellClaims
      ensures CellEntry(t, cell)
    {
      assert CellEntry(s, cell);
    }
  }

  // ---------------------------------------------------------------- the walk

  datatype Visit = Continue(page: nat, incoming: nat) | Finished(go: bool)

  class OverflowTopology {
    const pageCount: nat
    const pages: seq<PageInfo>
    /** Payload bytes on one overflow page: the usable size less the next-page word. */
    const room: nat
    /** The first word of each page of the file; None when it cannot be read. */
    const firstWord: nat -> Option<nat>
    const maxPages: nat
    const maxTotal: nat
    const control: WorkControl
    const table: ClaimTable
    var traversals: seq<Traversal>
    var pageClaims: map<nat, nat>
    var used: nat
    ghost const usedBefore: nat
    ghost var next: map<nat, nat>
    ghost var marked: set<nat>
    ghost var cellClaims: map<Entity, nat>

    constructor (pageCount: nat, pages: seq<PageInfo>, room: nat, firstWord: nat -> Option<nat>,
                 maxPages: nat, maxTotal: nat, used: nat, table: ClaimTable)
      requires table.claims == []
      ensures this.pageCount == pageCount && this.pages == pages && this.room == room && this.firstWord == firstWord
      ensures this.maxPages == maxPages && this.maxTotal == maxTotal && this.table == table && control == table.control
      ensures traversals == [] && pageClaims == map[] && next == map[] && marked == {} && cellClaims == map[]
      ensures this.used == used && usedBefore == used
      ensures Good([]) && Paid(0)
    {
      this.pageCount, this.pages, this.room, this.firstWord := pageCount, pages, room, firstWord;
      this.maxPages, this.maxTotal, this.table, control := maxPages, maxTotal, table, table.control;
      traversals, pageClaims, this.used, usedBefore := [], map[], used, used;
      next, marked, cellClaims := map[], {}, map[];
    }

    ghost function Now(): State
      reads this, table
    {
      State(table.claims, traversals, pageClaims, next, marked, cellClaims)
    }

    ghost function Given(): Setting {
      Setting(pageCount, pages, room, firstWord, maxPages)
    }

    ghost predicate Good(current: seq<nat>)
      reads this, table
    {
      Indexed(pages, Now()) && GoodTraversals(pages, room, Now(), current) && Truthful(Given(), Now())
    }

    /** Every retained page identity was counted, and the count stays below the ceiling. */
    ghost predicate Paid(current: nat)
      reads this
    {
      && usedBefore + Retained(traversals) + current <= used
      && (used <= maxTotal || used == usedBefore)
    }

    /** Appends a traversal; a failed write drops it. */
    method Append(origin: Entity, prefix: seq<nat>, stop: Option<TraversalStop>)
      modifies this`traversals, control`failed
      ensures old(control.failed) ==> control.failed
      ensures !control.failed ==> traversals == old(traversals) + [Traversal(OverflowChain, origin, prefix, stop)]
      ensures Retained(traversals) <= Retained(old(traversals)) + |prefix|
    {
      var ok := control.Access();
      RecordPush(traversals, Traversal(OverflowChain, origin, prefix, stop));
      if ok {
        traversals := traversals + [Traversal(OverflowChain, origin, prefix, stop)];
      }
    }

    /** The open chain may be recorded with this outcome. */
    ghost predicate Recordable(origin: Entity, path: seq<nat>, complete: bool)
      reads this, table
    {
      && Good(path)
      && (if path == [] then CellEntry(Now(), origin) && NewOrigin(Now(), origin) else OpenPath(pages, Now(), origin, path))
      && Fits(room, Spill(pages, origin), |path|, complete)
    }

    /** One traversal was added, and it starts at `origin`. */
    ghost predicate OneMore(origin: Entity, before: seq<Traversal>)
      reads this
    {
      |traversals| == |before| + 1 && traversals[..|before|] == before && traversals[|before|].origin == origin
    }

    method Record(origin: Entity, path: seq<nat>, stop: Option<TraversalStop>)
      requires table.control == control
      requires Paid(|path|)
      requires !control.failed ==> Recordable(origin, path, stop.None?)
      requires !control.failed ==> Caused(Given(), Now(), Traversal(OverflowChain, origin, path, stop))
      modifies this`traversals, control`failed
      ensures old(control.failed) ==> control.failed
      ensures Paid(0)
      ensures !control.failed ==> Good([]) && OneMore(origin, old(traversals))
    {
      hide Indexed, GoodTraversals, OpenPath, Fits, Spill, CellEntry, NewOrigin, Retained, Truthful, Caused;
      if !control.failed {
        RecordChain(pages, room, Now(), origin, path, stop);
        RecordedTruthful(Given(), Now(), Traversal(OverflowChain, origin, path, stop));
      }
      Append(origin, path, stop);
    }

    /** The cached claim of a page about the next one, made from the file on first use. */
    method NextClaim(current: nat, ghost origin: Entity, ghost path: seq<nat>) returns (index: nat)
      requires table.control == control
      requires !control.failed ==> Good(path) && OpenPath(pages, Now(), origin, path) && path[|path| - 1] == current
      modifies this`pageClaims, this`next, table`claims, control`failed
      ensures old(control.failed) ==> control.failed
      ensures !control.failed ==>
        && Good(path) && OpenPath(pages, Now(), origin, path)
        && current in pageClaims && index == pageClaims[current]
    {
      if current in pageClaims {
        return pageClaims[current];
      }
      hide Truthful, Indexed, GoodTraversals, OpenPath, SoundClaim;
      var c := PageClaim(pageCount, pages, current, firstWord(current));
      PageIsSound(pageCount, pages, current, firstWord(current));
      if !control.failed {
        assert Plain(pages, current) by {
          LastIsPlain(pages, Now(), origin, path);
        }
        PageClaimTruthful(Given(), Now(), current);
        AddPageClaim(pages, room, Now(), path, origin, current, c);
      }
      index := CacheClaim(current, c);
    }

    method CacheClaim(current: nat, c: Claim) returns (index: nat)
      requires table.control == control
      modifies this`pageClaims, this`next, table`claims, control`failed
      ensures old(control.failed) ==> control.failed
      ensures !control.failed ==> Now() == WithPageClaim(old(Now()), current, c) && index == |old(table.claims)|
    {
      index := |table.claims|;
      table.Push(c);
      var written := control.Access();
      if written {
        pageClaims := pageClaims[current := index];
        if c.IsLink() {
          next := next[current := c.target.value];
        }
      }
    }
  
    /** The chain so far is `prefix`, and `page` is about to be visited. */
    ghost predicate Following(origin: Entity, prefix: seq<nat>, page: nat)
      reads this, table
    {
      Good(prefix) && OpenPath(pages, Now(), origin, prefix + [page])
    }

    /** Asks whether one more page may be retained; records why not, which ends the phase. */
    method Admit(origin: Entity, prefix: seq<nat>, incoming: nat) returns (ok: bool)
      requires table.control == control
      requires Paid(|prefix|)
      modifies this`traversals, this`used, control
      ensures control.Later()
      ensures ok ==> Paid(|prefix| + 1) && traversals == old(traversals)
      ensures ok ==> (old(control.failed) <==> control.failed)
      ensures !ok ==> Paid(0) && (control.stop || control.aggregate)
    {
      if |prefix| % 256 == 0 {
        var granted := control.ReserveMemory();
      }
      var stopped := control.Stopped();
      ok := !stopped && used < maxTotal;
      if ok {
        used := used + 1;
        return;
      }
      if !stopped {
        control.MarkAggregate();
      }
      var read := control.Access();
      if read && incoming < |table.claims| {
        var c := table.claims[incoming];
        Append(origin, prefix, Some(TraversalStop(if stopped then Cancelled else StopReason.Budget, c.id, c.target)));
      }
    }

    /** The claim of the last visited page, when it can be read back. */
    method ReadClaim(index: nat, ghost page: nat) returns (c: Option<Claim>)
      requires table.control == control
      requires !control.failed ==> Indexed(pages, Now()) && page in pageClaims && index == pageClaims[page]
      modifies control`failed
      ensures old(control.failed) ==> control.failed
      ensures c.None? ==> control.failed
      ensures c.Some? ==>
        && !control.failed && index < |table.claims| && c.value == table.claims[index]
        && SoundClaim(pages, c.value)
        && (c.value.state.Validated? ==> page in next && page !in marked && c.value.target == Some(next[page]))
    {
      var read := control.Access();
      if !read {
        return None;
      }
      assert PageEntry(Now(), page);
      assert Owned(pages, Now(), index);
      c := Some(table.claims[index]);
    }

    /** Decides, from the claim of the last visited page, how the chain goes on. */
    method Judge(origin: Entity, path: seq<nat>, index: nat, remaining: nat) returns (visit: Visit)
      requires table.control == control && path != []
      requires Paid(|path|)
      requires !control.failed ==>
        && Recordable(origin, path, remaining == 0)
        && path[|path| - 1] in pageClaims && index == pageClaims[path[|path| - 1]]
      modifies this`traversals, this`marked, table`claims, control`budget, control`failed
      ensures (old(control.failed) ==> control.failed) && (old(control.budget) ==> control.budget)
      ensures visit.Continue? ==>
        !control.failed && Paid(|path|) && remaining > 0 && Following(origin, path, visit.page) && traversals == old(traversals)
      ensures visit.Finished? ==> Paid(0) && (!visit.go ==> control.failed) && (!control.failed ==> Good([]) && OneMore(origin, old(traversals)))
    {
      hide Truthful, AsRead, GoodTraversals, Retained;
      var read := ReadClaim(index, path[|path| - 1]);
      if read.None? {
        return Finished(false);
      }
      var c := read.value;
      if !c.state.Validated? || remaining == 0 {
        var reason := if c.state.Terminal? || c.state.Validated? then InvalidReference else c.stop.value;
        var complete := c.state.Terminal? && remaining == 0;
        assert remaining == 0 ==> |path| * room >= Spill(pages, origin);
        Record(origin, path, if complete then None else Some(TraversalStop(reason, c.id, c.target)));
        return Finished(true);
      }
      if c.target.value in path {
        visit := Withdraw(origin, path, index);
      } else if |path| >= maxPages {
        control.MarkBudget();
        Record(origin, path, Some(TraversalStop(StopReason.Budget, c.id, c.target)));
        visit := Finished(true);
      } else {
        ExtendOpen(pages, Now(), origin, path, c.target.value);
        visit := Continue(c.target.value, index);
      }
    }

    /** The next page is one of this chain's own pages: the pointer is withdrawn. */
    method Withdraw(origin: Entity, path: seq<nat>, index: nat) returns (visit: Visit)
      requires table.control == control && !control.failed
      requires Paid(|path|) && path != [] && Recordable(origin, path, false)
      requires var last := path[|path| - 1];
        && last in next && last !in marked && next[last] in path
        && last in pageClaims && index == pageClaims[last]
      requires index < |table.claims|
      modifies this`traversals, this`marked, table`claims, control`failed
      ensures visit.Finished? && Paid(0) && (!visit.go ==> control.failed) && (!control.failed ==> Good([]) && OneMore(origin, old(traversals)))
    {
      hide Truthful, Indexed, GoodTraversals, Retained, OpenPath, Fits, Spill;
      var c := table.claims[index];
      TakeBack(origin, path, index);
      if control.failed {
        return Finished(false);
      }
      Record(origin, path, Some(TraversalStop(StopReason.Cycle, c.id, c.target)));
      visit := Finished(true);
    }

    method TakeBack(ghost origin: Entity, path: seq<nat>, index: nat)
      requires table.control == control && !control.failed
      requires path != [] && Good(path) && OpenPath(pages, Now(), origin, path)
      requires var last := path[|path| - 1];
        && last in next && last !in marked && next[last] in path
        && last in pageClaims && index == pageClaims[last]
      requires index < |table.claims|
      modifies this`marked, table`claims, control`failed
      ensures !control.failed ==> Good(path) && OpenPath(pages, Now(), origin, path)
      ensures !control.failed ==>
        table.claims == old(table.claims)[index := old(table.claims)[index].(state := Conflicting, stop := Some(StopReason.Cycle))]
    {
      hide Truthful, Indexed, GoodTraversals, OpenPath;
      var last := path[|path| - 1];
      KnownEntry(pages, Now(), last);
      ghost var at :| 0 <= at < |path| && path[at] == next[last];
      WithdrawnTruthful(Given(), Now(), last, index);
      WithdrawLast(pages, room, Now(), origin, path, at, index);
      var read := table.SetState(index, Conflicting, Some(StopReason.Cycle));
      if !control.failed {
        marked := marked + {last};
        assert Now() == WithWithdrawn(old(Now()), last, index);
      }
    }

    /** The chain so far is `prefix`, `current` is next, and `remaining` bytes are missing. */
    ghost predicate Ready(origin: Entity, prefix: seq<nat>, current: nat, remaining: nat)
      reads this, table, control
    {
      && !control.failed
      && Paid(|prefix|) && Following(origin, prefix, current)
      && remaining > 0 && |prefix| * room + remaining == Spill(pages, origin)
    }

    /** No chain is being followed; when the phase may not go on, something interrupted it. */
    ghost predicate Settled(go: bool, origin: Entity, before: seq<Traversal>)
      reads this, table, control
    {
      && Paid(0)
      && (!go ==> control.failed || control.stop || control.aggregate)
      && (!control.failed ==> Indexed(pages, Now()))
      && (go && !control.failed ==> Good([]) && OneMore(origin, before))
    }

    /** Visits one page of the chain: admits it, takes its bytes off what is still missing and
        judges its pointer. The page was compared with the chain before it was taken up, so
        no page is visited twice. */
    method VisitPage(origin: Entity, prefix: seq<nat>, current: nat, incoming: nat, remaining: nat)
      returns (visit: Visit, left: nat)
      requires table.control == control
      requires Ready(origin, prefix, current, remaining)
      modifies this`traversals, this`pageClaims, this`used, this`next, this`marked, table`claims, control
      ensures control.Later()
      ensures current !in prefix && |prefix| < |pages|
      ensures visit.Continue? ==> Ready(origin, prefix + [current], visit.page, left) && traversals == old(traversals)
      ensures visit.Finished? ==> Settled(visit.go, origin, old(traversals))
    {
      hide Truthful, Indexed, GoodTraversals, OpenPath, Retained, Spill;
      ghost var path := prefix + [current];
      OpenFits(pages, Now(), origin, prefix, current);
      CountPage(room, Spill(pages, origin), |prefix|, remaining);
      GrowCurrent(pages, room, Now(), prefix, current);
      left := if remaining > room then remaining - room else 0;
      var admitted := Admit(origin, prefix, incoming);
      if !admitted {
        SameIndex(pages, old(Now()), Now());
        return Finished(false), left;
      }
      var index := NextClaim(current, origin, path);
      visit := Judge(origin, prefix + [current], index, left);
    }

    /** Follows one chain from the first page of a cell's claim. `spill` is what the cell
        leaves to overflow pages. */
    method FollowChain(origin: Entity, firstPage: nat, firstIndex: nat, spill: nat) returns (go: bool)
      requires table.control == control
      requires spill == Spill(pages, origin) && Ready(origin, [], firstPage, spill)
      modifies this`traversals, this`pageClaims, this`used, this`next, this`marked, table`claims, control
      ensures control.Later()
      ensures Settled(go, origin, old(traversals))
    {
      var current, incoming, prefix, remaining := firstPage, firstIndex, [], spill;
      while true
        invariant control.Later()
        invariant Ready(origin, prefix, current, remaining) && traversals == old(traversals)
        decreases |pages| - |prefix|
      {
        var visit, left := VisitPage(origin, prefix, current, incoming, remaining);
        if visit.Finished? {
          return visit.go;
        }
        prefix := prefix + [current];
        current, incoming, remaining := visit.page, visit.incoming, left;
      }
    }
  
    /** Records the claim of a cell about its first overflow page. */
    method ClaimFirst(origin: Entity, first: Claim) returns (index: nat, read: bool)
      requires table.control == control
      requires !control.failed ==>
        && Good([]) && first.source == origin && origin.Cell? && origin !in cellClaims
        && SoundClaim(pages, first) && HasKind(pages, origin.page) && AsRead(Given(), first)
      modifies this`cellClaims, table`claims, control`failed
      ensures old(control.failed) ==> control.failed
      ensures read <==> !control.failed
      ensures read ==>
        && Good([]) && CellEntry(Now(), origin) && NewOrigin(Now(), origin)
        && (first.IsLink() ==> OpenPath(pages, Now(), origin, [first.target.value]))
        && table.claims[cellClaims[origin]] == first
      ensures cellClaims.Keys == old(cellClaims.Keys) + {origin}
    {
      hide Truthful, AsRead, Indexed, GoodTraversals;
      index := |table.claims|;
      if !control.failed {
        CellClaimTruthful(Given(), Now(), first);
        AddCellClaim(pages, room, Now(), first);
      }
      table.Push(first);
      read := control.Access();
      cellClaims := cellClaims[origin := index];
      if read {
        assert Now() == WithCellClaim(old(Now()), first);
      }
    }

    /** Every cell with a claim has its traversal. */
    ghost predicate AllRecorded()
      reads this
    {
      forall e :: e in cellClaims ==> Started(traversals, e)
    }

    /** Claims the first overflow page of a cell and follows the chain from there. */
    method InspectCell(page: nat, cell: nat) returns (go: bool)
      requires table.control == control
      requires HasKind(pages, page) && cell < |pages[page - 1].cells| && pages[page - 1].cells[cell].Spilled()
      requires Paid(0)
      requires !control.failed ==> Good([]) && AllRecorded() && Cell(page, cell) !in cellClaims
      requires !control.failed && traversals == [] ==> table.claims == []
      modifies this`traversals, this`pageClaims, this`used, this`next, this`marked, this`cellClaims, table`claims, control
      ensures control.Later()
      ensures Paid(0)
      ensures !go ==> control.failed || control.stop || control.aggregate
      ensures !control.failed ==> Indexed(pages, Now())
      ensures go && !control.failed ==> Good([]) && AllRecorded() && (traversals == [] ==> table.claims == [])
      ensures go && !control.failed && pages[page - 1].cells[cell].overflowPage.Some? ==> Cell(page, cell) in cellClaims
      ensures old(cellClaims.Keys) <= cellClaims.Keys <= old(cellClaims.Keys) + {Cell(page, cell)}
    {
      hide Truthful, Indexed, GoodTraversals, Retained, Started;
      var info, origin := pages[page - 1].cells[cell], Cell(page, cell);
      if info.overflowPage.None? {
        return true;
      }
      var first := FirstClaim(pageCount, pages, origin, info);
      FirstIsSound(pageCount, pages, origin, info);
      var index, read := ClaimFirst(origin, first);
      if !read {
        return false;
      }
      go := StartChain(origin, first, index);
      StartedMore(old(traversals), traversals, origin);
    }

    /** The cell's claim is recorded: follow it, or record why not. */
    method StartChain(origin: Entity, first: Claim, index: nat) returns (go: bool)
      requires table.control == control && !control.failed
      requires Paid(0) && Good([]) && SoundClaim(pages, first) && !first.state.Terminal?
      requires CellEntry(Now(), origin) && NewOrigin(Now(), origin) && table.claims[cellClaims[origin]] == first
      requires first.IsLink() ==> OpenPath(pages, Now(), origin, [first.target.value]) && Spill(pages, origin) > 0
      modifies this`traversals, this`pageClaims, this`used, this`next, this`marked, table`claims, control
      ensures control.Later()
      ensures Settled(go, origin, old(traversals))
    {
      hide Truthful, Indexed, GoodTraversals, Retained;
      if !first.state.Validated? {
        Record(origin, [], Some(TraversalStop(first.stop.value, first.id, first.target)));
        return true;
      }
      var exhausted := used >= maxTotal;
      var stopped := control.Stopped();
      if exhausted || stopped {
        if !stopped {
          control.MarkAggregate();
        }
        Append(origin, [], Some(TraversalStop(if stopped then Cancelled else StopReason.Budget, first.id, first.target)));
        SameIndex(pages, old(Now()), Now());
        go := false;
      } else if maxPages == 0 {
        control.MarkBudget();
        Record(origin, [], Some(TraversalStop(StopReason.Budget, first.id, first.target)));
        go := true;
      } else {
        assert [] + [first.target.value] == [first.target.value];
        go := FollowChain(origin, first.target.value, index, Spill(pages, origin));
      }
    }
  }

  ghost predicate Started(traversals: seq<Traversal>, origin: Entity) {
    exists k :: 0 <= k < |traversals| && traversals[k].origin == origin
  }

  lemma StartedMore(before: seq<Traversal>, after: seq<Traversal>, origin: Entity)
    ensures (|after| == |before| + 1 && after[..|before|] == before && after[|before|].origin == origin) ==>
      Started(after, origin) && forall e :: Started(before, e) ==> Started(after, e)
  {
    if |after| == |before| + 1 && after[..|before|] == before && after[|before|].origin == origin {
      forall e | Started(before, e)
        ensures Started(after, e)
      {
        var k :| 0 <= k < |before| && before[k].origin == e;
        assert after[k] == before[k];
      }
    }
  }

  lemma PageIsSound(pageCount: nat, pages: seq<PageInfo>, page: nat, word: Option<nat>)
    ensures var c := PageClaim(pageCount, pages, page, word); c.source == Page(page) && SoundClaim(pages, c) && !Withdrawn(c)
  {
  }

  lemma LastIsPlain(pages: seq<PageInfo>, s: State, origin: Entity, path: seq<nat>)
    requires OpenPath(pages, s, origin, path)
    ensures Plain(pages, path[|path| - 1])
  {
  }

  lemma FirstIsSound(pageCount: nat, pages: seq<PageInfo>, origin: Entity, cell: CellInfo)
    requires cell.overflowPage.Some? && origin.Cell?
    ensures var first := FirstClaim(pageCount, pages, origin, cell);
      && first.source == origin && SoundClaim(pages, first) && !first.state.Terminal?
      && (first.IsLink() ==> !cell.overlapping)
  {
  }

  lemma OpenFits(pages: seq<PageInfo>, s: State, origin: Entity, prefix: seq<nat>, page: nat)
    requires OpenPath(pages, s, origin, prefix + [page])
    ensures |prefix| < |pages| && page !in prefix
  {
    var path := prefix + [page];
    forall k | 0 <= k < |path|
      ensures path[k] in PagesUpTo(|pages|)
    {
      assert Plain(pages, path[k]);
    }
    DistinctFit(path, PagesUpTo(|pages|));
    assert path[|prefix|] == page;
    assert forall k :: 0 <= k < |prefix| ==> path[k] == prefix[k];
  }

  lemma GrowCurrent(pages: seq<PageInfo>, room: nat, s: State, prefix: seq<nat>, page: nat)
    requires GoodTraversals(pages, room, s, prefix)
    ensures GoodTraversals(pages, room, s, prefix + [page])
  {
    assert PagesOf(prefix) <= PagesOf(prefix + [page]);
  }

  /** One page takes up to `room` of the bytes still missing. */
  lemma CountPage(room: nat, spill: nat, length: nat, remaining: nat)
    requires remaining > 0 && length * room + remaining == spill
    ensures Fits(room, spill, length + 1, remaining <= room)
    ensures remaining > room ==> (length + 1) * room + (remaining - room) == spill
  {
    assert (length + 1) * room == length * room + room;
  }

  lemma ExtendOpen(pages: seq<PageInfo>, s: State, origin: Entity, path: seq<nat>, page: nat)
    requires Indexed(pages, s) && OpenPath(pages, s, origin, path)
    requires var last := path[|path| - 1]; last in s.next && last !in s.marked && s.next[last] == page
    requires page !in path && Plain(pages, page)
    ensures OpenPath(pages, s, origin, path + [page])
  {
    var longer := path + [page];
    forall k | 0 <= k < |longer| - 1
      ensures longer[k] in s.next && s.next[longer[k]] == longer[k + 1] && longer[k] !in s.marked
    {
      if k < |path| - 1 {
        assert s.next[path[k]] == path[k + 1];
      }
    }
  }
}
