/** B-tree child claims: collection, local validation, single parents, cycles. */
module BtreeClaims {
  import opened Wrappers
  import opened Control
  import opened ClaimGraph
  import opened ClaimTables
  import opened Inventory
  import opened BtreeCycles

  // ---------------------------------------------------------------- collection

  function ClaimFrom(source: Entity, target: Option<nat>): seq<Claim> {
    if target.None? then [] else [Claim(BtreeClaimId(source), BtreeChild, source, target, Unresolved, None)]
  }

  function CellClaims(cells: seq<CellInfo>, page: nat, n: nat): seq<Claim>
    requires n <= |cells|
  {
    if n == 0 then [] else CellClaims(cells, page, n - 1) + ClaimFrom(Cell(page, n - 1), cells[n - 1].leftChild)
  }

  function PageClaims(info: PageInfo, page: nat): seq<Claim> {
    if info.kind.Some? && info.kind.value.Interior() then
      CellClaims(info.cells, page, |info.cells|) + ClaimFrom(Page(page), info.rightmost)
    else []
  }

  /** The child claims of the first `n` pages, in physical order. */
  function CollectedClaims(pages: seq<PageInfo>, n: nat): seq<Claim>
    requires n <= |pages|
  {
    if n == 0 then [] else CollectedClaims(pages, n - 1) + PageClaims(pages[n - 1], n)
  }

  function BtreeClaimId(source: Entity): ClaimId {
    match source
    case Page(page) => BtreeRightmostId(page)
    case Cell(page, cell) => BtreeCellId(page, cell)
  }

  /** What collection guarantees of every claim, and later phases keep. */
  ghost predicate FromInventory(pages: seq<PageInfo>, claims: seq<Claim>) {
    && (forall i :: 0 <= i < |claims| ==>
         && claims[i].kind == BtreeChild
         && claims[i].target.Some?
         && claims[i].id == BtreeClaimId(claims[i].source)
         && HasKind(pages, claims[i].source.page)
         && (claims[i].source.Cell? ==> claims[i].source.cell < |pages[claims[i].source.page - 1].cells|))
    && (forall i, j :: 0 <= i < j < |claims| ==> claims[i].source != claims[j].source)
  }

  /** A freshly collected claim. */
  ghost predicate Fresh(c: Claim) {
    && c.kind == BtreeChild && c.target.Some?
    && c.state == Unresolved && c.stop == None
    && c.id == BtreeClaimId(c.source)
  }

  /** Fresh claims of one page, told apart by their sources, with cells below `n`. */
  ghost predicate FreshOn(page: nat, n: nat, claims: seq<Claim>) {
    && (forall i :: 0 <= i < |claims| ==>
         Fresh(claims[i]) && claims[i].source.page == page && (claims[i].source.Cell? ==> claims[i].source.cell < n))
    && (forall i, j :: 0 <= i < j < |claims| ==> claims[i].source != claims[j].source)
  }

  lemma {:induction false} CellClaimsMeaning(cells: seq<CellInfo>, page: nat, n: nat)
    requires n <= |cells|
    ensures FreshOn(page, n, CellClaims(cells, page, n))
    ensures forall i :: 0 <= i < |CellClaims(cells, page, n)| ==> CellClaims(cells, page, n)[i].source.Cell?
  {
    if n > 0 {
      CellClaimsMeaning(cells, page, n - 1);
    }
  }

  lemma PageClaimsMeaning(info: PageInfo, page: nat)
    ensures FreshOn(page, |info.cells|, PageClaims(info, page))
  {
    CellClaimsMeaning(info.cells, page, |info.cells|);
  }

  ghost predicate FreshUpTo(n: nat, claims: seq<Claim>) {
    forall i :: 0 <= i < |claims| ==> Fresh(claims[i]) && claims[i].source.page <= n
  }

  lemma AppendPage(pages: seq<PageInfo>, n: nat, before: seq<Claim>, added: seq<Claim>)
    requires 0 < n <= |pages|
    requires FromInventory(pages, before) && FreshUpTo(n - 1, before)
    requires FreshOn(n, |pages[n - 1].cells|, added)
    requires added != [] ==> pages[n - 1].kind.Some?
    ensures FromInventory(pages, before + added) && FreshUpTo(n, before + added)
  {
  }

  /** Claims are named apart, start out unresolved and come from B-tree pages only. */
  lemma {:induction false} CollectedClaimsMeaning(pages: seq<PageInfo>, n: nat)
    requires n <= |pages|
    ensures FromInventory(pages, CollectedClaims(pages, n))
    ensures FreshUpTo(n, CollectedClaims(pages, n))
  {
    if n > 0 {
      CollectedClaimsMeaning(pages, n - 1);
      PageClaimsMeaning(pages[n - 1], n);
      AppendPage(pages, n, CollectedClaims(pages, n - 1), PageClaims(pages[n - 1], n));
    }
  }

  /** Child claims have names of their own, each once. */
  ghost predicate TreeNames(claims: seq<Claim>) {
    UniqueNames(claims) && forall i :: 0 <= i < |claims| ==> claims[i].id.BtreeCellId? || claims[i].id.BtreeRightmostId?
  }

  lemma NamedBySource(pages: seq<PageInfo>, claims: seq<Claim>, after: seq<Claim>)
    requires FromInventory(pages, claims) && SameClaims(claims, after)
    ensures TreeNames(after)
  {
    SameClaimsMeaning(claims, after);
    forall i, j | 0 <= i < j < |after|
      ensures after[i].id != after[j].id
    {
      assert claims[i].source != claims[j].source;
    }
  }

  // ---------------------------------------------------------------- validation

  predicate Compatible(source: Option<BtreeKind>, target: Option<BtreeKind>) {
    match source
    case Some(TableInterior) => target == Some(TableInterior) || target == Some(TableLeaf)
    case Some(IndexInterior) => target == Some(IndexInterior) || target == Some(IndexLeaf)
    case _ => false
  }

  /** One claim after local validation. */
  function ValidateClaim(pageCount: nat, pages: seq<PageInfo>, c: Claim): Claim {
    if !Inventory.Listed(pages, c.source.page) then c
    else
      var source := pages[c.source.page - 1];
      if c.source.Cell? && c.source.cell < |source.cells| && source.cells[c.source.cell].overlapping then
        c.(state := Invalid, stop := Some(OverlappingExtent))
      else
        var target := c.target.GetOr(0);
        if target == 0 then c.(state := Invalid, stop := Some(InvalidReference))
        else if target > pageCount then c.(state := Unresolved, stop := Some(OutOfRange))
        else if !Inventory.Listed(pages, target) then c.(state := Unresolved, stop := Some(CoverageStop))
        else if pages[target - 1].readFailed then c.(state := Unresolved, stop := Some(MissingTarget))
        else if pages[target - 1].reserved then c.(state := Conflicting, stop := Some(ConflictingClaim))
        else if Compatible(source.kind, pages[target - 1].kind) then c.(state := Validated)
        else c.(state := Invalid, stop := Some(StopReason.TypeMismatch))
  }

  /** A link joins an interior page to a listed, readable, unreserved page of its own tree
      family, and carries no stop reason. */
  ghost predicate SoundLink(pageCount: nat, pages: seq<PageInfo>, c: Claim) {
    c.state.Validated? ==>
      && c.target.Some? && c.stop.None?
      && Inventory.Listed(pages, c.source.page) && Inventory.Listed(pages, c.target.value)
      && c.target.value <= pageCount
      && var source, target := pages[c.source.page - 1], pages[c.target.value - 1];
      && Compatible(source.kind, target.kind)
      && !target.readFailed && !target.reserved
      && (c.source.Cell? && c.source.cell < |source.cells| ==> !source.cells[c.source.cell].overlapping)
  }

  ghost predicate SoundLinks(pageCount: nat, pages: seq<PageInfo>, claims: seq<Claim>) {
    forall i :: 0 <= i < |claims| ==> SoundLink(pageCount, pages, claims[i])
  }

  function ValidateAll(pageCount: nat, pages: seq<PageInfo>, claims: seq<Claim>): (r: seq<Claim>)
    ensures |r| == |claims|
  {
    seq(|claims|, i requires 0 <= i < |claims| => ValidateClaim(pageCount, pages, claims[i]))
  }

  // ---------------------------------------------------------------- claims on cycles

  /** The parent function of the first `n` claims; a later link to the same page wins. */
  function ParentMap(claims: seq<Claim>, n: nat): map<nat, nat>
    requires n <= |claims|
  {
    if n == 0 then map[]
    else
      var prior := ParentMap(claims, n - 1);
      if claims[n - 1].IsLink() then prior[claims[n - 1].target.value := claims[n - 1].source.page] else prior
  }

  lemma {:induction false} ParentMapMeaning(claims: seq<Claim>, n: nat)
    requires n <= |claims|
    requires SingleOwner(claims)
    ensures forall i :: 0 <= i < n && claims[i].IsLink() ==>
      claims[i].target.value in ParentMap(claims, n) && ParentMap(claims, n)[claims[i].target.value] == claims[i].source.page
    ensures forall t :: t in ParentMap(claims, n) ==>
      exists i :: 0 <= i < n && claims[i].IsLink() && claims[i].target.value == t
  {
    if n > 0 {
      ParentMapMeaning(claims, n - 1);
    }
  }

  lemma {:induction false} ParentMapKeys(pageCount: nat, pages: seq<PageInfo>, claims: seq<Claim>, n: nat)
    requires n <= |claims|
    requires SoundLinks(pageCount, pages, claims)
    ensures forall t :: t in ParentMap(claims, n) ==> 1 <= t <= |pages|
  {
    if n > 0 {
      ParentMapKeys(pageCount, pages, claims, n - 1);
      assert SoundLink(pageCount, pages, claims[n - 1]);
    }
  }

  ghost predicate OnClaimedCycle(claims: seq<Claim>, i: nat) {
    i < |claims| && claims[i].IsLink() && OnCycle(ParentMap(claims, |claims|), claims[i].target.value)
  }

  /** The links that lie on a cycle of the parent function. */
  ghost function CycleClaims(claims: seq<Claim>): set<nat> {
    set i | 0 <= i < |claims| && OnClaimedCycle(claims, i)
  }

  /** A surviving edge is a link of the parent function whose target lies on no cycle. */
  lemma SurvivingEdge(claims: seq<Claim>, reason: StopReason, e: Edge)
    requires SingleOwner(claims)
    requires e in ClaimEdges(Demote(claims, CycleClaims(claims), reason))
    ensures var parent := ParentMap(claims, |claims|);
      e.1 in parent && parent[e.1] == e.0 && !OnCycle(parent, e.1)
  {
    var after := Demote(claims, CycleClaims(claims), reason);
    var i :| 0 <= i < |after| && after[i].IsLink() && EdgeOf(after[i]) == e;
    ParentMapMeaning(claims, |claims|);
    assert claims[i].IsLink() && !OnClaimedCycle(claims, i);
  }

  ghost predicate GoesDown(parent: map<nat, nat>, path: seq<nat>) {
    forall m :: 1 <= m < |path| ==> path[m] in parent && parent[path[m]] == path[m - 1]
  }

  lemma {:induction false} GoingDownIsUp(parent: map<nat, nat>, path: seq<nat>, k: nat, n: nat)
    requires n <= k < |path|
    requires GoesDown(parent, path)
    ensures Up(parent, path[k], n) == path[k - n]
    decreases n
  {
    if n > 0 {
      GoingDownIsUp(parent, path, k - 1, n - 1);
    }
  }

  /** With both reconciliations done, the links that remain join no page to itself. */
  lemma WithoutCyclesAcyclic(claims: seq<Claim>, reason: StopReason)
    requires SingleOwner(claims)
    requires forall i :: 0 <= i < |claims| && claims[i].IsLink() ==> claims[i].target.value != 0
    ensures Acyclic(ClaimEdges(Demote(claims, CycleClaims(claims), reason)))
  {
    var edges := ClaimEdges(Demote(claims, CycleClaims(claims), reason));
    var parent := ParentMap(claims, |claims|);
    ParentMapMeaning(claims, |claims|);
    forall path | IsPath(edges, path) && |path| >= 2
      ensures path[0] != path[|path| - 1]
    {
      forall m | 1 <= m < |path|
        ensures path[m] in parent && parent[path[m]] == path[m - 1] && !OnCycle(parent, path[m])
      {
        assert (path[m - 1], path[m - 1 + 1]) in edges;
        SurvivingEdge(claims, reason, (path[m - 1], path[m]));
      }
      GoingDownIsUp(parent, path, |path| - 1, |path| - 1);
    }
  }

  /** A link with both ends on one cycle. */
  predicate Inside(c: Claim, byPage: map<nat, nat>, cycle: nat) {
    && c.IsLink()
    && c.source.page in byPage && byPage[c.source.page] == cycle
    && c.target.value in byPage && byPage[c.target.value] == cycle
  }

  /** The positions of the links inside `cycle` among the first `n` claims. */
  function InsideLinks(claims: seq<Claim>, byPage: map<nat, nat>, cycle: nat, n: nat): seq<nat>
    requires n <= |claims|
  {
    if n == 0 then []
    else
      var prior := InsideLinks(claims, byPage, cycle, n - 1);
      if Inside(claims[n - 1], byPage, cycle) then prior + [n - 1] else prior
  }

  /** Exactly the links inside the cycle, each once. */
  ghost predicate IsGroup(claims: seq<Claim>, byPage: map<nat, nat>, cycle: nat, n: nat, group: seq<nat>)
    requires n <= |claims|
  {
    && (forall k :: 0 <= k < |group| ==> group[k] < n && Inside(claims[group[k]], byPage, cycle))
    && (forall a, b :: 0 <= a < b < |group| ==> group[a] < group[b])
    && (forall i :: 0 <= i < n && Inside(claims[i], byPage, cycle) ==> i in group)
  }

  lemma OneMoreInside(claims: seq<Claim>, byPage: map<nat, nat>, cycle: nat, n: nat, before: seq<nat>)
    requires 0 < n <= |claims| && IsGroup(claims, byPage, cycle, n - 1, before)
    ensures IsGroup(claims, byPage, cycle, n, if Inside(claims[n - 1], byPage, cycle) then before + [n - 1] else before)
  {
    hide Inside;
    var all := before + [n - 1];
    assert all[|before|] == n - 1;
    forall i | 0 <= i < n && Inside(claims[i], byPage, cycle)
      ensures i in all
    {
      if i < n - 1 {
        assert i in before;
      }
    }
  }

  lemma {:induction false} InsideLinksMeaning(claims: seq<Claim>, byPage: map<nat, nat>, cycle: nat, n: nat)
    requires n <= |claims|
    ensures IsGroup(claims, byPage, cycle, n, InsideLinks(claims, byPage, cycle, n))
  {
    if n > 0 {
      hide IsGroup, Inside;
      InsideLinksMeaning(claims, byPage, cycle, n - 1);
      OneMoreInside(claims, byPage, cycle, n, InsideLinks(claims, byPage, cycle, n - 1));
    }
  }

  function CycleIndex(claims: seq<Claim>, byPage: map<nat, nat>, n: nat): map<nat, seq<nat>>
    requires n <= |claims|
  {
    if n == 0 then map[]
    else
      var prior := CycleIndex(claims, byPage, n - 1);
      var c := claims[n - 1];
      if c.IsLink() && c.source.page in byPage && c.target.value in byPage && byPage[c.source.page] == byPage[c.target.value]
      then
        var cycle := byPage[c.source.page];
        prior[cycle := (if cycle in prior then prior[cycle] else []) + [n - 1]]
      else prior
  }

  lemma {:induction false} CycleIndexMeaning(claims: seq<Claim>, byPage: map<nat, nat>, n: nat, cycle: nat)
    requires n <= |claims|
    ensures var index := CycleIndex(claims, byPage, n);
      && (cycle in index ==> index[cycle] == InsideLinks(claims, byPage, cycle, n))
      && (cycle !in index ==> InsideLinks(claims, byPage, cycle, n) == [])
  {
    if n > 0 {
      CycleIndexMeaning(claims, byPage, n - 1, cycle);
    }
  }

  ghost predicate PagesByCycle(cycles: seq<seq<nat>>, n: nat, byPage: map<nat, nat>)
    requires n <= |cycles|
  {
    && (forall p :: p in byPage ==> byPage[p] < n && p in cycles[byPage[p]])
    && (forall c, p :: 0 <= c < n && p in cycles[c] ==> p in byPage)
  }

  /** A link lies inside its cycle exactly when its target does: the parent of a page on a
      cycle is on the same cycle. */
  lemma InsideIsOnCycle(claims: seq<Claim>, cycles: seq<seq<nat>>, byPage: map<nat, nat>, i: nat)
    requires SingleOwner(claims)
    requires AllCycles(ParentMap(claims, |claims|), cycles)
    requires PagesByCycle(cycles, |cycles|, byPage)
    requires i < |claims|
    ensures OnClaimedCycle(claims, i) <==> exists c :: 0 <= c < |cycles| && Inside(claims[i], byPage, c)
  {
    var parent := ParentMap(claims, |claims|);
    ParentMapMeaning(claims, |claims|);
    if OnClaimedCycle(claims, i) {
      var target := claims[i].target.value;
      assert BtreeCycles.Listed(cycles, target);
      var c := byPage[target];
      var k :| 0 <= k < |cycles[c]| && cycles[c][k] == target;
      var above := cycles[c][if k == |cycles[c]| - 1 then 0 else k + 1];
      assert IsCycle(parent, cycles[c]);
      assert parent[target] == above && above in cycles[c];
      assert above in byPage && byPage[above] == c;
      assert Inside(claims[i], byPage, c);
    }
    if c :| 0 <= c < |cycles| && Inside(claims[i], byPage, c) {
      assert BtreeCycles.Listed(cycles, claims[i].target.value);
    }
  }

  // ---------------------------------------------------------------- the reconciled claims

  /** The claims as an uninterrupted validation leaves them. */
  ghost function Reconciled(pageCount: nat, pages: seq<PageInfo>, claims: seq<Claim>): (r: seq<Claim>)
    ensures |r| == |claims|
  {
    var validated := ValidateAll(pageCount, pages, claims);
    var owned := Demote(validated, SharedClaims(validated), ConflictingClaim);
    Demote(owned, CycleClaims(owned), StopReason.Cycle)
  }

  /** Validation changes verdicts only. */
  lemma ReconciledIsSame(pageCount: nat, pages: seq<PageInfo>, claims: seq<Claim>)
    ensures SameClaims(claims, Reconciled(pageCount, pages, claims))
  {
    var validated := ValidateAll(pageCount, pages, claims);
    var owned := Demote(validated, SharedClaims(validated), ConflictingClaim);
    hide SharedClaims, CycleClaims;
    assert Identities(validated) == Identities(claims);
    assert Identities(owned) == Identities(validated);
    assert Identities(Reconciled(pageCount, pages, claims)) == Identities(owned);
  }

  /** Every claim that is not a link says why, so no later phase lacks a stop reason. */
  ghost predicate Reasoned(claims: seq<Claim>) {
    forall i :: 0 <= i < |claims| && !claims[i].IsLink() ==> claims[i].stop.Some?
  }

  ghost predicate TreeLinks(pageCount: nat, pages: seq<PageInfo>, claims: seq<Claim>) {
    SoundLinks(pageCount, pages, claims) && SingleOwner(claims) && Acyclic(ClaimEdges(claims))
  }

  lemma ValidatedAreSound(pageCount: nat, pages: seq<PageInfo>, claims: seq<Claim>)
    requires FromInventory(pages, claims) && forall i :: 0 <= i < |claims| ==> Fresh(claims[i])
    ensures SoundLinks(pageCount, pages, ValidateAll(pageCount, pages, claims))
    ensures SameClaims(claims, ValidateAll(pageCount, pages, claims))
  {
  }

  lemma DemotionKeepsSound(pageCount: nat, pages: seq<PageInfo>, claims: seq<Claim>, chosen: set<nat>, reason: StopReason)
    requires SoundLinks(pageCount, pages, claims)
    ensures SoundLinks(pageCount, pages, Demote(claims, chosen, reason))
  {
    var after := Demote(claims, chosen, reason);
    forall i | 0 <= i < |claims|
      ensures SoundLink(pageCount, pages, after[i])
    {
      assert SoundLink(pageCount, pages, claims[i]);
    }
  }

  lemma SoundIsClean(pageCount: nat, pages: seq<PageInfo>, claims: seq<Claim>)
    requires SoundLinks(pageCount, pages, claims)
    ensures CleanLinks(claims)
  {
    forall i | 0 <= i < |claims| && claims[i].state.Validated?
      ensures claims[i].stop.None?
    {
      assert SoundLink(pageCount, pages, claims[i]);
    }
  }

  lemma DemotionKeepsOwners(claims: seq<Claim>, chosen: set<nat>, reason: StopReason)
    requires SingleOwner(claims)
    ensures SingleOwner(Demote(claims, chosen, reason))
  {
  }

  /** Local validation, single parents and cycle removal together leave a forest of sound
      links, and change no claim's identity. */
  lemma ReconciledIsForest(pageCount: nat, pages: seq<PageInfo>, claims: seq<Claim>)
    requires FromInventory(pages, claims) && forall i :: 0 <= i < |claims| ==> Fresh(claims[i])
    ensures TreeLinks(pageCount, pages, Reconciled(pageCount, pages, claims))
    ensures SameClaims(claims, Reconciled(pageCount, pages, claims))
    ensures Reasoned(Reconciled(pageCount, pages, claims))
  {
    hide SharedClaims, CycleClaims, SoundLinks, SingleOwner, ClaimEdges, Acyclic, SameClaims, Reasoned, Demote;
    ReconciledIsSame(pageCount, pages, claims);
    var validated := ValidateAll(pageCount, pages, claims);
    ValidatedAreSound(pageCount, pages, claims);
    ValidatedAreReasoned(pageCount, pages, claims);
    var owned := Demote(validated, SharedClaims(validated), ConflictingClaim);
    DemotedSharedIsSingleOwner(validated, ConflictingClaim);
    DemotionKeepsSound(pageCount, pages, validated, SharedClaims(validated), ConflictingClaim);
    DemotionKeepsReasoned(validated, SharedClaims(validated), ConflictingClaim);
    SoundTargets(pageCount, pages, owned);
    WithoutCyclesAcyclic(owned, StopReason.Cycle);
    DemotionKeepsSound(pageCount, pages, owned, CycleClaims(owned), StopReason.Cycle);
    DemotionKeepsReasoned(owned, CycleClaims(owned), StopReason.Cycle);
    DemotionKeepsOwners(owned, CycleClaims(owned), StopReason.Cycle);
  }

  lemma DemotionKeepsReasoned(claims: seq<Claim>, chosen: set<nat>, reason: StopReason)
    requires Reasoned(claims)
    ensures Reasoned(Demote(claims, chosen, reason))
  {
  }

  lemma ValidatedAreReasoned(pageCount: nat, pages: seq<PageInfo>, claims: seq<Claim>)
    requires FromInventory(pages, claims)
    ensures Reasoned(ValidateAll(pageCount, pages, claims))
  {
  }

  lemma SoundTargets(pageCount: nat, pages: seq<PageInfo>, claims: seq<Claim>)
    requires SoundLinks(pageCount, pages, claims)
    ensures forall i :: 0 <= i < |claims| && claims[i].IsLink() ==>
      1 <= claims[i].target.value <= |pages| && 1 <= claims[i].source.page <= |pages|
  {
    forall i | 0 <= i < |claims| && claims[i].IsLink()
      ensures 1 <= claims[i].target.value <= |pages| && 1 <= claims[i].source.page <= |pages|
    {
      assert SoundLink(pageCount, pages, claims[i]);
    }
  }

  // ---------------------------------------------------------------- the phase

  /** Demotes the group of each page that several links enter. */
  method DemoteDuplicates(table: ClaimTable, incoming: map<nat, seq<nat>>, limit: nat)
    requires !table.control.failed ==>
      CleanLinks(table.claims) && incoming == TargetIndex(table.claims, |table.claims|)
    modifies table`claims, table.control`stop, table.control`failed
    ensures table.control.Later()
    ensures SameClaims(old(table.claims), table.claims) && |table.claims| == |old(table.claims)|
    ensures !table.control.stop && !table.control.failed ==>
      table.claims == Demote(old(table.claims), SharedBelow(old(table.claims), limit), ConflictingClaim)
  {
    var control := table.control;
    ghost var before := table.claims;
    for target: nat := 0 to limit
      invariant control.Later()
      invariant SameClaims(before, table.claims) && |table.claims| == |before|
      invariant !control.failed ==> table.claims == Demote(before, SharedBelow(before, target), ConflictingClaim)
    {
      var admitted := control.ReserveMemory();
      var ok := control.Access();
      var stopped := control.Stopped();
      if stopped {
        return;
      }
      var group := if ok && target in incoming then incoming[target] else [];
      if ok {
        TargetIndexMeaning(before, |before|, target);
        SharedStep(before, target, group);
      }
      if |group| > 1 {
        var done := table.ConflictingClaims(group, ConflictingClaim, before, SharedBelow(before, target));
        if !done {
          return;
        }
      }
    }
  }

  /** Two claims on one page withdraw each other, whichever came first. */
  method MarkDuplicateParents(ghost pageCount: nat, pages: seq<PageInfo>, table: ClaimTable)
    requires !table.control.failed ==> SoundLinks(pageCount, pages, table.claims)
    modifies table`claims, table.control`stop, table.control`failed
    ensures table.control.Later()
    ensures SameClaims(old(table.claims), table.claims) && |table.claims| == |old(table.claims)|
    ensures !table.control.stop && !table.control.failed ==>
      table.claims == Demote(old(table.claims), SharedClaims(old(table.claims)), ConflictingClaim)
  {
    ghost var before := table.claims;
    var incoming, complete := table.IndexLinks();
    if !complete {
      return;
    }
    if !table.control.failed {
      SoundIsClean(pageCount, pages, before);
      SoundTargets(pageCount, pages, before);
      assert SharedBelow(before, |pages| + 1) == SharedClaims(before);
    }
    DemoteDuplicates(table, incoming, |pages| + 1);
  }

  /** The parent function as `btree_cycles` collects it. */
  method IndexParents(table: ClaimTable) returns (parent: map<nat, nat>, complete: bool)
    modifies table.control`stop, table.control`failed
    ensures table.control.Later()
    ensures !complete ==> table.control.stop
    ensures complete && !table.control.failed ==> parent == ParentMap(table.claims, |table.claims|)
  {
    parent, complete := map[], false;
    for i: nat := 0 to |table.claims|
      invariant table.control.Later()
      invariant !table.control.failed ==> parent == ParentMap(table.claims, i)
    {
      var ok := table.control.Access();
      if !ok {
        break;
      }
      var stopped := table.control.Stopped();
      if stopped {
        return;
      }
      if table.claims[i].IsLink() {
        parent := parent[table.claims[i].target.value := table.claims[i].source.page];
      }
    }
    complete := true;
  }

  /** The positions of the links inside each cycle. */
  method IndexCycleClaims(table: ClaimTable, byPage: map<nat, nat>) returns (byCycle: map<nat, seq<nat>>, complete: bool)
    modifies table.control`stop, table.control`failed
    ensures table.control.Later()
    ensures !complete ==> table.control.stop
    ensures complete && !table.control.failed ==> byCycle == CycleIndex(table.claims, byPage, |table.claims|)
  {
    byCycle, complete := map[], false;
    for i: nat := 0 to |table.claims|
      invariant table.control.Later()
      invariant !table.control.failed ==> byCycle == CycleIndex(table.claims, byPage, i)
    {
      var ok := table.control.Access();
      if !ok {
        break;
      }
      var stopped := table.control.Stopped();
      if stopped {
        return;
      }
      var c := table.claims[i];
      if c.IsLink() && c.source.page in byPage && c.target.value in byPage && byPage[c.source.page] == byPage[c.target.value] {
        var admitted := table.control.ReserveMemory();
        if table.control.stop {
          return;
        }
        var cycle := byPage[c.source.page];
        byCycle := byCycle[cycle := (if cycle in byCycle then byCycle[cycle] else []) + [i]];
      }
    }
    complete := true;
  }

  /** Maps each page of a found cycle to the cycle's number. */
  method IndexCyclePages(cycles: seq<seq<nat>>, control: WorkControl) returns (byPage: map<nat, nat>, complete: bool)
    modifies control`stop, control`failed
    ensures control.Later()
    ensures !complete ==> control.stop || control.failed
    ensures complete && !control.failed && (forall c, d, p :: 0 <= c < d < |cycles| && p in cycles[c] ==> p !in cycles[d])
      ==> PagesByCycle(cycles, |cycles|, byPage)
  {
    byPage, complete := map[], false;
    for c: nat := 0 to |cycles|
      invariant control.Later()
      invariant PagesByCycle(cycles, c, byPage)
    {
      ghost var earlier := byPage;
      for k: nat := 0 to |cycles[c]|
        invariant control.Later()
        invariant forall p :: p in byPage ==>
          byPage[p] <= c && p in cycles[byPage[p]] && (byPage[p] < c ==> p in earlier)
        invariant forall p :: p in earlier ==> p in byPage
        invariant forall m :: 0 <= m < k ==> cycles[c][m] in byPage
      {
        var stopped := control.Stopped();
        if stopped {
          return;
        }
        var ok := control.Access();
        if !ok {
          return;
        }
        byPage := byPage[cycles[c][k] := c];
      }
    }
    complete := true;
  }

  ghost predicate InsideBelow(claims: seq<Claim>, byPage: map<nat, nat>, i: nat, limit: nat) {
    i < |claims| && claims[i].IsLink() && claims[i].target.value in byPage
      && Inside(claims[i], byPage, byPage[claims[i].target.value]) && byPage[claims[i].target.value] < limit
  }

  ghost function ClaimsBelow(claims: seq<Claim>, byPage: map<nat, nat>, limit: nat): set<nat> {
    set i | 0 <= i < |claims| && InsideBelow(claims, byPage, i, limit)
  }

  lemma CycleStep(claims: seq<Claim>, byPage: map<nat, nat>, cycle: nat, group: seq<nat>)
    requires CleanLinks(claims)
    requires group == InsideLinks(claims, byPage, cycle, |claims|)
    ensures Demotable(claims, group)
    ensures ClaimsBelow(claims, byPage, cycle + 1) == ClaimsBelow(claims, byPage, cycle) + Members(group)
    ensures Members(group) !! ClaimsBelow(claims, byPage, cycle)
  {
    InsideLinksMeaning(claims, byPage, cycle, |claims|);
    forall i | i in ClaimsBelow(claims, byPage, cycle + 1) && i !in ClaimsBelow(claims, byPage, cycle)
      ensures i in Members(group)
    {
      assert i in group;
    }
    forall i | i in Members(group)
      ensures i in ClaimsBelow(claims, byPage, cycle + 1) && i !in ClaimsBelow(claims, byPage, cycle)
    {
      assert i in group;
    }
  }

  /** Demotes the group of each cycle in turn. */
  method DemoteCycles(table: ClaimTable, byCycle: map<nat, seq<nat>>, count: nat, ghost byPage: map<nat, nat>)
    requires !table.control.failed ==>
      CleanLinks(table.claims) && byCycle == CycleIndex(table.claims, byPage, |table.claims|)
    modifies table`claims, table.control`stop, table.control`failed
    ensures table.control.Later()
    ensures SameClaims(old(table.claims), table.claims) && |table.claims| == |old(table.claims)|
    ensures !table.control.stop && !table.control.failed ==>
      table.claims == Demote(old(table.claims), ClaimsBelow(old(table.claims), byPage, count), StopReason.Cycle)
  {
    var control := table.control;
    ghost var before := table.claims;
    ghost var demoted: set<nat> := {};
    for cycle: nat := 0 to count
      invariant control.Later()
      invariant SameClaims(before, table.claims) && |table.claims| == |before|
      invariant !control.failed ==>
        table.claims == Demote(before, demoted, StopReason.Cycle) && demoted <= ClaimsBelow(before, byPage, cycle)
      invariant !control.failed && !control.stop ==> demoted == ClaimsBelow(before, byPage, cycle)
    {
      var admitted := control.ReserveMemory();
      var ok := control.Access();
      var group := if admitted && ok && cycle in byCycle then byCycle[cycle] else [];
      if ok {
        CycleIndexMeaning(before, byPage, |before|, cycle);
        CycleStep(before, byPage, cycle, InsideLinks(before, byPage, cycle, |before|));
      }
      var done := table.ConflictingClaims(group, StopReason.Cycle, before, demoted);
      if !done {
        return;
      }
      demoted := demoted + Members(group);
    }
  }

  /** Withdraws exactly the claims that lie on a cycle of the parent function. */
  method MarkBtreeCycles(ghost pageCount: nat, pages: seq<PageInfo>, table: ClaimTable)
    requires !table.control.failed ==> SoundLinks(pageCount, pages, table.claims)
    requires !table.control.failed && !table.control.stop ==> SingleOwner(table.claims)
    modifies table`claims, table.control`stop, table.control`failed
    ensures table.control.Later()
    ensures SameClaims(old(table.claims), table.claims) && |table.claims| == |old(table.claims)|
    ensures !table.control.stop && !table.control.failed ==>
      table.claims == Demote(old(table.claims), CycleClaims(old(table.claims)), StopReason.Cycle)
  {
    var control := table.control;
    ghost var before := table.claims;
    var parent, indexed := IndexParents(table);
    if !indexed {
      return;
    }
    if !control.failed {
      SoundIsClean(pageCount, pages, before);
      ParentMapKeys(pageCount, pages, before, |before|);
    }
    var cycles := FindCycles(parent, |pages|, control);
    if control.stop {
      return;
    }
    var byPage, mapped := IndexCyclePages(cycles, control);
    if !mapped {
      return;
    }
    var byCycle, grouped := IndexCycleClaims(table, byPage);
    if !grouped {
      return;
    }
    DemoteCycles(table, byCycle, |cycles|, byPage);
    if !control.failed && !control.stop {
      AllCyclesDemoted(before, cycles, byPage);
    }
  }

  lemma AllCyclesDemoted(claims: seq<Claim>, cycles: seq<seq<nat>>, byPage: map<nat, nat>)
    requires SingleOwner(claims)
    requires AllCycles(ParentMap(claims, |claims|), cycles)
    requires PagesByCycle(cycles, |cycles|, byPage)
    ensures ClaimsBelow(claims, byPage, |cycles|) == CycleClaims(claims)
  {
    forall i: nat | i < |claims|
      ensures i in ClaimsBelow(claims, byPage, |cycles|) <==> i in CycleClaims(claims)
    {
      InsideIsOnCycle(claims, cycles, byPage, i);
    }
  }

  /** Collects one claim per child pointer of every interior page, in physical order; an
      interruption leaves the claims of a prefix of the inventory. */
  method CollectBtreeClaims(pages: seq<PageInfo>, control: WorkControl) returns (table: ClaimTable)
    modifies control`stop, control`failed
    ensures control.Later()
    ensures fresh(table) && table.control == control
    ensures FromInventory(pages, table.claims) && FreshUpTo(|pages|, table.claims)
    ensures !control.stop && !control.failed ==> table.claims == CollectedClaims(pages, |pages|)
  {
    table := new ClaimTable(control);
    assert FromInventory(pages, table.claims) && FreshUpTo(0, table.claims);
    hide FromInventory, FreshUpTo;
    for n: nat := 0 to |pages|
      invariant control.Later()
      invariant FromInventory(pages, table.claims) && FreshUpTo(n, table.claims)
      invariant !control.stop && !control.failed ==> table.claims == CollectedClaims(pages, n)
    {
      var ok := control.Access();
      if !ok {
        return;
      }
      var stopped := control.Stopped();
      if stopped {
        return;
      }
      PageClaimsMeaning(pages[n], n + 1);
      AppendPage(pages, n + 1, table.claims, PageClaims(pages[n], n + 1));
      table.claims := table.claims + PageClaims(pages[n], n + 1);
    }
  }

  /** Validates every claim in place, up to a stop or a failed access. */
  method ValidateLocally(pageCount: nat, pages: seq<PageInfo>, table: ClaimTable) returns (complete: bool)
    modifies table`claims, table.control`stop, table.control`failed
    ensures table.control.Later()
    ensures SameClaims(old(table.claims), table.claims) && |table.claims| == |old(table.claims)|
    ensures !complete ==> table.control.stop || table.control.failed
    ensures complete && !table.control.failed ==> table.claims == ValidateAll(pageCount, pages, old(table.claims))
  {
    var control := table.control;
    ghost var before := table.claims;
    complete := false;
    for i: nat := 0 to |table.claims|
      invariant control.Later()
      invariant SameClaims(before, table.claims) && |table.claims| == |before|
      invariant !control.failed ==> forall k :: 0 <= k < |before| ==>
        table.claims[k] == if k < i then ValidateClaim(pageCount, pages, before[k]) else before[k]
    {
      var stopped := control.Stopped();
      if stopped {
        return;
      }
      var c := ValidateClaim(pageCount, pages, table.claims[i]);
      var read := table.SetState(i, c.state, c.stop);
      if !read {
        return;
      }
    }
    complete := true;
  }

  /** Validates every claim in place, then reconciles parents and cycles. When nothing
      interrupts the phase its links are the reconciled ones; when a stop does, no link is
      left. Either way the links form a forest, unless the private store failed. */
  method ValidateBtreeClaims(pageCount: nat, pages: seq<PageInfo>, table: ClaimTable)
    requires FromInventory(pages, table.claims) && FreshUpTo(|pages|, table.claims)
    modifies table`claims, table.control`stop, table.control`failed
    ensures table.control.Later()
    ensures SameClaims(old(table.claims), table.claims) && |table.claims| == |old(table.claims)|
    ensures !table.control.stop && !table.control.failed ==>
      table.claims == Reconciled(pageCount, pages, old(table.claims))
    ensures !table.control.failed ==> TreeLinks(pageCount, pages, table.claims)
  {
    hide SharedClaims, CycleClaims, Demote, ValidateAll, SoundLinks, SingleOwner, CleanLinks, FromInventory, FreshUpTo, Acyclic, ClaimEdges;
    var control := table.control;
    ghost var before := table.claims;
    assert forall i :: 0 <= i < |before| ==> Fresh(before[i]) by {
      FreshOnes(|pages|, before);
    }
    var complete := ValidateLocally(pageCount, pages, table);
    ValidatedAreSound(pageCount, pages, before);
    MarkedAreSound(pageCount, pages, before);
    ReconciledIsForest(pageCount, pages, before);
    if complete {
      var stopped := control.Stopped();
      if !stopped {
        MarkDuplicateParents(pageCount, pages, table);
      }
      stopped := control.Stopped();
      if !stopped {
        MarkBtreeCycles(pageCount, pages, table);
      }
    }
    var stopped := control.Stopped();
    if stopped {
      WithdrawTrees(pageCount, pages, table, before);
    }
  }

  lemma FreshOnes(n: nat, claims: seq<Claim>)
    requires FreshUpTo(n, claims)
    ensures forall i :: 0 <= i < |claims| ==> Fresh(claims[i])
  {
  }

  /** An interrupted phase keeps its claims and withdraws their verdicts. */
  method WithdrawTrees(ghost pageCount: nat, pages: seq<PageInfo>, table: ClaimTable, ghost before: seq<Claim>)
    requires FromInventory(pages, before) && SameClaims(before, table.claims)
    modifies table`claims, table.control`failed
    ensures old(table.control.failed) ==> table.control.failed
    ensures SameClaims(before, table.claims) && |table.claims| == |before|
    ensures !table.control.failed ==> TreeLinks(pageCount, pages, table.claims)
  {
    ghost var kept := table.claims;
    SameClaimsMeaning(before, kept);
    table.Downgrade(BtreeChild);
    if !table.control.failed {
      NoLinks(pageCount, pages, table.claims);
    }
  }

  lemma MarkedAreSound(pageCount: nat, pages: seq<PageInfo>, claims: seq<Claim>)
    requires SoundLinks(pageCount, pages, ValidateAll(pageCount, pages, claims))
    ensures var validated := ValidateAll(pageCount, pages, claims);
      var owned := Demote(validated, SharedClaims(validated), ConflictingClaim);
      SoundLinks(pageCount, pages, owned) && CleanLinks(owned) && SingleOwner(owned)
  {
    var validated := ValidateAll(pageCount, pages, claims);
    DemotedSharedIsSingleOwner(validated, ConflictingClaim);
    DemotionKeepsSound(pageCount, pages, validated, SharedClaims(validated), ConflictingClaim);
    SoundIsClean(pageCount, pages, Demote(validated, SharedClaims(validated), ConflictingClaim));
  }

  lemma NoLinks(pageCount: nat, pages: seq<PageInfo>, claims: seq<Claim>)
    requires forall i :: 0 <= i < |claims| ==> !claims[i].state.Validated?
    ensures TreeLinks(pageCount, pages, claims)
  {
    NoLinksNoCycles(claims);
  }
}
