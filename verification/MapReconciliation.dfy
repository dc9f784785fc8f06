/** Checking pointer-map entries against the claims found by following links. */
module MapReconciliation {
  import opened Wrappers
  import opened Control
  import opened ClaimGraph
  import opened ClaimTables
  import opened ClaimTargets
  import opened FileGeometry
  import opened PointerMap

  // ---------------------------------------------------------------- local validation

  predicate ValidParent(g: Geometry, e: MapEntry)
    requires g.Valid() && e.kind.Some? && e.parent.Some?
  {
    var parent := e.parent.value;
    if e.kind.value.BtreeRoot? || e.kind.value.Freelist? then parent == 0
    else 0 < parent <= g.pageCount && parent != e.target && ReservedRole(g, parent).None?
  }

  function ValidateEntry(g: Geometry, e: MapEntry): MapEntry
    requires g.Valid()
  {
    if e.kind.None? then e.(state := Invalid)
    else if e.parent.None? then e
    else if e.target > g.pageCount then e.(state := Unresolved)
    else if !ValidParent(g, e) then e.(state := Invalid)
    else if e.kind.value.BtreeRoot? && e.target > g.largestRoot then e.(state := Conflicting)
    else e.(state := Validated)
  }

  /** The entries of one map, of which the first `n` are checked. */
  ghost predicate Checked(g: Geometry, before: seq<MapEntry>, n: nat, after: seq<MapEntry>)
    requires g.Valid()
  {
    |after| == |before| && forall k :: 0 <= k < |after| ==> after[k] == if k < n then ValidateEntry(g, before[k]) else before[k]
  }

  ghost predicate PartlyChecked(g: Geometry, before: seq<MapEntry>, after: seq<MapEntry>)
    requires g.Valid()
  {
    exists n :: Checked(g, before, n, after)
  }

  lemma NoneChecked(g: Geometry, entries: seq<MapEntry>)
    requires g.Valid()
    ensures PartlyChecked(g, entries, entries)
  {
    assert Checked(g, entries, 0, entries);
  }

  /** Checks the entries of all maps on their own. A stop keeps the verdicts given so far, also
      those about a part of a map. */
  method ValidateMaps(g: Geometry, maps: seq<MapPage>, control: WorkControl) returns (r: seq<MapPage>, complete: bool)
    requires g.Valid()
    modifies control`stop, control`failed
    ensures control.Later()
    ensures SameMaps(maps, r)
    ensures !complete ==> control.stop || control.failed
    ensures complete ==> !control.stop
    ensures !control.failed ==> forall m :: 0 <= m < |r| ==> PartlyChecked(g, maps[m].entries, r[m].entries)
    ensures complete && !control.failed ==> forall m :: 0 <= m < |r| ==> Checked(g, maps[m].entries, |maps[m].entries|, r[m].entries)
  {
    r, complete := maps, false;
    hide ValidateEntry, Checked, PartlyChecked;
    forall m | 0 <= m < |maps|
      ensures PartlyChecked(g, maps[m].entries, maps[m].entries)
    {
      NoneChecked(g, maps[m].entries);
    }
    for m: nat := 0 to |maps|
      invariant control.Later()
      invariant SameMaps(maps, r) && (forall n :: m <= n < |r| ==> r[n] == maps[n])
      invariant !control.failed ==> forall n :: 0 <= n < |r| ==> PartlyChecked(g, maps[n].entries, r[n].entries)
      invariant !control.failed ==> forall n :: 0 <= n < m ==> Checked(g, maps[n].entries, |maps[n].entries|, r[n].entries)
    {
      var admitted := control.ReserveMemory();
      var read := control.Access();
      if !admitted || !read {
        return;
      }
      var entries, done := ValidateEntries(g, maps[m].entries, control);
      var written := control.Access();
      if written {
        r := r[m := maps[m].(entries := entries)];
      }
      if !done {
        return;
      }
    }
    var stopped := control.Stopped();
    complete := !stopped;
  }

  method ValidateEntries(g: Geometry, before: seq<MapEntry>, control: WorkControl) returns (entries: seq<MapEntry>, done: bool)
    requires g.Valid()
    modifies control`stop
    ensures control.Later()
    ensures !done ==> control.stop
    ensures SameEntries(before, entries)
    ensures PartlyChecked(g, before, entries)
    ensures done ==> Checked(g, before, |before|, entries)
  {
    entries, done := before, false;
    for k: nat := 0 to |before|
      invariant control.Later()
      invariant Checked(g, before, k, entries)
    {
      var stopped := control.Stopped();
      if stopped {
        return;
      }
      entries := entries[k := ValidateEntry(g, entries[k])];
    }
    done := true;
  }

  /** The same maps, with other verdicts about their entries. */
  ghost predicate SameMaps(before: seq<MapPage>, after: seq<MapPage>) {
    |after| == |before| && forall m :: 0 <= m < |after| ==> after[m].page == before[m].page && SameEntries(before[m].entries, after[m].entries)
  }

  ghost predicate SameEntries(before: seq<MapEntry>, after: seq<MapEntry>) {
    |after| == |before| && forall k :: 0 <= k < |after| ==> after[k] == before[k].(state := after[k].state)
  }

  lemma SameMapsApart(g: Geometry, before: seq<MapPage>, after: seq<MapPage>)
    requires g.Valid() && SameMaps(before, after) && MapsApart(g, before)
    ensures MapsApart(g, after)
  {
    hide MapFor;
    forall m | 0 <= m < |after|
      ensures OfGroup(g, after[m].page, after[m].entries)
    {
      assert OfGroup(g, before[m].page, before[m].entries) && SameEntries(before[m].entries, after[m].entries);
    }
  }

  // ---------------------------------------------------------------- agreement with claims

  predicate Credible(c: Claim) {
    c.state.Validated? || c.state.Conflicting?
  }

  /** The claim says about its target what the entry says. */
  predicate Agrees(e: MapEntry, c: Claim)
    requires e.kind.Some?
  {
    match e.kind.value
    case BtreeRoot => false
    case Freelist => c.kind.FreelistTrunk? || c.kind.FreelistLeaf?
    case BtreeLink => c.kind.BtreeChild? && e.parent == Some(c.source.page)
    case FirstOverflow => c.kind.Overflow? && c.source.Cell? && e.parent == Some(c.source.page)
    case ChainedOverflow => c.kind.Overflow? && c.source.Page? && e.parent == Some(c.source.page)
  }

  /** A validated entry is contradicted by no credible claim on its page, and unless it
      speaks of a root some validated claim says the same. */
  ghost predicate Agreed(claims: seq<Claim>, e: MapEntry) {
    e.state.Validated? && e.kind.Some? ==>
      !Contradicted(claims, e) && (!e.kind.value.BtreeRoot? ==> Confirmed(claims, e))
  }

  /** Some credible claim on the page says something else. */
  ghost predicate Contradicted(claims: seq<Claim>, e: MapEntry)
    requires e.kind.Some?
  {
    exists i :: 0 <= i < |claims| && claims[i].target == Some(e.target) && Credible(claims[i]) && !Agrees(e, claims[i])
  }

  /** Some validated claim on the page says the same. */
  ghost predicate Confirmed(claims: seq<Claim>, e: MapEntry)
    requires e.kind.Some?
  {
    exists i :: 0 <= i < |claims| && claims[i].target == Some(e.target) && claims[i].state.Validated? && Agrees(e, claims[i])
  }

  /** The claims speak against the entry; when every link of the file was looked at, a missing
      forward link does so as well. */
  ghost predicate Refuted(claims: seq<Claim>, e: MapEntry, evaluated: bool) {
    e.state.Validated? && e.kind.Some?
    && (Contradicted(claims, e) || (evaluated && !e.kind.value.BtreeRoot? && !Confirmed(claims, e)))
  }

  /** What the claims make of an entry. */
  ghost function Judged(claims: seq<Claim>, e: MapEntry, evaluated: bool): MapEntry {
    if !e.state.Validated? || e.kind.None? then e
    else if Refuted(claims, e, evaluated) then e.(state := Conflicting)
    else if !e.kind.value.BtreeRoot? && !Confirmed(claims, e) then e.(state := Unresolved)
    else e
  }

  /** The credible claims on some pages. */
  ghost function CredibleOn(claims: seq<Claim>, pages: set<nat>): set<nat> {
    set i | 0 <= i < |claims| && Credible(claims[i]) && claims[i].target.Some? && claims[i].target.value in pages
  }

  /** The claims when every credible one on these pages has been withdrawn. */
  ghost function Disputed(claims: seq<Claim>, pages: set<nat>): seq<Claim> {
    Demote(claims, CredibleOn(claims, pages), ConflictingClaim)
  }

  lemma DisputedNothing(claims: seq<Claim>)
    ensures Disputed(claims, {}) == claims
  {
  }

  lemma DisputedTwice(claims: seq<Claim>, a: set<nat>, b: set<nat>)
    ensures Disputed(Disputed(claims, a), b) == Disputed(claims, a + b)
  {
  }

  lemma DisputedTargets(claims: seq<Claim>, pages: set<nat>)
    ensures OnlyDemoted(claims, Disputed(claims, pages))
  {
    var after := Disputed(claims, pages);
    assert Identities(after) == Identities(claims);
  }

  /** What the claims say about one page is untouched by disputes about other pages. */
  lemma OtherPages(claims: seq<Claim>, pages: set<nat>, e: MapEntry)
    requires e.kind.Some? && e.target !in pages
    ensures Contradicted(Disputed(claims, pages), e) <==> Contradicted(claims, e)
    ensures Confirmed(Disputed(claims, pages), e) <==> Confirmed(claims, e)
  {
    var after := Disputed(claims, pages);
    forall i | 0 <= i < |claims|
      ensures after[i].target == claims[i].target && (claims[i].target == Some(e.target) ==> after[i] == claims[i])
    {
    }
    if Contradicted(claims, e) {
      var i :| 0 <= i < |claims| && claims[i].target == Some(e.target) && Credible(claims[i]) && !Agrees(e, claims[i]);
      assert after[i] == claims[i];
    }
    if Confirmed(claims, e) {
      var i :| 0 <= i < |claims| && claims[i].target == Some(e.target) && claims[i].state.Validated? && Agrees(e, claims[i]);
      assert after[i] == claims[i];
    }
  }

  /** A claim keeps its verdict, or a credible one becomes Conflicting. */
  ghost predicate OnlyDemoted(before: seq<Claim>, after: seq<Claim>) {
    && SameClaims(before, after) && |before| == |after|
    && forall i :: 0 <= i < |after| ==>
         after[i] == before[i] || (Credible(before[i]) && after[i] == before[i].(state := Conflicting, stop := Some(ConflictingClaim)))
  }

  lemma OnlyDemotedTwice(a: seq<Claim>, b: seq<Claim>, c: seq<Claim>)
    requires OnlyDemoted(a, b) && OnlyDemoted(b, c)
    ensures OnlyDemoted(a, c)
  {
  }

  /** Every edge that is left was there before. */
  lemma DemotedEdges(before: seq<Claim>, after: seq<Claim>)
    requires OnlyDemoted(before, after)
    ensures ClaimEdges(after) <= ClaimEdges(before)
    ensures SingleOwner(before) ==> SingleOwner(after)
  {
    forall e | e in ClaimEdges(after)
      ensures e in ClaimEdges(before)
    {
      var i :| 0 <= i < |after| && after[i].IsLink() && EdgeOf(after[i]) == e;
      assert before[i].IsLink();
    }
  }

  ghost predicate Group(claims: seq<Claim>, page: nat, group: seq<nat>) {
    NamingPositions(claims, page, |claims|, group)
  }

  lemma GroupKept(claims: seq<Claim>, pages: set<nat>, page: nat)
    ensures Group(Disputed(claims, pages), page, Naming(claims, page, |claims|))
  {
    NamingMeaning(claims, page, |claims|);
    var after := Disputed(claims, pages);
    forall i | 0 <= i < |claims|
      ensures after[i].target == claims[i].target
    {
    }
  }

  /** Reads the claims that name the entry's page and compares. */
  method Compare(e: MapEntry, group: seq<nat>, table: ClaimTable) returns (contradicted: bool, confirmed: bool, complete: bool)
    requires e.kind.Some?
    requires !table.control.failed ==> Group(table.claims, e.target, group)
    modifies table.control`stop, table.control`failed
    ensures table.control.Later()
    ensures !complete ==> table.control.stop || table.control.failed
    ensures complete && !table.control.failed ==>
      && (contradicted <==> Contradicted(table.claims, e))
      && (confirmed <==> Confirmed(table.claims, e))
  {
    contradicted, confirmed, complete := false, false, false;
    for k: nat := 0 to |group|
      invariant table.control.Later()
      invariant !table.control.failed ==>
        && (contradicted <==> exists m :: 0 <= m < k && Credible(table.claims[group[m]]) && !Agrees(e, table.claims[group[m]]))
        && (confirmed <==> exists m :: 0 <= m < k && table.claims[group[m]].state.Validated? && Agrees(e, table.claims[group[m]]))
    {
      var stopped := table.control.Stopped();
      if stopped {
        return;
      }
      var read := table.control.Access();
      if !read {
        return;
      }
      var c := table.claims[group[k]];
      contradicted := contradicted || (Credible(c) && !Agrees(e, c));
      confirmed := confirmed || (c.state.Validated? && Agrees(e, c));
    }
    if !table.control.failed {
      GroupDecides(table.claims, e, group);
    }
    complete := true;
  }

  lemma GroupDecides(claims: seq<Claim>, e: MapEntry, group: seq<nat>)
    requires e.kind.Some? && Group(claims, e.target, group)
    ensures Contradicted(claims, e) <==> exists m :: 0 <= m < |group| && Credible(claims[group[m]]) && !Agrees(e, claims[group[m]])
    ensures Confirmed(claims, e) <==> exists m :: 0 <= m < |group| && claims[group[m]].state.Validated? && Agrees(e, claims[group[m]])
  {
    forall i | 0 <= i < |claims| && claims[i].target == Some(e.target)
      ensures exists m :: 0 <= m < |group| && group[m] == i
    {
      assert i in group;
    }
  }

  /** The credible claims among the first `n` of a group. */
  ghost function CredibleAmong(claims: seq<Claim>, group: seq<nat>, n: nat): set<nat>
    requires n <= |group| && forall k :: 0 <= k < |group| ==> group[k] < |claims|
  {
    set k | 0 <= k < n && Credible(claims[group[k]]) :: group[k]
  }

  lemma AllAmong(claims: seq<Claim>, page: nat, group: seq<nat>)
    requires Group(claims, page, group)
    ensures CredibleAmong(claims, group, |group|) == CredibleOn(claims, {page})
  {
    forall i | i in CredibleOn(claims, {page})
      ensures i in CredibleAmong(claims, group, |group|)
    {
      assert i in group;
    }
  }

  lemma SomeAmong(claims: seq<Claim>, group: seq<nat>, n: nat)
    requires n <= |group| && forall k :: 0 <= k < |group| ==> group[k] < |claims|
    ensures OnlyDemoted(claims, Demote(claims, CredibleAmong(claims, group, n), ConflictingClaim))
  {
    assert Identities(Demote(claims, CredibleAmong(claims, group, n), ConflictingClaim)) == Identities(claims);
  }

  /** Withdraws every credible claim on one page; a stop leaves the later ones. */
  method Dispute(target: nat, group: seq<nat>, table: ClaimTable) returns (complete: bool)
    requires !table.control.failed ==> Group(table.claims, target, group)
    modifies table`claims, table.control`stop, table.control`failed
    ensures table.control.Later()
    ensures |table.claims| == |old(table.claims)|
    ensures !table.control.failed ==> OnlyDemoted(old(table.claims), table.claims)
    ensures complete && !table.control.failed ==> table.claims == Disputed(old(table.claims), {target})
    ensures !complete ==> table.control.stop || table.control.failed
  {
    ghost var before := table.claims;
    complete := false;
    if !table.control.failed {
      SomeAmong(before, group, 0);
      assert Demote(before, CredibleAmong(before, group, 0), ConflictingClaim) == before;
    }
    for k: nat := 0 to |group|
      invariant table.control.Later()
      invariant |table.claims| == |before|
      invariant !table.control.failed ==> table.claims == Demote(before, CredibleAmong(before, group, k), ConflictingClaim)
    {
      var stopped := table.control.Stopped();
      if stopped {
        if !table.control.failed {
          SomeAmong(before, group, k);
        }
        return;
      }
      var read := table.control.Access();
      if !read {
        return;
      }
      var i := group[k];
      assert CredibleAmong(before, group, k + 1) == CredibleAmong(before, group, k) + if Credible(before[i]) then {i} else {};
      if Credible(table.claims[i]) {
        read := table.SetState(i, Conflicting, Some(ConflictingClaim));
        if !read {
          return;
        }
      }
    }
    if !table.control.failed {
      SomeAmong(before, group, |group|);
      AllAmong(before, target, group);
    }
    complete := true;
  }

  ghost function RefutedPage(claims: seq<Claim>, e: MapEntry, evaluated: bool): set<nat> {
    if Refuted(claims, e, evaluated) then {e.target} else {}
  }

  /** What holds of the table while entries are reconciled: `claims` are the claims before any
      entry was looked at, and those on `pages` have been withdrawn. */
  ghost predicate Withdrawn(table: ClaimTable, incoming: map<nat, seq<nat>>, claims: seq<Claim>, pages: set<nat>)
    reads table, table.control
  {
    |table.claims| == |claims|
    && (!table.control.failed ==> table.claims == Disputed(claims, pages) && incoming == NamingIndex(claims, |claims|))
  }

  /** Reconciles one entry. `evaluated` says that every link of the file was looked at, so a
      missing forward link counts as a contradiction. */
  method ReconcileEntry(e: MapEntry, incoming: map<nat, seq<nat>>, table: ClaimTable, evaluated: bool, ghost claims: seq<Claim>, ghost pages: set<nat>)
    returns (r: MapEntry, complete: bool)
    requires Withdrawn(table, incoming, claims, pages) && e.target !in pages
    modifies table`claims, table.control`stop, table.control`failed
    ensures table.control.Later()
    ensures r == e.(state := r.state) && |table.claims| == |claims|
    ensures !table.control.failed ==> (r == e || r == Judged(claims, e, evaluated)) && OnlyDemoted(claims, table.claims)
    ensures complete ==> Withdrawn(table, incoming, claims, pages + RefutedPage(claims, e, evaluated))
    ensures complete && !table.control.failed ==> r == Judged(claims, e, evaluated)
    ensures !complete ==> table.control.stop || table.control.failed
  {
    hide Disputed, OnlyDemoted, NamingIndex, Contradicted, Confirmed;
    r, complete := e, false;
    DisputedTargets(claims, pages);
    assert pages + {} == pages;
    var stopped := table.control.Stopped();
    if stopped {
      return;
    }
    if e.state.Validated? && e.kind.Some? {
      r, complete := JudgeEntry(e, incoming, table, evaluated, claims, pages);
    } else {
      complete := true;
    }
  }

  /** The claims about one entry, seen when other pages have been disputed. */
  lemma EntryView(claims: seq<Claim>, pages: set<nat>, e: MapEntry, incoming: map<nat, seq<nat>>)
    requires e.kind.Some? && e.target !in pages && incoming == NamingIndex(claims, |claims|)
    ensures var now := Disputed(claims, pages);
      && (Contradicted(now, e) <==> Contradicted(claims, e)) && (Confirmed(now, e) <==> Confirmed(claims, e))
      && Group(now, e.target, if e.target in incoming then incoming[e.target] else [])
      && Disputed(now, {e.target}) == Disputed(claims, pages + {e.target}) && OnlyDemoted(claims, now)
  {
    hide Disputed, OnlyDemoted, Contradicted, Confirmed, Group, NamingIndex, Naming;
    OtherPages(claims, pages, e);
    GroupKept(claims, pages, e.target);
    NamingIndexMeaning(claims, |claims|, e.target);
    DisputedTwice(claims, pages, {e.target});
    DisputedTargets(claims, pages);
  }

  method JudgeEntry(e: MapEntry, incoming: map<nat, seq<nat>>, table: ClaimTable, evaluated: bool, ghost claims: seq<Claim>, ghost pages: set<nat>)
    returns (r: MapEntry, complete: bool)
    requires Withdrawn(table, incoming, claims, pages) && e.target !in pages && e.state.Validated? && e.kind.Some?
    modifies table`claims, table.control`stop, table.control`failed
    ensures table.control.Later()
    ensures r == e.(state := r.state) && |table.claims| == |claims|
    ensures !table.control.failed ==> (r == e || r == Judged(claims, e, evaluated)) && OnlyDemoted(claims, table.claims)
    ensures complete ==> Withdrawn(table, incoming, claims, pages + RefutedPage(claims, e, evaluated))
    ensures complete && !table.control.failed ==> r == Judged(claims, e, evaluated)
    ensures !complete ==> table.control.stop || table.control.failed
  {
    hide Disputed, OnlyDemoted, Group, NamingIndex, Naming, Contradicted, Confirmed, Agrees, Credible;
    r, complete := e, false;
    assert pages + {} == pages;
    if !table.control.failed {
      EntryView(claims, pages, e, incoming);
    }
    var admitted := table.control.ReserveMemory();
    var read := table.control.Access();
    var group := if read && e.target in incoming then incoming[e.target] else [];
    var stopped := table.control.Stopped();
    if stopped {
      return;
    }
    var contradicted, confirmed, compared := Compare(e, group, table);
    if !compared {
      return;
    }
    var root := e.kind.value.BtreeRoot?;
    complete := true;
    if contradicted || (!root && !confirmed && evaluated) {
      ghost var before := table.claims;
      r := e.(state := Conflicting);
      complete := Dispute(e.target, group, table);
      if !table.control.failed {
        OnlyDemotedTwice(claims, before, table.claims);
      }
    } else if !root && !confirmed {
      r := e.(state := Unresolved);
    }
  }

  ghost predicate DistinctTargets(entries: seq<MapEntry>) {
    forall a, b :: 0 <= a < b < |entries| ==> entries[a].target != entries[b].target
  }

  /** The pages of the entries, among the first `n`, that the claims refute. */
  ghost function RefutedPages(claims: seq<Claim>, entries: seq<MapEntry>, n: nat, evaluated: bool): set<nat>
    requires n <= |entries|
  {
    if n == 0 then {} else RefutedPages(claims, entries, n - 1, evaluated) + RefutedPage(claims, entries[n - 1], evaluated)
  }

  lemma {:induction false} RefutedIsEntry(claims: seq<Claim>, entries: seq<MapEntry>, n: nat, evaluated: bool, page: nat) returns (k: nat)
    requires n <= |entries| && page in RefutedPages(claims, entries, n, evaluated)
    ensures k < n && entries[k].target == page && Refuted(claims, entries[k], evaluated)
  {
    if page in RefutedPage(claims, entries[n - 1], evaluated) {
      k := n - 1;
    } else {
      k := RefutedIsEntry(claims, entries, n - 1, evaluated, page);
    }
  }

  /** The first `n` entries are judged by the claims, and the others are as they were. */
  ghost predicate JudgedUpTo(claims: seq<Claim>, before: seq<MapEntry>, n: nat, evaluated: bool, after: seq<MapEntry>) {
    |after| == |before| && forall k :: 0 <= k < |after| ==> after[k] == if k < n then Judged(claims, before[k], evaluated) else before[k]
  }

  ghost predicate Partly(claims: seq<Claim>, before: seq<MapEntry>, evaluated: bool, after: seq<MapEntry>) {
    |after| == |before| && forall k :: 0 <= k < |after| ==> after[k] == before[k] || after[k] == Judged(claims, before[k], evaluated)
  }

  lemma EntryIsFresh(claims: seq<Claim>, entries: seq<MapEntry>, k: nat, evaluated: bool, pages: set<nat>)
    requires DistinctTargets(entries) && k < |entries| && entries[k].target !in pages
    ensures entries[k].target !in pages + RefutedPages(claims, entries, k, evaluated)
  {
    if entries[k].target in RefutedPages(claims, entries, k, evaluated) {
      var j := RefutedIsEntry(claims, entries, k, evaluated, entries[k].target);
      assert false;
    }
  }

  /** Reconciles the entries of one map in order. Each page has one entry, so a dispute about
      one page never changes what the claims say about another entry, and every entry is
      judged by the claims as they were before. A stop keeps the verdicts given so far. */
  method ReconcileEntries(entries: seq<MapEntry>, incoming: map<nat, seq<nat>>, table: ClaimTable, evaluated: bool,
                          ghost claims: seq<Claim>, ghost pages: set<nat>)
    returns (r: seq<MapEntry>, complete: bool)
    requires Withdrawn(table, incoming, claims, pages)
    requires DistinctTargets(entries) && forall k :: 0 <= k < |entries| ==> entries[k].target !in pages
    modifies table`claims, table.control`stop, table.control`failed
    ensures table.control.Later()
    ensures SameEntries(entries, r) && |table.claims| == |claims|
    ensures !table.control.failed ==> Partly(claims, entries, evaluated, r) && OnlyDemoted(claims, table.claims)
    ensures complete ==> Withdrawn(table, incoming, claims, pages + RefutedPages(claims, entries, |entries|, evaluated))
    ensures complete && !table.control.failed ==> JudgedUpTo(claims, entries, |entries|, evaluated, r)
    ensures !complete ==> table.control.stop || table.control.failed
  {
    r, complete := entries, false;
    DisputedTargets(claims, pages);
    assert pages + {} == pages;
    hide Disputed, OnlyDemoted, Judged, Refuted;
    for k: nat := 0 to |entries|
      invariant table.control.Later()
      invariant SameEntries(entries, r)
      invariant Withdrawn(table, incoming, claims, pages + RefutedPages(claims, entries, k, evaluated))
      invariant !table.control.failed ==> JudgedUpTo(claims, entries, k, evaluated, r) && OnlyDemoted(claims, table.claims)
    {
      EntryIsFresh(claims, entries, k, evaluated, pages);
      var e, done := ReconcileEntry(entries[k], incoming, table, evaluated, claims, pages + RefutedPages(claims, entries, k, evaluated));
      r := r[k := e];
      if !done {
        return;
      }
      assert pages + RefutedPages(claims, entries, k, evaluated) + RefutedPage(claims, entries[k], evaluated)
          == pages + RefutedPages(claims, entries, k + 1, evaluated);
    }
    complete := true;
  }

  /** The pages of the entries, in the first `m` maps, that the claims refute. */
  ghost function RefutedIn(claims: seq<Claim>, maps: seq<MapPage>, m: nat, evaluated: bool): set<nat>
    requires m <= |maps|
  {
    if m == 0 then {}
    else RefutedIn(claims, maps, m - 1, evaluated) + RefutedPages(claims, maps[m - 1].entries, |maps[m - 1].entries|, evaluated)
  }

  /** An entry's page is disputed only if the claims refute that very entry. */
  lemma {:induction false} RefutedAlone(g: Geometry, claims: seq<Claim>, maps: seq<MapPage>, n: nat, evaluated: bool, m: nat, k: nat)
    requires g.Valid() && MapsApart(g, maps) && n <= |maps| && m < |maps| && k < |maps[m].entries|
    ensures maps[m].entries[k].target in RefutedIn(claims, maps, n, evaluated) ==> m < n && Refuted(claims, maps[m].entries[k], evaluated)
  {
    hide MapsApart;
    if n > 0 {
      var page := maps[m].entries[k].target;
      RefutedAlone(g, claims, maps, n - 1, evaluated, m, k);
      if page in RefutedPages(claims, maps[n - 1].entries, |maps[n - 1].entries|, evaluated) {
        var j := RefutedIsEntry(claims, maps[n - 1].entries, |maps[n - 1].entries|, evaluated, page);
        if n - 1 != m || j != k {
          OnePageOneEntry(g, maps, n - 1, j, m, k);
        }
      }
    }
  }

  lemma EntriesAreFresh(g: Geometry, claims: seq<Claim>, maps: seq<MapPage>, m: nat, evaluated: bool)
    requires g.Valid() && MapsApart(g, maps) && m < |maps|
    ensures DistinctTargets(maps[m].entries)
    ensures forall k :: 0 <= k < |maps[m].entries| ==> maps[m].entries[k].target !in RefutedIn(claims, maps, m, evaluated)
  {
    forall k | 0 <= k < |maps[m].entries|
      ensures maps[m].entries[k].target !in RefutedIn(claims, maps, m, evaluated)
    {
      RefutedAlone(g, claims, maps, m, evaluated, m, k);
    }
    forall a, b | 0 <= a < b < |maps[m].entries|
      ensures maps[m].entries[a].target != maps[m].entries[b].target
    {
      OnePageOneEntry(g, maps, m, a, m, b);
    }
  }

  /** All maps agree with the claims. */
  ghost predicate MapsAgree(claims: seq<Claim>, maps: seq<MapPage>) {
    forall m, k :: 0 <= m < |maps| && 0 <= k < |maps[m].entries| ==> Agreed(claims, maps[m].entries[k])
  }

  /** Every entry of every map is judged by the claims. */
  ghost predicate MapsJudged(claims: seq<Claim>, before: seq<MapPage>, evaluated: bool, after: seq<MapPage>) {
    |after| == |before| && forall m :: 0 <= m < |after| ==> JudgedUpTo(claims, before[m].entries, |before[m].entries|, evaluated, after[m].entries)
  }

  ghost predicate MapsPartly(claims: seq<Claim>, before: seq<MapPage>, evaluated: bool, after: seq<MapPage>) {
    |after| == |before| && forall m :: 0 <= m < |after| ==> Partly(claims, before[m].entries, evaluated, after[m].entries)
  }

  /** Entries judged by the claims agree with what is left of the claims. */
  lemma JudgedAgree(g: Geometry, claims: seq<Claim>, before: seq<MapPage>, evaluated: bool, after: seq<MapPage>)
    requires g.Valid() && MapsApart(g, before) && MapsJudged(claims, before, evaluated, after)
    ensures MapsAgree(Disputed(claims, RefutedIn(claims, before, |before|, evaluated)), after)
  {
    hide MapsApart, Disputed, Contradicted, Confirmed;
    var pages := RefutedIn(claims, before, |before|, evaluated);
    forall m, k | 0 <= m < |after| && 0 <= k < |after[m].entries|
      ensures Agreed(Disputed(claims, pages), after[m].entries[k])
    {
      var e := before[m].entries[k];
      assert JudgedUpTo(claims, before[m].entries, |before[m].entries|, evaluated, after[m].entries);
      RefutedAlone(g, claims, before, |before|, evaluated, m, k);
      if e.state.Validated? && e.kind.Some? && !Refuted(claims, e, evaluated) {
        OtherPages(claims, pages, e);
      }
    }
  }

  /** Reconciles all maps with the claims. When it completes, every entry has been judged by
      the claims as they were, exactly the credible claims on the pages of refuted entries are
      withdrawn, and the entries agree with what is left. A stop keeps what was done so far. */
  method ReconcileMaps(g: Geometry, maps: seq<MapPage>, table: ClaimTable, evaluated: bool)
    returns (r: seq<MapPage>, complete: bool)
    requires g.Valid() && MapsApart(g, maps)
    modifies table`claims, table.control`stop, table.control`failed
    ensures table.control.Later()
    ensures |table.claims| == |old(table.claims)|
    ensures SameMaps(maps, r)
    ensures !table.control.failed ==> OnlyDemoted(old(table.claims), table.claims) && MapsPartly(old(table.claims), maps, evaluated, r)
    ensures complete && !table.control.failed ==>
      && MapsJudged(old(table.claims), maps, evaluated, r)
      && table.claims == Disputed(old(table.claims), RefutedIn(old(table.claims), maps, |maps|, evaluated))
      && MapsAgree(table.claims, r)
    ensures !complete ==> table.control.stop || table.control.failed
    ensures complete ==> !table.control.stop
  {
    hide MapsApart, OnlyDemoted, Judged, Disputed, RefutedPages, MapsAgree, JudgedUpTo, Partly, NamingIndex, SameEntries, DistinctTargets, RefutedIn,
      MapsPartly, MapsJudged;
    ghost var claims := table.claims;
    r, complete := maps, false;
    MapsAreSame(maps);
    NoneRefuted(claims, maps, evaluated);
    UnchangedDemotes(claims);
    SomeMapsJudged(claims, maps, 0, evaluated, r);
    var incoming, indexed := IndexClaimTargets(table);
    if !indexed {
      return;
    }
    for m: nat := 0 to |maps|
      invariant table.control.Later()
      invariant SameMaps(maps, r)
      invariant Withdrawn(table, incoming, claims, RefutedIn(claims, maps, m, evaluated))
      invariant forall n :: m <= n < |maps| ==> r[n] == maps[n]
      invariant !table.control.failed ==> OnlyDemoted(claims, table.claims)
      invariant !table.control.failed ==> forall n :: 0 <= n < m ==> JudgedUpTo(claims, maps[n].entries, |maps[n].entries|, evaluated, r[n].entries)
    {
      if !table.control.failed {
        SomeMapsJudged(claims, maps, m, evaluated, r);
      }
      var admitted := table.control.ReserveMemory();
      var read := table.control.Access();
      if !admitted || !read {
        return;
      }
      EntriesAreFresh(g, claims, maps, m, evaluated);
      RefutedInStep(claims, maps, m, evaluated);
      var entries, done := ReconcileEntries(maps[m].entries, incoming, table, evaluated, claims, RefutedIn(claims, maps, m, evaluated));
      if !table.control.failed {
        OneMorePartly(claims, maps, m, evaluated, r, entries);
      }
      var written := table.control.Access();
      if written {
        r := r[m := r[m].(entries := entries)];
      }
      if !done {
        return;
      }
    }
    var stopped := table.control.Stopped();
    complete := !stopped;
    if !table.control.failed {
      SomeMapsJudged(claims, maps, |maps|, evaluated, r);
      JudgedAgree(g, claims, maps, evaluated, r);
    }
  }

  lemma NoneRefuted(claims: seq<Claim>, maps: seq<MapPage>, evaluated: bool)
    ensures Disputed(claims, RefutedIn(claims, maps, 0, evaluated)) == claims
  {
    DisputedNothing(claims);
  }

  lemma RefutedInStep(claims: seq<Claim>, maps: seq<MapPage>, m: nat, evaluated: bool)
    requires m < |maps|
    ensures RefutedIn(claims, maps, m + 1, evaluated)
         == RefutedIn(claims, maps, m, evaluated) + RefutedPages(claims, maps[m].entries, |maps[m].entries|, evaluated)
  {
  }

  lemma OneMorePartly(claims: seq<Claim>, maps: seq<MapPage>, m: nat, evaluated: bool, r: seq<MapPage>, entries: seq<MapEntry>)
    requires MapsPartly(claims, maps, evaluated, r) && m < |maps| && Partly(claims, maps[m].entries, evaluated, entries)
    ensures MapsPartly(claims, maps, evaluated, r[m := r[m].(entries := entries)])
  {
  }

  lemma SomeMapsJudged(claims: seq<Claim>, maps: seq<MapPage>, m: nat, evaluated: bool, r: seq<MapPage>)
    requires |r| == |maps| && m <= |maps| && forall n :: m <= n < |maps| ==> r[n] == maps[n]
    requires forall n :: 0 <= n < m ==> JudgedUpTo(claims, maps[n].entries, |maps[n].entries|, evaluated, r[n].entries)
    ensures MapsPartly(claims, maps, evaluated, r)
    ensures m == |maps| ==> MapsJudged(claims, maps, evaluated, r)
  {
    forall n | 0 <= n < |r|
      ensures Partly(claims, maps[n].entries, evaluated, r[n].entries)
    {
      if n < m {
        assert JudgedUpTo(claims, maps[n].entries, |maps[n].entries|, evaluated, r[n].entries);
      }
    }
  }

  lemma MapsAreSame(maps: seq<MapPage>)
    ensures SameMaps(maps, maps)
  {
  }

  lemma UnchangedDemotes(claims: seq<Claim>)
    ensures OnlyDemoted(claims, claims)
  {
  }
}
