/** The last phase of topology inspection: page roles settle, claims on disputed pages fall,
    and what was built on fallen claims is withheld. */
module RoleReconciliation {
  import opened Wrappers
  import opened Control
  import opened Roles
  import opened RolePropagation
  import opened RoleCollection
  import opened LinkForest
  import G = ClaimGraph
  import P = PointerMap

  // ---------------------------------------------------------------- what is left to stand on

  /** A claim that still authorizes a link leads from a page whose role fits the link, to a
      page whose role is not in dispute. */
  ghost predicate Grounded(s: State, pageRoles: seq<PageRole>, c: G.Claim) {
    c.state.Validated? && c.target.Some? && 1 <= c.target.value <= |pageRoles| ==>
      && RequirementOf(c).Accepts(PhysicalAt(s, c.source.page))
      && !pageRoles[c.target.value - 1].Conflicting?
  }

  ghost predicate Sources(s: State, claims: seq<G.Claim>) {
    forall j :: 0 <= j < |claims| && claims[j].state.Validated? && claims[j].target.Some? && 1 <= claims[j].target.value <= |s.roles|
      ==> RequirementOf(claims[j]).Accepts(PhysicalAt(s, claims[j].source.page))
  }

  lemma SourceFits(before: seq<G.Claim>, s: State, local: seq<seq<RoleClaim>>, roles0: seq<seq<RoleClaim>>,
                   slots: map<G.ClaimId, (nat, nat)>, outgoing: Outgoing, j: nat)
    requires Closed(s, slots, outgoing) && Weakened(before, s.claims) && |s.roles| == |local|
    requires Collected(local, before, |before|, roles0) && G.UniqueNames(before) && SlotsFound(roles0, |roles0|, slots)
    requires forall i :: 0 <= i < |before| && before[i].id in slots ==> Watched(outgoing, before, i)
    requires j < |s.claims| && s.claims[j].state.Validated? && Placed(local, s.claims, j)
    ensures RequirementOf(s.claims[j]).Accepts(PhysicalAt(s, s.claims[j].source.page))
  {
    assert WeakenedClaim(before[j], s.claims[j]);
    SlotIsClaim(local, before, roles0, slots, j);
    var source := before[j].source.page;
    var k :| 0 <= k < |outgoing[source]| && Watches(outgoing[source][k], before, j);
    assert Faithful(s, slots, outgoing[source][k]);
    assert ClosedAt(s, outgoing, source);
    assert Met(s, outgoing[source][k], PhysicalAt(s, source));
  }

  lemma SourcesFit(before: seq<G.Claim>, s: State, local: seq<seq<RoleClaim>>, roles0: seq<seq<RoleClaim>>,
                   slots: map<G.ClaimId, (nat, nat)>, outgoing: Outgoing)
    requires Closed(s, slots, outgoing) && Weakened(before, s.claims) && |s.roles| == |local|
    requires Collected(local, before, |before|, roles0) && G.UniqueNames(before) && SlotsFound(roles0, |roles0|, slots)
    requires forall i :: 0 <= i < |before| && before[i].id in slots ==> Watched(outgoing, before, i)
    ensures Sources(s, s.claims)
  {
    forall j | 0 <= j < |s.claims| && s.claims[j].state.Validated? && s.claims[j].target.Some? && 1 <= s.claims[j].target.value <= |s.roles|
      ensures RequirementOf(s.claims[j]).Accepts(PhysicalAt(s, s.claims[j].source.page))
    {
      SourceFits(before, s, local, roles0, slots, outgoing, j);
    }
  }

  // ---------------------------------------------------------------- roles and claims

  /** What the counters say of the first `n` pages. */
  ghost predicate RolesRead(s: State, pageRoles: seq<PageRole>, physical: seq<bool>, n: nat) {
    && |pageRoles| == n == |physical| && n <= |s.roles|
    && forall p :: 0 <= p < n ==> pageRoles[p] == Verdict(s.roles[p]) && physical[p] == PhysicalAt(s, p + 1).Conflicting?
  }

  /** The settled role of every page, and whether its physical evidence alone conflicts. A
      latch that was raised before ends this at the first page. */
  method SettleRoles(s: State, control: WorkControl) returns (pageRoles: seq<PageRole>, physical: seq<bool>, complete: bool)
    requires !control.failed && !control.stop && |s.roles| == |s.support| ==> Counted(s)
    modifies control`stop, control`failed
    ensures old(control.failed) ==> control.failed
    ensures old(control.stop) ==> control.stop
    ensures !complete ==> control.stop || control.failed
    ensures complete && s.support != [] ==> !old(control.stop)
    ensures complete && !control.failed ==> |pageRoles| == |s.support| == |physical|
    ensures complete && !control.failed && |s.roles| == |s.support| ==> RolesRead(s, pageRoles, physical, |s.roles|)
  {
    pageRoles, physical, complete := [], [], false;
    for p: nat := 0 to |s.support|
      invariant old(control.failed) ==> control.failed
      invariant old(control.stop) ==> control.stop
      invariant p > 0 ==> !old(control.stop)
      invariant !control.failed ==> |pageRoles| == p == |physical|
      invariant !control.failed && |s.roles| == |s.support| ==> RolesRead(s, pageRoles, physical, p)
    {
      var admitted := control.ReserveMemory();
      var written := control.Access();
      if !admitted || !written {
        return;
      }
      var stopped := control.Stopped();
      if stopped {
        return;
      }
      if |s.roles| == |s.support| && !control.failed {
        CountersGiveVerdict(s.support[p], s.roles[p]);
      }
      pageRoles := pageRoles + [s.support[p].Role()];
      physical := physical + [s.support[p].Physical().Conflicting?];
    }
    complete := true;
  }

  function Contained(c: G.Claim, pageRoles: seq<PageRole>): G.Claim {
    if c.state.Validated? && c.target.Some? && 1 <= c.target.value <= |pageRoles| && pageRoles[c.target.value - 1].Conflicting?
    then c.(state := G.Conflicting, stop := Some(G.ConflictingClaim))
    else c
  }

  ghost predicate OnDisputed(c: G.Claim, pageRoles: seq<PageRole>) {
    c.state.Validated? && c.target.Some? && 1 <= c.target.value <= |pageRoles| && pageRoles[c.target.value - 1].Conflicting?
  }

  /** The claims before `n` are contained, except one whose page could not be read. */
  ghost predicate AllContained(claims: seq<G.Claim>, pageRoles: seq<PageRole>, n: nat, spared: set<nat>, r: seq<G.Claim>) {
    && |r| == |claims|
    && (forall i :: 0 <= i < |r| ==> r[i] == if i < n && i !in spared then Contained(claims[i], pageRoles) else claims[i])
  }

  /** Claims on disputed pages fall. A page whose record cannot be read, because the memory is
      refused or the store has failed, counts as undisputed, so its claim is spared; that
      raises a latch, which ends the pass at the next claim, so only the last claim can be
      spared by a pass that completes. */
  method ContainClaims(claims: seq<G.Claim>, pageRoles: seq<PageRole>, control: WorkControl)
    returns (r: seq<G.Claim>, complete: bool, ghost spared: set<nat>)
    modifies control`stop, control`failed
    ensures old(control.failed) ==> control.failed
    ensures old(control.stop) ==> control.stop
    ensures !complete ==> control.stop || control.failed
    ensures Weakened(claims, r)
    ensures complete && !control.failed ==> AllContained(claims, pageRoles, |claims|, spared, r)
    ensures spared == {} || (claims != [] && spared == {|claims| - 1}) || !complete
    ensures spared != {} ==> control.stop || control.failed
    ensures complete && !control.failed ==>
      ((forall i :: 0 <= i < |r| ==> !OnDisputed(r[i], pageRoles)) <==> forall i :: i in spared ==> i < |claims| && !OnDisputed(claims[i], pageRoles))
  {
    r, complete, spared := claims, false, {};
    for i: nat := 0 to |claims|
      invariant old(control.failed) ==> control.failed
      invariant old(control.stop) ==> control.stop
      invariant Weakened(claims, r)
      invariant !control.failed ==> AllContained(claims, pageRoles, i, spared, r)
      invariant spared == {} || (i > 0 && spared == {i - 1})
      invariant spared != {} ==> control.stop || control.failed
    {
      var read := control.Access();
      if !read {
        return;
      }
      var stopped := control.Stopped();
      if stopped {
        return;
      }
      if r[i].state.Validated? && r[i].target.Some? && 1 <= r[i].target.value <= |pageRoles| {
        var admitted := control.ReserveMemory();
        var found := control.Access();
        if !admitted || !found {
          spared := {i};
        } else {
          r := r[i := Contained(r[i], pageRoles)];
        }
      }
    }
    complete := true;
  }

  /** What sparing costs: the spared claim still leads to the disputed page. */
  lemma SparedStaysDisputed() returns (claims: seq<G.Claim>, pageRoles: seq<PageRole>)
    ensures |claims| == 1 && AllContained(claims, pageRoles, 1, {0}, claims)
    ensures OnDisputed(claims[0], pageRoles) && !OnDisputed(Contained(claims[0], pageRoles), pageRoles)
  {
    pageRoles := [Unknown, Conflicting];
    claims := [G.Claim(G.BtreeRightmostId(1), G.BtreeChild, G.Page(1), Some(2), G.Validated, None)];
  }

  // ---------------------------------------------------------------- relationships

  ghost function ValidNames(claims: seq<G.Claim>, n: nat): set<G.ClaimId> {
    set i | 0 <= i < n && i < |claims| && claims[i].state.Validated? :: claims[i].id
  }

  method NameValid(claims: seq<G.Claim>, control: WorkControl) returns (valid: set<G.ClaimId>, complete: bool)
    modifies control`stop, control`failed
    ensures old(control.failed) ==> control.failed
    ensures old(control.stop) ==> control.stop
    ensures !complete ==> control.stop || control.failed
    ensures complete && claims != [] ==> !old(control.stop)
    ensures complete && !control.failed ==> valid == ValidNames(claims, |claims|)
  {
    valid, complete := {}, false;
    for i: nat := 0 to |claims|
      invariant old(control.failed) ==> control.failed
      invariant old(control.stop) ==> control.stop
      invariant i > 0 ==> !old(control.stop)
      invariant !control.failed ==> valid == ValidNames(claims, i)
    {
      var stopped := control.Stopped();
      if stopped {
        return;
      }
      ValidNamesStep(claims, i);
      if claims[i].state.Validated? {
        var written := control.Access();
        if written {
          valid := valid + {claims[i].id};
        }
      }
    }
    complete := true;
  }

  lemma ValidNamesStep(claims: seq<G.Claim>, i: nat)
    requires i < |claims|
    ensures ValidNames(claims, i + 1) == ValidNames(claims, i) + if claims[i].state.Validated? then {claims[i].id} else {}
  {
  }

  function Backing(links: seq<G.Relationship>, valid: set<G.ClaimId>): seq<G.Relationship> {
    if links == [] then []
    else
      var last := links[|links| - 1];
      Backing(links[..|links| - 1], valid) + (if last.claimId in valid then [last] else [])
  }

  lemma {:induction false} BackingMeaning(links: seq<G.Relationship>, valid: set<G.ClaimId>)
    ensures Selected(Backing(links, valid), links)
    ensures forall r :: r in Backing(links, valid) <==> r in links && r.claimId in valid
  {
    if links != [] {
      var rest, last := links[..|links| - 1], links[|links| - 1];
      BackingMeaning(rest, valid);
      var kept := Backing(rest, valid);
      assert links == rest + [last];
      assert kept + [] == kept && (kept + [last])[..|kept|] == kept;
      assert Backing(links, valid) == if last.claimId in valid then kept + [last] else kept;
    }
  }

  method KeepValid(links: seq<G.Relationship>, valid: set<G.ClaimId>, control: WorkControl) returns (kept: seq<G.Relationship>, complete: bool)
    modifies control`stop, control`failed
    ensures old(control.failed) ==> control.failed
    ensures old(control.stop) ==> control.stop
    ensures !complete ==> control.stop || control.failed
    ensures complete && !control.failed ==> kept == Backing(links, valid)
  {
    kept, complete := [], false;
    for n: nat := 0 to |links|
      invariant old(control.failed) ==> control.failed
      invariant old(control.stop) ==> control.stop
      invariant !control.failed ==> kept == Backing(links[..n], valid)
    {
      assert links[..n + 1][..n] == links[..n];
      var stopped := control.Stopped();
      if stopped {
        return;
      }
      if links[n].claimId in valid {
        var written := control.Access();
        if written {
          kept := kept + [links[n]];
        }
      }
    }
    assert links[..|links|] == links;
    complete := true;
  }

  /** Each relationship that is kept still has its own claim, and that claim is validated. */
  lemma KeptHaveClaims(before: seq<G.Claim>, after: seq<G.Claim>, links: seq<G.Relationship>)
    requires Weakened(before, after) && G.UniqueNames(before)
    requires forall k :: 0 <= k < |links| ==> HasClaim(before, links[k])
    ensures var kept := Backing(links, ValidNames(after, |after|));
      forall k :: 0 <= k < |kept| ==> HasClaim(after, kept[k])
  {
    var kept := Backing(links, ValidNames(after, |after|));
    BackingMeaning(links, ValidNames(after, |after|));
    forall k | 0 <= k < |kept|
      ensures HasClaim(after, kept[k])
    {
      assert kept[k] in kept;
      var m :| 0 <= m < |links| && links[m] == kept[k];
      var i :| 0 <= i < |before| && before[i].IsLink() && G.RelationshipOf(before[i]) == links[m];
      var j :| 0 <= j < |after| && after[j].state.Validated? && after[j].id == kept[k].claimId;
      assert WeakenedClaim(before[j], after[j]) && i == j;
      assert after[i].IsLink() && G.RelationshipOf(after[i]) == kept[k];
    }
  }

  // ---------------------------------------------------------------- traversals

  /** The page is in dispute; a root whose own evidence agrees may still start a walk. */
  predicate Boundary(pageRoles: seq<PageRole>, physical: seq<bool>, t: G.Traversal, k: nat)
    requires k < |t.prefix| && |physical| == |pageRoles|
  {
    var page := t.prefix[k];
    1 <= page <= |pageRoles| && pageRoles[page - 1].Conflicting?
    && !(k == 0 && !physical[page - 1] && t.origin == G.Page(page))
  }

  /** A chain whose own first claim fell keeps nothing. */
  predicate Unfounded(t: G.Traversal, valid: set<G.ClaimId>) {
    t.origin.Cell? && t.prefix != [] && G.OverflowCellId(t.origin.page, t.origin.cell) !in valid
  }

  /** The longest part of the prefix before the first disputed page. */
  ghost predicate CutAtDispute(pageRoles: seq<PageRole>, physical: seq<bool>, valid: set<G.ClaimId>, t: G.Traversal, cut: G.Traversal)
    requires |physical| == |pageRoles|
  {
    && cut.kind == t.kind && cut.origin == t.origin && cut.prefix <= t.prefix
    && (Unfounded(t, valid) ==> cut.prefix == [])
    && (forall k :: 0 <= k < |cut.prefix| ==> !Boundary(pageRoles, physical, t, k))
    && (|cut.prefix| < |t.prefix| ==>
         && (Unfounded(t, valid) || Boundary(pageRoles, physical, t, |cut.prefix|))
         && cut.stop.Some? && cut.stop.value.reason == G.ConflictingClaim)
    && (cut.prefix == t.prefix ==> cut == t)
  }

  function FirstName(roles: seq<RoleClaim>, page: nat): G.ClaimId {
    if roles == [] then G.PageRoleId(page)
    else if roles[0].source.FromClaim? then roles[0].source.id
    else FirstName(roles[1..], page)
  }

  ghost predicate InInventory(t: G.Traversal, n: nat) {
    forall k :: 0 <= k < |t.prefix| ==> 1 <= t.prefix[k] <= n
  }

  method CutTraversal(t: G.Traversal, roles: seq<seq<RoleClaim>>, pageRoles: seq<PageRole>, physical: seq<bool>, valid: set<G.ClaimId>, control: WorkControl)
    returns (cut: G.Traversal, complete: bool)
    requires !control.failed ==> |physical| == |pageRoles| == |roles|
    modifies control`stop, control`failed
    ensures old(control.failed) ==> control.failed
    ensures old(control.stop) ==> control.stop
    ensures complete && !control.failed ==> |physical| == |pageRoles| && CutAtDispute(pageRoles, physical, valid, t, cut)
    ensures !complete ==> control.stop || control.failed || !InInventory(t, |pageRoles|)
  {
    cut, complete := t, false;
    if Unfounded(t, valid) {
      cut := t.(prefix := [], stop := Some(G.TraversalStop(G.ConflictingClaim, G.OverflowCellId(t.origin.page, t.origin.cell), Some(t.prefix[0]))));
    }
    for k: nat := 0 to |cut.prefix|
      invariant old(control.failed) ==> control.failed
      invariant old(control.stop) ==> control.stop
      invariant !control.failed ==> forall m :: 0 <= m < k ==> !Boundary(pageRoles, physical, t, m)
    {
      var stopped := control.Stopped();
      var admitted := control.ReserveMemory();
      var read := control.Access();
      var page := cut.prefix[k];
      if stopped || !admitted || !read || !(1 <= page <= |pageRoles|) {
        return;
      }
      if Boundary(pageRoles, physical, t, k) {
        cut := t.(prefix := t.prefix[..k], stop := Some(G.TraversalStop(G.ConflictingClaim, FirstName(roles[page - 1], page), Some(page))));
        complete := true;
        return;
      }
    }
    complete := true;
  }

  method CutTraversals(traversals: seq<G.Traversal>, roles: seq<seq<RoleClaim>>, pageRoles: seq<PageRole>, physical: seq<bool>,
                       valid: set<G.ClaimId>, control: WorkControl)
    returns (r: seq<G.Traversal>, complete: bool)
    requires !control.failed ==> |physical| == |pageRoles| == |roles|
    modifies control`stop, control`failed
    ensures old(control.failed) ==> control.failed
    ensures old(control.stop) ==> control.stop
    ensures !complete ==> control.stop || control.failed || exists k :: 0 <= k < |traversals| && !InInventory(traversals[k], |pageRoles|)
    ensures complete && !control.failed ==>
      && |physical| == |pageRoles| && |r| == |traversals|
      && forall k :: 0 <= k < |r| ==> CutAtDispute(pageRoles, physical, valid, traversals[k], r[k])
  {
    r, complete := [], false;
    for n: nat := 0 to |traversals|
      invariant old(control.failed) ==> control.failed
      invariant old(control.stop) ==> control.stop
      invariant !control.failed ==> |r| == n && forall k :: 0 <= k < n ==> CutAtDispute(pageRoles, physical, valid, traversals[k], r[k])
    {
      var stopped := control.Stopped();
      if stopped {
        return;
      }
      var cut, done := CutTraversal(traversals[n], roles, pageRoles, physical, valid, control);
      if !done {
        return;
      }
      var written := control.Access();
      if written {
        r := r + [cut];
      }
    }
    complete := true;
  }

  // ---------------------------------------------------------------- the phase

  /** Settled evidence and claims: the counters agree with the evidence, and every claim that
      still authorizes a link leads from a page whose role fits it. */
  method SettleEvidence(local: seq<seq<RoleClaim>>, claims: seq<G.Claim>, maps: seq<P.MapPage>, control: WorkControl)
    returns (s: State, complete: bool)
    requires forall p :: 0 <= p < |local| ==> NotFromClaims(local[p])
    requires !control.failed && !control.stop ==> G.UniqueNames(claims)
    modifies control`stop, control`failed
    ensures old(control.failed) ==> control.failed
    ensures old(control.stop) ==> control.stop
    ensures !complete ==> control.stop || control.failed
    ensures Weakened(claims, s.claims) && EntriesWeakened(AllStates(maps), s.entries)
    ensures complete && !control.failed ==> |s.roles| == |local| == |s.support|
    ensures complete && !control.failed && !old(control.stop) && (!control.stop || local == []) ==> Counted(s) && Sources(s, s.claims)
  {
    s := State([], claims, AllStates(maps), []);
    FallenItself(s);
    var roles, support, slots, mapSlots, outgoing;
    roles, complete := CollectRoles(local, claims, maps, control);
    if !complete {
      return;
    }
    support, slots, mapSlots, complete := IndexSlots(roles, control);
    if !complete {
      return;
    }
    s := State(roles, claims, AllStates(maps), support);
    outgoing, complete := WatchClaims(s, local, slots, control);
    if !complete {
      return;
    }
    outgoing, complete := WatchMaps(s, slots, maps, mapSlots, outgoing, control);
    if complete {
      s, complete := SettleAll(s, local, slots, outgoing, control);
    }
  }

  function EntryStates(entries: seq<P.MapEntry>): (r: seq<G.RelationshipState>)
    ensures |r| == |entries|
  {
    seq(|entries|, e requires 0 <= e < |entries| => entries[e].state)
  }

  function AllStates(maps: seq<P.MapPage>): (r: seq<seq<G.RelationshipState>>)
    ensures |r| == |maps| && forall m :: 0 <= m < |maps| ==> r[m] == EntryStates(maps[m].entries)
  {
    seq(|maps|, m requires 0 <= m < |maps| => EntryStates(maps[m].entries))
  }

  lemma CollectedIsCounted(local: seq<seq<RoleClaim>>, s: State)
    requires Collected(local, s.claims, |s.claims|, s.roles)
    requires |s.support| == |s.roles| && forall p :: 0 <= p < |s.roles| ==> Recounts(s.support[p], s.roles[p])
    ensures Counted(s)
  {
    forall p | 0 <= p < |s.roles|
      ensures Claimed(s.roles[p])
    {
      assert CollectedAt(local, s.claims, |s.claims|, s.roles, p);
      var base := local[p] + ClaimRoles(s.claims, p + 1, |s.claims|);
      forall k | 0 <= k < |s.roles[p]|
        ensures s.roles[p][k].role.Claimable()
      {
        if k < |local[p]| {
          assert s.roles[p][k] == base[k] == local[p][k];
        } else if k < |base| {
          assert s.roles[p][k] == base[k];
          var j := ClaimBehind(s.claims, p + 1, |s.claims|, k - |local[p]|);
        } else {
          assert s.roles[p][k] == s.roles[p][|base|..][k - |base|];
        }
      }
    }
  }

  method SettleAll(s0: State, ghost local: seq<seq<RoleClaim>>, ghost slots: map<G.ClaimId, (nat, nat)>, outgoing: Outgoing, control: WorkControl)
    returns (s: State, complete: bool)
    requires |s0.roles| == |local| && (!control.failed ==> |s0.support| == |local|)
    requires !control.failed && !control.stop ==>
      && Collected(local, s0.claims, |s0.claims|, s0.roles) && G.UniqueNames(s0.claims) && SlotsFound(s0.roles, |s0.roles|, slots)
      && |s0.support| == |s0.roles| && (forall p :: 0 <= p < |s0.roles| ==> Recounts(s0.support[p], s0.roles[p]))
      && AllFaithful(s0, slots, outgoing) && WatchedBelow(s0, slots, outgoing, |s0.claims|)
    modifies control`stop, control`failed
    ensures old(control.failed) ==> control.failed
    ensures old(control.stop) ==> control.stop
    ensures !complete ==> control.stop || control.failed
    ensures Fallen(s0, s)
    ensures complete && !control.failed ==> |s.roles| == |local| == |s.support|
    ensures complete && !control.failed && !old(control.stop) && (!control.stop || local == []) ==> Counted(s) && Sources(s, s.claims)
  {
    s, complete := s0, false;
    FallenItself(s0);
    if !control.failed && !control.stop {
      CollectedIsCounted(local, s0);
    }
    var dependencies := new Dependencies(s0, outgoing, slots, control);
    ghost var skipped;
    complete, skipped := dependencies.Propagate();
    s := dependencies.Now();
    if complete && !control.failed && !old(control.stop) && !control.stop {
      SourcesFit(s0.claims, s, local, s0.roles, slots, outgoing);
    }
  }

  /** What an uninterrupted role reconciliation leaves. */
  ghost predicate Reconciled(s: State, pageRoles: seq<PageRole>, before: seq<G.Claim>, claims: seq<G.Claim>,
                             links0: seq<G.Relationship>, links: seq<G.Relationship>) {
    && Weakened(before, claims)
    && (forall p :: 0 <= p < |pageRoles| ==> p < |s.roles| && pageRoles[p] == Verdict(s.roles[p]))
    && (forall j :: 0 <= j < |claims| ==> Grounded(s, pageRoles, claims[j]))
    && links == Backing(links0, ValidNames(claims, |claims|))
  }

  lemma ContainedIsGrounded(s: State, pageRoles: seq<PageRole>, claims: seq<G.Claim>)
    requires Sources(s, s.claims) && |pageRoles| == |s.roles| && Weakened(s.claims, claims)
    requires AllContained(s.claims, pageRoles, |claims|, {}, claims)
    ensures forall j :: 0 <= j < |claims| ==> Grounded(s, pageRoles, claims[j])
  {
    forall j | 0 <= j < |claims|
      ensures Grounded(s, pageRoles, claims[j])
    {
      assert WeakenedClaim(s.claims[j], claims[j]);
    }
  }

  /** Marks every page as reconciled. */
  method MarkReconciled(pages: nat, control: WorkControl) returns (complete: bool)
    modifies control`stop, control`failed
    ensures old(control.failed) ==> control.failed
    ensures old(control.stop) ==> control.stop
    ensures !complete ==> control.stop || control.failed
    ensures complete && pages > 0 ==> !control.stop && !control.failed
  {
    complete := false;
    for p: nat := 0 to pages
      invariant old(control.failed) ==> control.failed
      invariant old(control.stop) ==> control.stop
      invariant p > 0 ==> !control.stop && !control.failed
    {
      var admitted := control.ReserveMemory();
      var written := control.Access();
      if !admitted || !written {
        return;
      }
      var stopped := control.Stopped();
      if stopped {
        return;
      }
    }
    complete := true;
  }

  /** Reconciles the roles of all pages. When the phase completes, page roles are what their
      evidence amounts to, every claim that still authorizes a link is grounded in them, the
      relationships are exactly the earlier ones whose claims still stand, and no traversal
      runs into a disputed page. The relationships still form a forest. A read that was
      refused on the way never slips through: it raises the stop latch, and a later check ends
      the phase. */
  method Reconcile(local: seq<seq<RoleClaim>>, claims0: seq<G.Claim>, maps: seq<P.MapPage>,
                   links0: seq<G.Relationship>, traversals0: seq<G.Traversal>, control: WorkControl)
    returns (claims: seq<G.Claim>, links: seq<G.Relationship>, traversals: seq<G.Traversal>, pageRoles: seq<PageRole>,
             entries: seq<seq<G.RelationshipState>>, complete: bool, ghost s: State, ghost physical: seq<bool>)
    requires forall p :: 0 <= p < |local| ==> NotFromClaims(local[p])
    requires !control.failed && !control.stop ==> G.UniqueNames(claims0)
    modifies control`stop, control`failed
    ensures old(control.failed) ==> control.failed
    ensures old(control.stop) ==> control.stop
    ensures !complete ==> control.stop || control.failed || exists k :: 0 <= k < |traversals0| && !InInventory(traversals0[k], |local|)
    ensures complete && local != [] ==> !control.stop && !control.failed
    ensures Weakened(claims0, claims) && EntriesWeakened(AllStates(maps), entries)
    ensures complete && !control.failed && !old(control.stop) ==>
      && Reconciled(s, pageRoles, claims0, claims, links0, links)
      && |physical| == |pageRoles| == |local|
      && |traversals| == |traversals0|
      && (forall k :: 0 <= k < |traversals| ==>
           CutAtDispute(pageRoles, physical, ValidNames(claims, |claims|), traversals0[k], traversals[k]))
    ensures complete && !control.failed && G.Forest(links0) ==> G.Forest(links)
  {
    hide Weakened, EntriesWeakened, G.UniqueNames, Sources, Counted, Verdict, Grounded, CutAtDispute, G.Forest;
    links, traversals, pageRoles, physical := [], [], [], [];
    var settled;
    settled, complete := SettleEvidence(local, claims0, maps, control);
    claims, entries, s := settled.claims, settled.entries, settled;
    if !complete {
      return;
    }
    var flags;
    pageRoles, flags, complete := SettleRoles(settled, control);
    physical := flags;
    if !complete {
      return;
    }
    ghost var spared;
    claims, complete, spared := ContainClaims(settled.claims, pageRoles, control);
    WeakenedTwice(claims0, settled.claims, claims);
    if !complete {
      return;
    }
    links, traversals, complete := Withhold(settled, pageRoles, flags, claims, links0, traversals0, control);
    if !complete {
      return;
    }
    if !control.failed && !old(control.stop) {
      assert spared == {};
      ContainedIsGrounded(settled, pageRoles, claims);
    }
    complete := MarkReconciled(|local|, control);
  }

  /** Withholds the relationships and traversals that rest on fallen claims. A latch that was
      raised before is seen at the first claim. */
  method Withhold(s: State, pageRoles: seq<PageRole>, physical: seq<bool>, claims: seq<G.Claim>,
                  links0: seq<G.Relationship>, traversals0: seq<G.Traversal>, control: WorkControl)
    returns (links: seq<G.Relationship>, traversals: seq<G.Traversal>, complete: bool)
    requires !control.failed ==> |physical| == |pageRoles| == |s.roles|
    modifies control`stop, control`failed
    ensures old(control.failed) ==> control.failed
    ensures old(control.stop) ==> control.stop
    ensures !complete ==> control.stop || control.failed || exists k :: 0 <= k < |traversals0| && !InInventory(traversals0[k], |pageRoles|)
    ensures complete && claims != [] ==> !old(control.stop)
    ensures complete && !control.failed ==>
      && links == Backing(links0, ValidNames(claims, |claims|))
      && |physical| == |pageRoles| && |traversals| == |traversals0|
      && (forall k :: 0 <= k < |traversals| ==>
           CutAtDispute(pageRoles, physical, ValidNames(claims, |claims|), traversals0[k], traversals[k]))
      && (G.Forest(links0) ==> G.Forest(links))
  {
    links, traversals := [], [];
    var valid;
    valid, complete := NameValid(claims, control);
    if !complete {
      return;
    }
    links, complete := KeepValid(links0, valid, control);
    if !complete {
      return;
    }
    BackingMeaning(links0, valid);
    if G.Forest(links0) {
      SelectedKeepsForest(Backing(links0, valid), links0);
    }
    traversals, complete := CutTraversals(traversals0, s.roles, pageRoles, physical, valid, control);
  }
}
