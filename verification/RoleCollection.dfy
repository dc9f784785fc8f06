/** Collecting the evidence about every page, and which evidence rests on which page. */
module RoleCollection {
  import opened Wrappers
  import opened Control
  import opened Roles
  import opened RolePropagation
  import G = ClaimGraph
  import P = PointerMap

  // ---------------------------------------------------------------- evidence in order

  function KindRole(kind: G.RelationshipKind): PageRole {
    match kind
    case BtreeChild => Btree
    case Overflow => PageRole.Overflow
    case FreelistTrunk => PageRole.FreelistTrunk
    case FreelistLeaf => PageRole.FreelistLeaf
  }

  function RoleOf(c: G.Claim): RoleClaim {
    RoleClaim(KindRole(c.kind), FromClaim(c.id), c.state, c.stop)
  }

  function MapRole(kind: P.MapKind): PageRole {
    if kind.BtreeRoot? || kind.BtreeLink? then Btree else if kind.Freelist? then PageRole.Freelist else PageRole.Overflow
  }

  /** What the first `n` claims say about one page, in claim order. */
  function ClaimRoles(claims: seq<G.Claim>, page: nat, n: nat): seq<RoleClaim>
    requires n <= |claims|
  {
    if n == 0 then []
    else ClaimRoles(claims, page, n - 1) + (if claims[n - 1].target == Some(page) then [RoleOf(claims[n - 1])] else [])
  }

  /** The first claims are a part of all claims. */
  lemma {:induction false} ClaimRolesPrefix(claims: seq<G.Claim>, page: nat, m: nat, n: nat)
    requires m <= n <= |claims|
    ensures ClaimRoles(claims, page, m) <= ClaimRoles(claims, page, n)
  {
    if m < n {
      ClaimRolesPrefix(claims, page, m, n - 1);
    }
  }

  /** Each piece of evidence comes from one claim, at the place the claim was given. */
  lemma {:induction false} ClaimBehind(claims: seq<G.Claim>, page: nat, n: nat, k: nat) returns (j: nat)
    requires n <= |claims| && k < |ClaimRoles(claims, page, n)|
    ensures j < n && claims[j].target == Some(page)
    ensures ClaimRoles(claims, page, n)[k] == RoleOf(claims[j]) && k == |ClaimRoles(claims, page, j)|
  {
    if k < |ClaimRoles(claims, page, n - 1)| {
      j := ClaimBehind(claims, page, n - 1, k);
    } else {
      j := n - 1;
    }
  }

  lemma PlaceOf(claims: seq<G.Claim>, page: nat, n: nat, j: nat)
    requires j < n <= |claims| && claims[j].target == Some(page)
    ensures var k := |ClaimRoles(claims, page, j)|;
      k < |ClaimRoles(claims, page, n)| && ClaimRoles(claims, page, n)[k] == RoleOf(claims[j])
  {
    ClaimRolesPrefix(claims, page, j + 1, n);
  }

  ghost predicate NotFromClaims(roles: seq<RoleClaim>) {
    forall k :: 0 <= k < |roles| ==> !roles[k].source.FromClaim? && !roles[k].source.FromMap? && roles[k].role.Claimable()
  }

  ghost predicate FromMaps(roles: seq<RoleClaim>) {
    forall k :: 0 <= k < |roles| ==> roles[k].source.FromMap? && roles[k].role.Claimable()
  }

  /** The evidence about a page: what the page itself shows, then what claims say, then what
      pointer maps say. */
  ghost predicate Collected(local: seq<seq<RoleClaim>>, claims: seq<G.Claim>, n: nat, roles: seq<seq<RoleClaim>>) {
    && n <= |claims| && |roles| == |local|
    && forall p {:trigger CollectedAt(local, claims, n, roles, p)} :: 0 <= p < |roles| ==> CollectedAt(local, claims, n, roles, p)
  }

  ghost predicate CollectedAt(local: seq<seq<RoleClaim>>, claims: seq<G.Claim>, n: nat, roles: seq<seq<RoleClaim>>, p: nat)
    requires n <= |claims| && p < |roles| == |local|
  {
    var base := local[p] + ClaimRoles(claims, p + 1, n);
    && NotFromClaims(local[p]) && base <= roles[p] && FromMaps(roles[p][|base|..])
  }

  /** Where the evidence of a claim stands. */
  ghost function SlotOf(local: seq<seq<RoleClaim>>, claims: seq<G.Claim>, j: nat): (nat, nat)
    requires j < |claims| && claims[j].target.Some? && 1 <= claims[j].target.value <= |local|
  {
    var p := claims[j].target.value - 1;
    (p, |local[p]| + |ClaimRoles(claims, p + 1, j)|)
  }

  ghost predicate Placed(local: seq<seq<RoleClaim>>, claims: seq<G.Claim>, j: nat) {
    j < |claims| && claims[j].target.Some? && 1 <= claims[j].target.value <= |local|
  }

  lemma SlotHoldsClaim(local: seq<seq<RoleClaim>>, claims: seq<G.Claim>, roles: seq<seq<RoleClaim>>, j: nat)
    requires Collected(local, claims, |claims|, roles) && Placed(local, claims, j)
    ensures var (p, i) := SlotOf(local, claims, j);
      p < |roles| && i < |roles[p]| && roles[p][i] == RoleOf(claims[j])
  {
    var (p, i) := SlotOf(local, claims, j);
    assert CollectedAt(local, claims, |claims|, roles, p);
    PlaceOf(claims, p + 1, |claims|, j);
    assert roles[p][i] == (local[p] + ClaimRoles(claims, p + 1, |claims|))[i];
  }

  /** Evidence that names a claim stands where that claim was placed. */
  lemma ClaimHoldsSlot(local: seq<seq<RoleClaim>>, claims: seq<G.Claim>, roles: seq<seq<RoleClaim>>, p: nat, i: nat) returns (j: nat)
    requires Collected(local, claims, |claims|, roles) && p < |roles| && i < |roles[p]| && roles[p][i].source.FromClaim?
    ensures Placed(local, claims, j) && SlotOf(local, claims, j) == (p, i) && roles[p][i] == RoleOf(claims[j])
  {
    assert CollectedAt(local, claims, |claims|, roles, p);
    var said := ClaimRoles(claims, p + 1, |claims|);
    var base := local[p] + said;
    assert i < |base| && roles[p][i] == base[i];
    j := ClaimBehind(claims, p + 1, |claims|, i - |local[p]|);
  }

  // ---------------------------------------------------------------- the collection

  /** Appends one piece of evidence to a page of the inventory; other pages are skipped. */
  method Append(roles: seq<seq<RoleClaim>>, page: nat, c: RoleClaim, control: WorkControl) returns (r: seq<seq<RoleClaim>>)
    modifies control`failed, control`stop
    ensures old(control.failed) ==> control.failed
    ensures old(control.stop) ==> control.stop
    ensures |r| == |roles|
    ensures roles == [] ==> control.stop == old(control.stop)
    ensures !control.failed && !control.stop ==>
      r == if 1 <= page <= |roles| then roles[page - 1 := roles[page - 1] + [c]] else roles
  {
    r := roles;
    if 1 <= page <= |roles| {
      var granted := control.ReserveMemory();
      var written := control.Access();
      if granted && written {
        r := roles[page - 1 := roles[page - 1] + [c]];
      }
    }
  }

  lemma CollectedStep(local: seq<seq<RoleClaim>>, claims: seq<G.Claim>, n: nat, roles: seq<seq<RoleClaim>>)
    requires n < |claims| && OnlyClaims(local, claims, n, roles)
    ensures var target := claims[n].target.GetOr(0);
      OnlyClaims(local, claims, n + 1,
        if claims[n].target.Some? && 1 <= target <= |roles| then roles[target - 1 := roles[target - 1] + [RoleOf(claims[n])]] else roles)
  {
  }

  /** Before any pointer map is read. */
  ghost predicate OnlyClaims(local: seq<seq<RoleClaim>>, claims: seq<G.Claim>, n: nat, roles: seq<seq<RoleClaim>>) {
    && n <= |claims| && |roles| == |local|
    && forall p :: 0 <= p < |roles| ==> NotFromClaims(local[p]) && roles[p] == local[p] + ClaimRoles(claims, p + 1, n)
  }

  lemma OnlyClaimsCollected(local: seq<seq<RoleClaim>>, claims: seq<G.Claim>, roles: seq<seq<RoleClaim>>)
    requires OnlyClaims(local, claims, |claims|, roles)
    ensures Collected(local, claims, |claims|, roles)
  {
    forall p | 0 <= p < |roles|
      ensures CollectedAt(local, claims, |claims|, roles, p)
    {
    }
  }

  lemma MapStep(local: seq<seq<RoleClaim>>, claims: seq<G.Claim>, roles: seq<seq<RoleClaim>>, page: nat, c: RoleClaim)
    requires Collected(local, claims, |claims|, roles) && 1 <= page <= |roles| && c.source.FromMap? && c.role.Claimable()
    ensures Collected(local, claims, |claims|, roles[page - 1 := roles[page - 1] + [c]])
  {
    var after := roles[page - 1 := roles[page - 1] + [c]];
    forall p | 0 <= p < |after|
      ensures CollectedAt(local, claims, |claims|, after, p)
    {
      assert CollectedAt(local, claims, |claims|, roles, p);
      var base := local[p] + ClaimRoles(claims, p + 1, |claims|);
      if p == page - 1 {
        assert after[p][|base|..] == roles[p][|base|..] + [c];
      }
    }
  }

  method CollectRoles(local: seq<seq<RoleClaim>>, claims: seq<G.Claim>, maps: seq<P.MapPage>, control: WorkControl)
    returns (roles: seq<seq<RoleClaim>>, complete: bool)
    requires forall p :: 0 <= p < |local| ==> NotFromClaims(local[p])
    modifies control`stop, control`failed
    ensures old(control.failed) ==> control.failed
    ensures old(control.stop) ==> control.stop
    ensures !complete ==> control.stop || control.failed
    ensures complete && !control.failed && !control.stop ==> Collected(local, claims, |claims|, roles)
    ensures |roles| == |local|
    ensures complete && local == [] && !old(control.stop) ==> !control.stop
  {
    roles, complete := local, false;
    for n: nat := 0 to |claims|
      invariant local == [] && !old(control.stop) ==> !control.stop
      invariant |roles| == |local|
      invariant old(control.failed) ==> control.failed
      invariant old(control.stop) ==> control.stop
      invariant !control.failed && !control.stop ==> OnlyClaims(local, claims, n, roles)
    {
      var stopped := control.Stopped();
      if stopped {
        return;
      }
      if !control.failed {
        CollectedStep(local, claims, n, roles);
      }
      if claims[n].target.Some? {
        roles := Append(roles, claims[n].target.value, RoleOf(claims[n]), control);
      }
    }
    if !control.failed && !control.stop {
      OnlyClaimsCollected(local, claims, roles);
    }
    roles, complete := CollectMaps(local, claims, maps, roles, control);
  }

  method CollectMaps(ghost local: seq<seq<RoleClaim>>, ghost claims: seq<G.Claim>, maps: seq<P.MapPage>, before: seq<seq<RoleClaim>>, control: WorkControl)
    returns (roles: seq<seq<RoleClaim>>, complete: bool)
    requires !control.failed && !control.stop ==> Collected(local, claims, |claims|, before)
    modifies control`stop, control`failed
    ensures old(control.failed) ==> control.failed
    ensures old(control.stop) ==> control.stop
    ensures !complete ==> control.stop || control.failed
    ensures complete && !control.failed && !control.stop ==> Collected(local, claims, |claims|, roles)
    ensures |roles| == |before|
    ensures complete && before == [] && !old(control.stop) ==> !control.stop
  {
    roles, complete := before, false;
    for m: nat := 0 to |maps|
      invariant before == [] && !old(control.stop) ==> !control.stop
      invariant |roles| == |before|
      invariant old(control.failed) ==> control.failed
      invariant old(control.stop) ==> control.stop
      invariant !control.failed && !control.stop ==> Collected(local, claims, |claims|, roles)
    {
      for e: nat := 0 to |maps[m].entries|
        invariant before == [] && !old(control.stop) ==> !control.stop
        invariant |roles| == |before|
        invariant old(control.failed) ==> control.failed
        invariant old(control.stop) ==> control.stop
        invariant !control.failed && !control.stop ==> Collected(local, claims, |claims|, roles)
      {
        var stopped := control.Stopped();
        if stopped {
          return;
        }
        var entry := maps[m].entries[e];
        if entry.kind.Some? {
          var c := RoleClaim(MapRole(entry.kind.value), FromMap(maps[m].page, entry.offset), entry.state, None);
          if !control.failed && 1 <= entry.target <= |roles| {
            MapStep(local, claims, roles, entry.target, c);
          }
          roles := Append(roles, entry.target, c, control);
        }
      }
    }
    complete := true;
  }

  // ---------------------------------------------------------------- what rests on what

  function RequirementOf(c: G.Claim): Requirement {
    match c.kind
    case BtreeChild => BtreePage
    case Overflow => if c.source.Cell? then BtreePage else OverflowPage
    case FreelistTrunk => if c.source.page == 1 then Header else TrunkPage
    case FreelistLeaf => TrunkPage
  }

  /** The slots found by reading all evidence back: each name leads to evidence that bears
      it. */
  ghost predicate SlotsFound(roles: seq<seq<RoleClaim>>, n: nat, slots: map<G.ClaimId, (nat, nat)>) {
    && n <= |roles|
    && (forall id :: id in slots ==> SlotBears(roles, slots[id], id))
    && (forall p, i :: 0 <= p < n && 0 <= i < |roles[p]| && roles[p][i].source.FromClaim? ==> roles[p][i].source.id in slots)
  }

  ghost predicate SlotBears(roles: seq<seq<RoleClaim>>, slot: (nat, nat), id: G.ClaimId) {
    slot.0 < |roles| && slot.1 < |roles[slot.0]| && roles[slot.0][slot.1].source == FromClaim(id)
  }

  ghost predicate MapSlotsFound(roles: seq<seq<RoleClaim>>, slots: map<(nat, nat), (nat, nat)>) {
    forall key :: key in slots ==>
      slots[key].0 < |roles| && slots[key].1 < |roles[slots[key].0]| && roles[slots[key].0][slots[key].1].source.FromMap?
  }

  method IndexSlots(roles: seq<seq<RoleClaim>>, control: WorkControl)
    returns (support: seq<Support>, slots: map<G.ClaimId, (nat, nat)>, mapSlots: map<(nat, nat), (nat, nat)>, complete: bool)
    modifies control`stop, control`failed
    ensures old(control.failed) ==> control.failed
    ensures old(control.stop) ==> control.stop
    ensures !complete ==> control.stop || control.failed
    ensures complete && !control.failed && !control.stop ==>
      && SlotsFound(roles, |roles|, slots) && MapSlotsFound(roles, mapSlots)
      && forall p :: 0 <= p < |roles| ==> p < |support| && Recounts(support[p], roles[p])
    ensures complete && !control.failed ==> |support| == |roles|
    ensures complete && (roles != [] || !old(control.stop)) ==> !control.stop
  {
    support, slots, mapSlots, complete := [], map[], map[], false;
    for p: nat := 0 to |roles|
      invariant old(control.failed) ==> control.failed
      invariant old(control.stop) ==> control.stop
      invariant !control.failed ==> |support| == p
      invariant p > 0 || !old(control.stop) ==> !control.stop
      invariant !control.failed && !control.stop ==>
        && SlotsFound(roles, p, slots) && MapSlotsFound(roles, mapSlots)
        && |support| == p && forall q :: 0 <= q < p ==> Recounts(support[q], roles[q])
    {
      var stopped := control.Stopped();
      if stopped {
        return;
      }
      slots, mapSlots := IndexPage(roles, p, slots, mapSlots);
      var counts := CountSupport(roles[p]);
      var written := control.Access();
      if written {
        support := support + [counts];
      }
    }
    complete := true;
  }

  method IndexPage(roles: seq<seq<RoleClaim>>, p: nat, slots0: map<G.ClaimId, (nat, nat)>, mapSlots0: map<(nat, nat), (nat, nat)>)
    returns (slots: map<G.ClaimId, (nat, nat)>, mapSlots: map<(nat, nat), (nat, nat)>)
    requires p < |roles|
    ensures SlotsFound(roles, p, slots0) ==> SlotsFound(roles, p + 1, slots)
    ensures MapSlotsFound(roles, mapSlots0) ==> MapSlotsFound(roles, mapSlots)
  {
    slots, mapSlots := slots0, mapSlots0;
    for i: nat := 0 to |roles[p]|
      invariant SlotsFound(roles, p, slots0) ==> SlotsFound(roles, p, slots)
      invariant MapSlotsFound(roles, mapSlots0) ==> MapSlotsFound(roles, mapSlots)
      invariant forall k :: 0 <= k < i && roles[p][k].source.FromClaim? ==> roles[p][k].source.id in slots
    {
      match roles[p][i].source
      case FromClaim(id) => slots := slots[id := (p, i)];
      case FromMap(page, offset) => mapSlots := mapSlots[(page, offset) := (p, i)];
      case _ =>
    }
  }

  /** With unique names, the slot of a placed claim holds that claim's evidence. */
  lemma SlotIsClaim(local: seq<seq<RoleClaim>>, claims: seq<G.Claim>, roles: seq<seq<RoleClaim>>, slots: map<G.ClaimId, (nat, nat)>, j: nat)
    requires Collected(local, claims, |claims|, roles) && G.UniqueNames(claims) && SlotsFound(roles, |roles|, slots)
    requires j < |claims|
    ensures claims[j].id in slots <==> Placed(local, claims, j)
    ensures claims[j].id in slots ==>
      SlotBears(roles, slots[claims[j].id], claims[j].id) && roles[slots[claims[j].id].0][slots[claims[j].id].1] == RoleOf(claims[j])
  {
    if Placed(local, claims, j) {
      SlotHoldsClaim(local, claims, roles, j);
    }
    if claims[j].id in slots {
      var (p, i) := slots[claims[j].id];
      assert SlotBears(roles, (p, i), claims[j].id);
      var k := ClaimHoldsSlot(local, claims, roles, p, i);
      assert k == j;
    }
  }

  predicate Watches(d: Dependency, claims: seq<G.Claim>, j: nat)
    requires j < |claims|
  {
    d.evidence == Relationship(j) && d.requirement == RequirementOf(claims[j])
  }

  /** Some dependency stands for claim `j`. */
  ghost predicate Watched(outgoing: Outgoing, claims: seq<G.Claim>, j: nat)
    requires j < |claims|
  {
    var source := claims[j].source.page;
    && source in outgoing
    && exists k :: 0 <= k < |outgoing[source]| && Watches(outgoing[source][k], claims, j)
  }

  function Push(outgoing: Outgoing, source: nat, d: Dependency): Outgoing {
    outgoing[source := (if source in outgoing then outgoing[source] else []) + [d]]
  }

  lemma PushKeeps(s: State, slots: map<G.ClaimId, (nat, nat)>, outgoing: Outgoing, source: nat, d: Dependency)
    requires AllFaithful(s, slots, outgoing) && Faithful(s, slots, d)
    ensures AllFaithful(s, slots, Push(outgoing, source, d))
    ensures forall j :: 0 <= j < |s.claims| && Watched(outgoing, s.claims, j) ==> Watched(Push(outgoing, source, d), s.claims, j)
  {
    var more := Push(outgoing, source, d);
    forall at, k | at in more && 0 <= k < |more[at]|
      ensures Faithful(s, slots, more[at][k])
    {
      if at in outgoing && k < |outgoing[at]| {
        assert more[at][k] == outgoing[at][k];
      }
    }
    forall j | 0 <= j < |s.claims| && Watched(outgoing, s.claims, j)
      ensures Watched(more, s.claims, j)
    {
      var from := s.claims[j].source.page;
      var k :| 0 <= k < |outgoing[from]| && Watches(outgoing[from][k], s.claims, j);
      assert Watches(more[from][k], s.claims, j);
    }
  }

  lemma PushWatches(claims: seq<G.Claim>, outgoing: Outgoing, j: nat, slot: (nat, nat))
    requires j < |claims|
    ensures Watched(Push(outgoing, claims[j].source.page, Dependency(slot, Relationship(j), RequirementOf(claims[j]))), claims, j)
  {
    var source := claims[j].source.page;
    var d := Dependency(slot, Relationship(j), RequirementOf(claims[j]));
    var more := Push(outgoing, source, d);
    assert Watches(more[source][|more[source]| - 1], claims, j);
  }

  ghost predicate WatchedBelow(s: State, slots: map<G.ClaimId, (nat, nat)>, outgoing: Outgoing, n: nat) {
    n <= |s.claims| && forall j :: 0 <= j < n && s.claims[j].id in slots ==> Watched(outgoing, s.claims, j)
  }

  /** One dependency for every claim that has evidence. */
  method WatchClaims(s: State, ghost local: seq<seq<RoleClaim>>, slots: map<G.ClaimId, (nat, nat)>, control: WorkControl)
    returns (outgoing: Outgoing, complete: bool)
    requires !control.failed && !control.stop ==>
      Collected(local, s.claims, |s.claims|, s.roles) && G.UniqueNames(s.claims) && SlotsFound(s.roles, |s.roles|, slots) && |s.roles| == |s.support|
    modifies control`stop, control`failed
    ensures old(control.failed) ==> control.failed
    ensures old(control.stop) ==> control.stop
    ensures !complete ==> control.stop || control.failed
    ensures complete && !old(control.stop) ==> !control.stop
    ensures complete && !control.failed && !control.stop ==>
      AllFaithful(s, slots, outgoing) && WatchedBelow(s, slots, outgoing, |s.claims|)
  {
    hide Collected, SlotsFound, G.UniqueNames;
    outgoing, complete := map[], false;
    for j: nat := 0 to |s.claims|
      invariant old(control.failed) ==> control.failed
      invariant old(control.stop) ==> control.stop
      invariant !old(control.stop) ==> !control.stop
      invariant !control.failed && !control.stop ==> AllFaithful(s, slots, outgoing) && WatchedBelow(s, slots, outgoing, j)
    {
      var stopped := control.Stopped();
      if stopped {
        return;
      }
      var c := s.claims[j];
      if c.id in slots {
        var admitted := control.ReserveMemory();
        var read := control.Access();
        stopped := control.Stopped();
        if stopped {
          return;
        }
        var d := Dependency(slots[c.id], Relationship(j), RequirementOf(c));
        if read {
          SlotIsClaim(local, s.claims, s.roles, slots, j);
          PushKeeps(s, slots, outgoing, c.source.page, d);
          PushWatches(s.claims, outgoing, j, slots[c.id]);
        }
        outgoing := Push(outgoing, c.source.page, d);
      }
    }
    complete := true;
  }

  function MapRequirement(kind: P.MapKind): Option<Requirement> {
    match kind
    case BtreeLink => Some(BtreePage)
    case FirstOverflow => Some(BtreePage)
    case ChainedOverflow => Some(OverflowPage)
    case _ => None
  }

  /** One dependency for every pointer-map entry that names a parent of a known role. */
  method WatchMaps(s: State, slots: map<G.ClaimId, (nat, nat)>, maps: seq<P.MapPage>, mapSlots: map<(nat, nat), (nat, nat)>,
                   before: Outgoing, control: WorkControl)
    returns (outgoing: Outgoing, complete: bool)
    requires |s.entries| == |maps| && forall m :: 0 <= m < |maps| ==> |s.entries[m]| == |maps[m].entries|
    requires !control.failed && !control.stop ==>
      && MapSlotsFound(s.roles, mapSlots) && |s.roles| == |s.support|
      && AllFaithful(s, slots, before) && WatchedBelow(s, slots, before, |s.claims|)
    modifies control`stop, control`failed
    ensures old(control.failed) ==> control.failed
    ensures old(control.stop) ==> control.stop
    ensures !complete ==> control.stop || control.failed
    ensures complete && !old(control.stop) ==> !control.stop
    ensures complete && !control.failed && !control.stop ==>
      AllFaithful(s, slots, outgoing) && WatchedBelow(s, slots, outgoing, |s.claims|)
  {
    outgoing, complete := before, false;
    for m: nat := 0 to |maps|
      invariant old(control.failed) ==> control.failed
      invariant old(control.stop) ==> control.stop
      invariant !old(control.stop) ==> !control.stop
      invariant !control.failed && !control.stop ==> AllFaithful(s, slots, outgoing) && WatchedBelow(s, slots, outgoing, |s.claims|)
    {
      for e: nat := 0 to |maps[m].entries|
        invariant old(control.failed) ==> control.failed
        invariant old(control.stop) ==> control.stop
        invariant !old(control.stop) ==> !control.stop
      invariant !control.failed && !control.stop ==> AllFaithful(s, slots, outgoing) && WatchedBelow(s, slots, outgoing, |s.claims|)
      {
        var stopped := control.Stopped();
        if stopped {
          return;
        }
        var entry, key := maps[m].entries[e], (maps[m].page, maps[m].entries[e].offset);
        var read := control.Access();
        if read && key in mapSlots && entry.kind.Some? && MapRequirement(entry.kind.value).Some? && entry.parent.Some? {
          var d := Dependency(mapSlots[key], MapEntry(m, e), MapRequirement(entry.kind.value).value);
          var admitted := control.ReserveMemory();
          stopped := control.Stopped();
          if stopped {
            return;
          }
          if !control.stop {
            PushKeeps(s, slots, outgoing, entry.parent.value, d);
          }
          outgoing := Push(outgoing, entry.parent.value, d);
        }
      }
    }
    complete := true;
  }
}
