/** Page roles: what several pieces of evidence about one page amount to. */
module Roles {
  import opened Wrappers
  import Graph = ClaimGraph

  datatype PageRole =
    | Btree | TableLeaf | TableInterior | IndexLeaf | IndexInterior
    | Freelist | FreelistTrunk | FreelistLeaf
    | Overflow | PointerMap | LockByte | Unknown | Conflicting
  {
    predicate SomeBtree() {
      TableLeaf? || TableInterior? || IndexLeaf? || IndexInterior?
    }

    predicate SomeFreelist() {
      FreelistTrunk? || FreelistLeaf?
    }

    /** A role that evidence can claim. */
    predicate Claimable() {
      !Unknown? && !Conflicting?
    }
  }

  function Merge(left: PageRole, right: PageRole): PageRole {
    if left.Unknown? then right
    else if right.Unknown? then left
    else if left == right then left
    else if left.Btree? && right.SomeBtree() then right
    else if left.SomeBtree() && right.Btree? then left
    else if left.Freelist? && right.SomeFreelist() then right
    else if left.SomeFreelist() && right.Freelist? then left
    else Conflicting
  }

  // ---------------------------------------------------------------- merging is a least upper bound

  /** `low` says no more than `high`: Unknown says nothing, Conflicting says too much. */
  predicate Below(low: PageRole, high: PageRole) {
    || low == high || low.Unknown? || high.Conflicting?
    || (low.Btree? && high.SomeBtree())
    || (low.Freelist? && high.SomeFreelist())
  }

  lemma BelowIsOrder(a: PageRole, b: PageRole, c: PageRole)
    ensures Below(a, a)
    ensures Below(a, b) && Below(b, a) ==> a == b
    ensures Below(a, b) && Below(b, c) ==> Below(a, c)
  {
  }

  /** The merged role is the least one above both. */
  lemma MergeIsLeast(a: PageRole, b: PageRole, bound: PageRole)
    ensures Below(a, Merge(a, b)) && Below(b, Merge(a, b))
    ensures Below(Merge(a, b), bound) <==> Below(a, bound) && Below(b, bound)
  {
  }

  function MergeAll(roles: seq<PageRole>): PageRole {
    if roles == [] then Unknown else Merge(MergeAll(roles[..|roles| - 1]), roles[|roles| - 1])
  }

  lemma {:induction false} MergeAllIsLeast(roles: seq<PageRole>, bound: PageRole)
    ensures Below(MergeAll(roles), bound) <==> forall r :: r in roles ==> Below(r, bound)
  {
    if roles != [] {
      var rest, last := roles[..|roles| - 1], roles[|roles| - 1];
      MergeAllIsLeast(rest, bound);
      MergeIsLeast(MergeAll(rest), last, bound);
      assert roles == rest + [last];
    }
  }

  /** Neither the order nor the repetition of evidence matters. */
  lemma SameRolesSameMerge(a: seq<PageRole>, b: seq<PageRole>)
    requires forall r :: r in a <==> r in b
    ensures MergeAll(a) == MergeAll(b)
  {
    MergeAllIsLeast(a, MergeAll(a));
    MergeAllIsLeast(b, MergeAll(b));
    MergeAllIsLeast(a, MergeAll(b));
    MergeAllIsLeast(b, MergeAll(a));
    BelowIsOrder(MergeAll(a), MergeAll(b), MergeAll(a));
  }

  // ---------------------------------------------------------------- evidence about one page

  datatype Evidence = Geometry | LocalStructure | FromMap(page: nat, offset: nat) | FromClaim(id: Graph.ClaimId)

  datatype RoleClaim = RoleClaim(role: PageRole, source: Evidence, state: Graph.RelationshipState, stop: Option<Graph.StopReason>) {
    /** Evidence that counts: it was validated, or set aside only because it contradicts. */
    predicate Credible() {
      state.Validated? || state.Conflicting?
    }

    /** Evidence in dispute; a claim set aside for a cycle says nothing against its page. */
    predicate Disputed() {
      state.Conflicting? && stop != Some(Graph.StopReason.Cycle)
    }
  }

  ghost predicate Claimed(claims: seq<RoleClaim>) {
    forall i :: 0 <= i < |claims| ==> claims[i].role.Claimable()
  }

  function CredibleRoles(claims: seq<RoleClaim>): seq<PageRole> {
    if claims == [] then []
    else
      var last := claims[|claims| - 1];
      CredibleRoles(claims[..|claims| - 1]) + (if last.Credible() then [last.role] else [])
  }

  lemma {:induction false} CredibleRolesMeaning(claims: seq<RoleClaim>, r: PageRole)
    ensures r in CredibleRoles(claims) <==> exists i :: 0 <= i < |claims| && claims[i].Credible() && claims[i].role == r
  {
    if claims != [] {
      var rest, last := claims[..|claims| - 1], claims[|claims| - 1];
      CredibleRolesMeaning(rest, r);
      if i :| 0 <= i < |rest| && rest[i].Credible() && rest[i].role == r {
        assert claims[i].Credible();
      }
      assert last.Credible() ==> claims[|claims| - 1].Credible();
    }
  }

  ghost predicate SomeDisputed(claims: seq<RoleClaim>) {
    exists i :: 0 <= i < |claims| && claims[i].Disputed()
  }

  /** What all evidence about a page amounts to. */
  ghost function Verdict(claims: seq<RoleClaim>): PageRole {
    if SomeDisputed(claims) then Conflicting else MergeAll(CredibleRoles(claims))
  }

  /** The first resolution folds the claims in order; a dispute makes the role Conflicting
      and no later claim takes that back. */
  method ResolveRole(claims: seq<RoleClaim>) returns (role: PageRole)
    ensures role == Verdict(claims)
  {
    role := Unknown;
    for n: nat := 0 to |claims|
      invariant role == Verdict(claims[..n])
    {
      assert claims[..n + 1] == claims[..n] + [claims[n]];
      var c := claims[n];
      DisputedStep(claims, n);
      VerdictStep(claims[..n], c);
      if c.Disputed() {
        role := Conflicting;
      }
      if c.Credible() {
        role := Merge(role, c.role);
      }
    }
    assert claims[..|claims|] == claims;
  }

  lemma VerdictStep(claims: seq<RoleClaim>, c: RoleClaim)
    ensures var roles := CredibleRoles(claims);
      CredibleRoles(claims + [c]) == (if c.Credible() then roles + [c.role] else roles)
      && MergeAll(CredibleRoles(claims + [c])) == if c.Credible() then Merge(MergeAll(roles), c.role) else MergeAll(roles)
  {
    var roles := CredibleRoles(claims);
    assert (claims + [c])[..|claims|] == claims;
    assert (roles + [c.role])[..|roles|] == roles;
    assert roles + [] == roles;
  }

  lemma DisputedStep(claims: seq<RoleClaim>, n: nat)
    requires n < |claims|
    ensures SomeDisputed(claims[..n + 1]) <==> SomeDisputed(claims[..n]) || claims[n].Disputed()
  {
    assert claims[..n + 1] == claims[..n] + [claims[n]];
    if i :| 0 <= i < n && claims[..n][i].Disputed() {
      assert claims[..n + 1][i].Disputed();
    }
    assert claims[n].Disputed() ==> claims[..n + 1][n].Disputed();
  }

  // ---------------------------------------------------------------- support counters

  datatype Support = Support(counts: map<PageRole, nat>, conflicts: nat) {
    function Count(role: PageRole): nat {
      if role in counts then counts[role] else 0
    }

    function Physical(): PageRole {
      MergeAll(Supported(this, CLAIM_ROLES))
    }

    function Role(): PageRole {
      if conflicts > 0 then Conflicting else Physical()
    }

    function Add(c: RoleClaim): Support {
      if c.Credible() then Support(counts[c.role := Count(c.role) + 1], conflicts + if c.Disputed() then 1 else 0) else this
    }

    function Remove(c: RoleClaim): Support
      requires Count(c.role) > 0 && (c.Disputed() ==> conflicts > 0)
    {
      Support(counts[c.role := Count(c.role) - 1], conflicts - if c.Disputed() then 1 else 0)
    }
  }

  const CLAIM_ROLES: seq<PageRole> :=
    [Btree, TableLeaf, TableInterior, IndexLeaf, IndexInterior, Freelist, FreelistTrunk, FreelistLeaf, Overflow, PointerMap, LockByte]

  function Supported(s: Support, roles: seq<PageRole>): seq<PageRole> {
    if roles == [] then []
    else
      var last := roles[|roles| - 1];
      Supported(s, roles[..|roles| - 1]) + (if s.Count(last) > 0 then [last] else [])
  }

  lemma {:induction false} SupportedMeaning(s: Support, roles: seq<PageRole>, r: PageRole)
    ensures r in Supported(s, roles) <==> r in roles && s.Count(r) > 0
  {
    if roles != [] {
      SupportedMeaning(s, roles[..|roles| - 1], r);
      assert roles == roles[..|roles| - 1] + [roles[|roles| - 1]];
    }
  }

  ghost function CountRole(claims: seq<RoleClaim>, r: PageRole): nat {
    if claims == [] then 0
    else
      var last := claims[|claims| - 1];
      CountRole(claims[..|claims| - 1], r) + if last.Credible() && last.role == r then 1 else 0
  }

  ghost function CountDisputed(claims: seq<RoleClaim>): nat {
    if claims == [] then 0
    else CountDisputed(claims[..|claims| - 1]) + if claims[|claims| - 1].Disputed() then 1 else 0
  }

  /** The counters are what counting the claims again would give. */
  ghost predicate Recounts(s: Support, claims: seq<RoleClaim>) {
    (forall r :: s.Count(r) == CountRole(claims, r)) && s.conflicts == CountDisputed(claims)
  }

  lemma {:induction false} CountRolePositive(claims: seq<RoleClaim>, r: PageRole)
    ensures CountRole(claims, r) > 0 <==> r in CredibleRoles(claims)
  {
    if claims != [] {
      CountRolePositive(claims[..|claims| - 1], r);
    }
  }

  lemma {:induction false} CountDisputedPositive(claims: seq<RoleClaim>)
    ensures CountDisputed(claims) > 0 <==> SomeDisputed(claims)
  {
    if claims != [] {
      var rest := claims[..|claims| - 1];
      CountDisputedPositive(rest);
      assert claims[..|rest| + 1] == claims;
      DisputedStep(claims, |rest|);
    }
  }

  /** Counters that agree with the claims give the role that the claims amount to. */
  lemma CountersGiveVerdict(s: Support, claims: seq<RoleClaim>)
    requires Recounts(s, claims) && Claimed(claims)
    ensures s.Physical() == MergeAll(CredibleRoles(claims)) && s.Role() == Verdict(claims)
  {
    forall r: PageRole
      ensures r in Supported(s, CLAIM_ROLES) <==> r in CredibleRoles(claims)
    {
      SupportedMeaning(s, CLAIM_ROLES, r);
      CountRolePositive(claims, r);
      CredibleRolesMeaning(claims, r);
      ClaimableListed(r);
    }
    SameRolesSameMerge(Supported(s, CLAIM_ROLES), CredibleRoles(claims));
    CountDisputedPositive(claims);
  }

  lemma ClaimableListed(r: PageRole)
    ensures r in CLAIM_ROLES <==> r.Claimable()
  {
    assert CLAIM_ROLES[0] == Btree && CLAIM_ROLES[1] == TableLeaf && CLAIM_ROLES[2] == TableInterior && CLAIM_ROLES[3] == IndexLeaf
      && CLAIM_ROLES[4] == IndexInterior && CLAIM_ROLES[5] == Freelist && CLAIM_ROLES[6] == FreelistTrunk
      && CLAIM_ROLES[7] == FreelistLeaf && CLAIM_ROLES[8] == Overflow && CLAIM_ROLES[9] == PointerMap && CLAIM_ROLES[10] == LockByte;
  }

  lemma AddRecounts(s: Support, claims: seq<RoleClaim>, c: RoleClaim)
    requires Recounts(s, claims)
    ensures Recounts(s.Add(c), claims + [c])
  {
    assert (claims + [c])[..|claims|] == claims;
  }

  lemma {:induction false} CountUpdated(claims: seq<RoleClaim>, i: nat, c: RoleClaim, r: PageRole)
    requires i < |claims| && claims[i].Credible() && !c.Credible()
    ensures CountRole(claims[i := c], r) == CountRole(claims, r) - (if claims[i].role == r then 1 else 0)
    ensures CountDisputed(claims[i := c]) == CountDisputed(claims) - (if claims[i].Disputed() then 1 else 0)
  {
    var last := |claims| - 1;
    if i < last {
      CountUpdated(claims[..last], i, c, r);
      assert claims[i := c][..last] == claims[..last][i := c];
    } else {
      assert claims[i := c][..last] == claims[..last];
    }
  }

  /** Taking back one credible claim: the counters never run below zero, and agree with the
      claims that are left. */
  lemma RemoveRecounts(s: Support, claims: seq<RoleClaim>, i: nat, c: RoleClaim)
    requires Recounts(s, claims) && i < |claims| && claims[i].Credible() && !c.Credible()
    ensures s.Count(claims[i].role) > 0 && (claims[i].Disputed() ==> s.conflicts > 0)
    ensures Recounts(s.Remove(claims[i]), claims[i := c])
  {
    forall r
      ensures CountRole(claims[i := c], r) == CountRole(claims, r) - (if claims[i].role == r then 1 else 0)
    {
      CountUpdated(claims, i, c, r);
    }
    CountUpdated(claims, i, c, claims[i].role);
    var t := s.Remove(claims[i]);
    assert forall r :: t.Count(r) == s.Count(r) - (if claims[i].role == r then 1 else 0);
  }

  method CountSupport(claims: seq<RoleClaim>) returns (s: Support)
    ensures Recounts(s, claims)
  {
    s := Support(map[], 0);
    for n: nat := 0 to |claims|
      invariant Recounts(s, claims[..n])
    {
      assert claims[..n + 1] == claims[..n] + [claims[n]];
      AddRecounts(s, claims[..n], claims[n]);
      s := s.Add(claims[n]);
    }
    assert claims[..|claims|] == claims;
  }
}
