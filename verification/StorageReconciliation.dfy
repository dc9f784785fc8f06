/** Freelist pages that B-tree cells or overflow pages also name: both sides lose their
    verdicts, and what was built on the freelist's side is cut back. */
module StorageReconciliation {
  import opened Wrappers
  import opened Control
  import opened ClaimGraph
  import opened ClaimTables
  import opened Inventory
  import opened LinkForest
  import opened ClaimTargets

  /** A storage claim that was refused because its target is a freelist page. */
  predicate Disputes(c: Claim, overrides: map<nat, AllocationRole>) {
    c.target.Some? && c.target.value in overrides && c.stop == Some(TypeMismatch)
  }

  /** The disputing claims among the first `n`. */
  ghost function Disputing(storage: seq<Claim>, overrides: map<nat, AllocationRole>, n: nat): set<nat> {
    set i | 0 <= i < n && i < |storage| && Disputes(storage[i], overrides)
  }

  ghost function DisputedPages(storage: seq<Claim>, overrides: map<nat, AllocationRole>, n: nat): set<nat> {
    set i | i in Disputing(storage, overrides, n) :: storage[i].target.value
  }

  /** The freelist claims that name one of `pages`. */
  ghost function Entering(free: seq<Claim>, pages: set<nat>): set<nat> {
    set i | 0 <= i < |free| && free[i].target.Some? && free[i].target.value in pages
  }

  ghost function IdsAt(claims: seq<Claim>, chosen: set<nat>): set<ClaimId> {
    set i | i in chosen && i < |claims| :: claims[i].id
  }

  lemma IdsUnion(claims: seq<Claim>, a: set<nat>, b: set<nat>)
    ensures IdsAt(claims, a + b) == IdsAt(claims, a) + IdsAt(claims, b)
  {
  }

  lemma DemoteTwice(claims: seq<Claim>, a: set<nat>, b: set<nat>, reason: StopReason)
    ensures Demote(Demote(claims, a, reason), b, reason) == Demote(claims, a + b, reason)
  {
  }

  /** Refuses the freelist claims on one page. */
  method RefuseGroup(free: ClaimTable, group: seq<nat>) returns (ids: set<ClaimId>, complete: bool)
    requires forall k :: 0 <= k < |group| ==> group[k] < |free.claims|
    modifies free`claims, free.control`failed
    ensures old(free.control.failed) ==> free.control.failed
    ensures !complete ==> free.control.failed
    ensures |free.claims| == |old(free.claims)|
    ensures !free.control.failed ==> free.claims == Demote(old(free.claims), Members(group), ConflictingClaim)
    ensures complete ==> ids == IdsAt(old(free.claims), Members(group))
  {
    ids, complete := {}, false;
    ghost var before := free.claims;
    for k: nat := 0 to |group|
      invariant old(free.control.failed) ==> free.control.failed
      invariant SameClaims(before, free.claims) && |free.claims| == |before|
      invariant !free.control.failed ==> free.claims == Demote(before, Members(group[..k]), ConflictingClaim)
      invariant ids == IdsAt(before, Members(group[..k]))
    {
      MembersStep(group, k);
      IdsUnion(before, Members(group[..k]), {group[k]});
      SameClaimsMeaning(before, free.claims);
      var read := free.SetState(group[k], Conflicting, Some(ConflictingClaim));
      if !read {
        return;
      }
      ids := ids + {free.claims[group[k]].id};
      SameClaimsMeaning(before, free.claims);
    }
    assert group[..|group|] == group;
    complete := true;
  }

  lemma MembersStep(group: seq<nat>, k: nat)
    requires k < |group|
    ensures Members(group[..k + 1]) == Members(group[..k]) + {group[k]}
  {
    assert group[..k + 1] == group[..k] + [group[k]];
    assert forall m :: 0 <= m < k ==> group[..k][m] == group[..k + 1][m];
  }

  lemma EnteringOne(free: seq<Claim>, page: nat)
    ensures Entering(free, {page}) == Members(Naming(free, page, |free|))
  {
    NamingMeaning(free, page, |free|);
    var group := Naming(free, page, |free|);
    MembersMeaning(group);
    hide Naming, Members;
    forall i | i in Entering(free, {page})
      ensures i in Members(group)
    {
      assert free[i].target == Some(page);
    }
  }

  lemma EnteringUnion(free: seq<Claim>, a: set<nat>, b: set<nat>)
    ensures Entering(free, a + b) == Entering(free, a) + Entering(free, b)
  {
  }

  lemma DisputeStep(free: seq<Claim>, storage: seq<Claim>, overrides: map<nat, AllocationRole>, n: nat)
    requires n < |storage| && Disputes(storage[n], overrides)
    ensures Disputing(storage, overrides, n + 1) == Disputing(storage, overrides, n) + {n}
    ensures Entering(free, DisputedPages(storage, overrides, n + 1))
         == Entering(free, DisputedPages(storage, overrides, n)) + Members(Naming(free, storage[n].target.value, |free|))
  {
    var page := storage[n].target.value;
    EnteringOne(free, page);
    EnteringUnion(free, DisputedPages(storage, overrides, n), {page});
    assert Disputing(storage, overrides, n + 1) == Disputing(storage, overrides, n) + {n};
    assert DisputedPages(storage, overrides, n + 1) == DisputedPages(storage, overrides, n) + {page};
  }

  ghost function Conflicts(free: seq<Claim>, storage: seq<Claim>, overrides: map<nat, AllocationRole>, n: nat): set<ClaimId> {
    IdsAt(storage, Disputing(storage, overrides, n)) + IdsAt(free, Entering(free, DisputedPages(storage, overrides, n)))
  }

  /** Both tables and the noted names when the first `n` storage claims have been compared. */
  ghost predicate Compared(free0: seq<Claim>, storage0: seq<Claim>, overrides: map<nat, AllocationRole>, n: nat,
                           free: seq<Claim>, storage: seq<Claim>, ids: set<ClaimId>) {
    && storage == Demote(storage0, Disputing(storage0, overrides, n), ConflictingClaim)
    && free == Demote(free0, Entering(free0, DisputedPages(storage0, overrides, n)), ConflictingClaim)
    && ids == Conflicts(free0, storage0, overrides, n)
  }

  lemma ComparedSkip(free0: seq<Claim>, storage0: seq<Claim>, overrides: map<nat, AllocationRole>, n: nat)
    requires n < |storage0| && !Disputes(storage0[n], overrides)
    ensures Disputing(storage0, overrides, n + 1) == Disputing(storage0, overrides, n)
  {
  }

  lemma ComparedStep(free0: seq<Claim>, storage0: seq<Claim>, overrides: map<nat, AllocationRole>, n: nat, group: seq<nat>,
                     free: seq<Claim>, storage: seq<Claim>, ids: set<ClaimId>)
    requires n < |storage0| && Disputes(storage0[n], overrides)
    requires group == Naming(free0, storage0[n].target.value, |free0|)
    requires Compared(free0, storage0, overrides, n, free, storage, ids)
    ensures Compared(free0, storage0, overrides, n + 1,
              Demote(free, Members(group), ConflictingClaim),
              Demote(storage, {n}, ConflictingClaim),
              ids + {storage0[n].id} + IdsAt(free0, Members(group)))
  {
    DisputeStep(free0, storage0, overrides, n);
    DemoteTwice(storage0, Disputing(storage0, overrides, n), {n}, ConflictingClaim);
    DemoteTwice(free0, Entering(free0, DisputedPages(storage0, overrides, n)), Members(group), ConflictingClaim);
    IdsUnion(storage0, Disputing(storage0, overrides, n), {n});
    IdsUnion(free0, Entering(free0, DisputedPages(storage0, overrides, n)), Members(group));
    assert IdsAt(storage0, {n}) == {storage0[n].id};
  }

  /** Compares every storage claim with the freelist. The sweep may end early; then what has
      been compared so far stays refused. */
  method CompareClaims(storage: ClaimTable, free: ClaimTable, incoming: map<nat, seq<nat>>, overrides: map<nat, AllocationRole>)
    returns (ids: set<ClaimId>, disputed: map<nat, AllocationRole>, go: bool, ghost n: nat)
    requires storage != free && storage.control == free.control
    requires !free.control.failed ==> incoming == NamingIndex(free.claims, |free.claims|)
    modifies storage`claims, free`claims, free.control`stop, free.control`failed
    ensures old(free.control.failed) ==> free.control.failed
    ensures old(free.control.stop) ==> free.control.stop
    ensures n <= |old(storage.claims)| && disputed.Keys == overrides.Keys
    ensures !go ==> free.control.stop || free.control.failed
    ensures !free.control.failed && !free.control.stop ==> n == |old(storage.claims)|
    ensures go && !free.control.failed ==>
      Compared(old(free.claims), old(storage.claims), overrides, n, free.claims, storage.claims, ids)
    ensures !free.control.failed ==> |storage.claims| == |old(storage.claims)| && |free.claims| == |old(free.claims)|
  {
    ghost var free0, storage0 := free.claims, storage.claims;
    ids, disputed, go, n := {}, overrides, false, 0;
    var position := 0;
    while position < |storage.claims|
      invariant old(free.control.failed) ==> free.control.failed
      invariant old(free.control.stop) ==> free.control.stop
      invariant n == position <= |storage.claims| == |storage0| && disputed.Keys == overrides.Keys
      invariant |free.claims| == |free0|
      invariant !free.control.failed ==> Compared(free0, storage0, overrides, n, free.claims, storage.claims, ids)
    {
      var read := free.control.Access();
      if !read {
        return;
      }
      var stopped := free.control.Stopped();
      if stopped {
        break;
      }
      var c := storage.claims[position];
      assert c == storage0[position];
      if Disputes(c, overrides) {
        var more;
        more, go := RefuseBoth(storage, free, incoming, position, free0, storage0, overrides, ids);
        if !go {
          return;
        }
        ids := ids + {c.id} + more;
        disputed := disputed[c.target.value := DisputedPage];
      } else {
        ComparedSkip(free0, storage0, overrides, n);
      }
      position := position + 1;
      n := n + 1;
    }
    go := true;
  }

  method RefuseBoth(storage: ClaimTable, free: ClaimTable, incoming: map<nat, seq<nat>>, position: nat,
                    ghost free0: seq<Claim>, ghost storage0: seq<Claim>, ghost overrides: map<nat, AllocationRole>, ghost ids: set<ClaimId>)
    returns (more: set<ClaimId>, go: bool)
    requires storage != free && storage.control == free.control
    requires position < |storage.claims| == |storage0| && |free.claims| == |free0|
    requires storage.claims[position] == storage0[position] && Disputes(storage0[position], overrides)
    requires !free.control.failed ==>
      && incoming == NamingIndex(free0, |free0|)
      && Compared(free0, storage0, overrides, position, free.claims, storage.claims, ids)
    modifies storage`claims, free`claims, free.control`stop, free.control`failed
    ensures old(free.control.failed) ==> free.control.failed
    ensures old(free.control.stop) ==> free.control.stop
    ensures |storage.claims| == |storage0| && |free.claims| == |free0|
    ensures !go ==> free.control.stop || free.control.failed
    ensures go && !free.control.failed ==>
      Compared(free0, storage0, overrides, position + 1, free.claims, storage.claims, ids + {storage0[position].id} + more)
  {
    var page := storage.claims[position].target.value;
    more, go := {}, false;
    var read := free.control.Access();
    var group := if read && page in incoming then incoming[page] else [];
    var stopped := free.control.Stopped();
    if stopped {
      return;
    }
    var granted := free.control.ReserveMemory();
    if !granted {
      return;
    }
    if read {
      NamingIndexMeaning(free0, |free0|, page);
      NamingMeaning(free0, page, |free0|);
      ComparedStep(free0, storage0, overrides, position, group, free.claims, storage.claims, ids);
      IdsKept(free0, Entering(free0, DisputedPages(storage0, overrides, position)), Members(group));
    }
    hide Compared, Naming;
    assert storage.claims[position := Refused(storage.claims[position])] == Demote(storage.claims, {position}, ConflictingClaim);
    read := storage.SetState(position, Conflicting, Some(ConflictingClaim));
    more, go := RefuseGroup(free, group);
  }

  function Refused(c: Claim): Claim {
    c.(state := Conflicting, stop := Some(ConflictingClaim))
  }

  lemma IdsKept(claims: seq<Claim>, chosen: set<nat>, some: set<nat>)
    ensures IdsAt(Demote(claims, chosen, ConflictingClaim), some) == IdsAt(claims, some)
  {
    var after := Demote(claims, chosen, ConflictingClaim);
    assert forall i :: 0 <= i < |claims| ==> after[i].id == claims[i].id;
  }

  // ---------------------------------------------------------------- what was built on the claims

  function Without(links: seq<Relationship>, ids: set<ClaimId>): seq<Relationship> {
    if links == [] then []
    else
      var last := links[|links| - 1];
      Without(links[..|links| - 1], ids) + (if last.claimId in ids then [] else [last])
  }

  lemma {:induction false} WithoutMeaning(links: seq<Relationship>, ids: set<ClaimId>)
    ensures Selected(Without(links, ids), links)
    ensures forall r :: r in Without(links, ids) <==> r in links && r.claimId !in ids
  {
    if links != [] {
      var rest, last := links[..|links| - 1], links[|links| - 1];
      WithoutMeaning(rest, ids);
      assert links == rest + [last];
      var kept := Without(rest, ids);
      assert kept + [] == kept && (kept + [last])[..|kept|] == kept;
      assert Without(links, ids) == if last.claimId in ids then kept else kept + [last];
    }
  }

  /** Drops the relationships of refused claims; a stop drops the unread ones as well. */
  method RetainLinks(links: seq<Relationship>, ids: set<ClaimId>, control: WorkControl) returns (kept: seq<Relationship>)
    modifies control`stop, control`failed
    ensures old(control.failed) ==> control.failed
    ensures old(control.stop) ==> control.stop
    ensures !control.failed ==> Selected(kept, links)
    ensures !control.failed && !control.stop ==> kept == Without(links, ids)
  {
    kept := [];
    NothingSelected(links);
    for k: nat := 0 to |links|
      invariant old(control.failed) ==> control.failed
      invariant old(control.stop) ==> control.stop
      invariant !control.failed ==> kept == Without(links[..k], ids)
    {
      assert links[..k + 1][..k] == links[..k];
      var read := control.Access();
      var stopped := control.Stopped();
      if !read || stopped {
        WithoutMeaning(links[..k], ids);
        AllSelected(links[..k]);
        NothingSelected(links[k..]);
        SelectedAppend(Without(links[..k], ids), links[..k], [], links[k..]);
        assert links[..k] + links[k..] == links && kept + [] == kept;
        return;
      }
      if links[k].claimId !in ids {
        var written := control.Access();
        if written {
          kept := kept + [links[k]];
        }
      }
    }
    assert links[..|links|] == links;
    WithoutMeaning(links, ids);
  }

  /** A refused claim names the page. */
  ghost predicate Conflicted(free: seq<Claim>, ids: set<ClaimId>, page: nat) {
    exists i :: 0 <= i < |free| && free[i].target == Some(page) && free[i].id in ids
  }

  /** `cut` ends before the first page that lost its claim. */
  ghost predicate CutBefore(free: seq<Claim>, ids: set<ClaimId>, t: Traversal, cut: Traversal) {
    && cut.prefix <= t.prefix && cut.kind == t.kind && cut.origin == t.origin
    && (forall k :: 0 <= k < |cut.prefix| ==> !Conflicted(free, ids, t.prefix[k]))
    && (if |cut.prefix| < |t.prefix|
        then Conflicted(free, ids, t.prefix[|cut.prefix|]) && cut.stop.Some? && cut.stop.value.reason == ConflictingClaim
        else cut == t)
  }

  /** The claims on `page`, read through the index of the sweep. An index entry that cannot be
      read counts as empty. */
  method LostClaim(page: nat, incoming: map<nat, seq<nat>>, ids: set<ClaimId>, free: ClaimTable, ghost free0: seq<Claim>)
    returns (lost: bool)
    requires !free.control.failed ==> incoming == NamingIndex(free0, |free0|) && SameClaims(free0, free.claims)
    modifies free.control`failed, free.control`stop
    ensures old(free.control.failed) ==> free.control.failed
    ensures old(free.control.stop) ==> free.control.stop
    ensures !free.control.failed && lost ==> Conflicted(free0, ids, page)
    ensures !free.control.failed && !free.control.stop && Conflicted(free0, ids, page) ==> lost
  {
    var admitted := free.control.ReserveMemory();
    var read := free.control.Access();
    var group := if admitted && read && page in incoming then incoming[page] else [];
    lost := false;
    if read {
      NamingIndexMeaning(free0, |free0|, page);
      NamingMeaning(free0, page, |free0|);
      SameClaimsMeaning(free0, free.claims);
    }
    hide Naming, NamingIndex;
    ghost var indexed := read;
    for k: nat := 0 to |group|
      invariant old(free.control.failed) ==> free.control.failed
      invariant old(free.control.stop) ==> free.control.stop
      invariant (!indexed ==> free.control.failed) && (!admitted ==> free.control.stop)
      invariant !free.control.failed ==> !lost && forall m :: 0 <= m < k ==> free0[group[m]].id !in ids
    {
      read := free.control.Access();
      if read && free.claims[group[k]].id in ids {
        assert free0[group[k]].id in ids;
        return true;
      }
    }
    if !free.control.failed && admitted {
      NotConflicted(free0, ids, page, group);
    }
  }

  lemma NotConflicted(free: seq<Claim>, ids: set<ClaimId>, page: nat, group: seq<nat>)
    requires NamingPositions(free, page, |free|, group)
    requires forall m :: 0 <= m < |group| ==> free[group[m]].id !in ids
    ensures !Conflicted(free, ids, page)
  {
    forall i | 0 <= i < |free| && free[i].target == Some(page)
      ensures free[i].id !in ids
    {
      assert i in group;
    }
  }

  method CutTraversal(t: Traversal, incoming: map<nat, seq<nat>>, ids: set<ClaimId>, free: ClaimTable, ghost free0: seq<Claim>)
    returns (cut: Traversal)
    requires !free.control.failed ==> incoming == NamingIndex(free0, |free0|) && SameClaims(free0, free.claims)
    modifies free.control`failed, free.control`stop
    ensures old(free.control.failed) ==> free.control.failed
    ensures old(free.control.stop) ==> free.control.stop
    ensures cut.prefix <= t.prefix
    ensures !free.control.failed && !free.control.stop ==> CutBefore(free0, ids, t, cut)
  {
    cut := t;
    for k: nat := 0 to |t.prefix|
      invariant old(free.control.failed) ==> free.control.failed
      invariant old(free.control.stop) ==> free.control.stop
      invariant !free.control.failed && !free.control.stop ==> forall m :: 0 <= m < k ==> !Conflicted(free0, ids, t.prefix[m])
    {
      var lost := LostClaim(t.prefix[k], incoming, ids, free, free0);
      if lost {
        var read := free.control.Access();
        if read && t.prefix[k] in incoming && incoming[t.prefix[k]] != [] && incoming[t.prefix[k]][0] < |free.claims| {
          var c := free.claims[incoming[t.prefix[k]][0]];
          cut := t.(prefix := t.prefix[..k], stop := Some(TraversalStop(ConflictingClaim, c.id, c.target)));
        } else if !free.control.failed {
          NamingIndexMeaning(free0, |free0|, t.prefix[k]);
          NamingMeaning(free0, t.prefix[k], |free0|);
          SameClaimsMeaning(free0, free.claims);
        }
        return;
      }
    }
  }

  /** Cuts every freelist traversal before the first page that lost its claim. */
  method CutTraversals(traversals: seq<Traversal>, incoming: map<nat, seq<nat>>, ids: set<ClaimId>, free: ClaimTable, ghost free0: seq<Claim>)
    returns (cut: seq<Traversal>)
    requires !free.control.failed ==> incoming == NamingIndex(free0, |free0|) && SameClaims(free0, free.claims)
    modifies free.control`failed, free.control`stop
    ensures old(free.control.failed) ==> free.control.failed
    ensures old(free.control.stop) ==> free.control.stop
    ensures |cut| == |traversals| && Retained(cut) <= Retained(traversals)
    ensures !free.control.failed && !free.control.stop ==>
      forall k :: 0 <= k < |cut| ==> CutBefore(free0, ids, traversals[k], cut[k])
  {
    cut := traversals;
    for k: nat := 0 to |traversals|
      invariant old(free.control.failed) ==> free.control.failed
      invariant old(free.control.stop) ==> free.control.stop
      invariant |cut| == |traversals| && cut[k..] == traversals[k..] && Retained(cut) <= Retained(traversals)
      invariant !free.control.failed && !free.control.stop ==> forall m :: 0 <= m < k ==> CutBefore(free0, ids, traversals[m], cut[m])
    {
      var stopped := free.control.Stopped();
      if stopped {
        return;
      }
      assert cut[k] == cut[k..][0] == traversals[k];
      var one := CutTraversal(traversals[k], incoming, ids, free, free0);
      RetainedUpdate(cut, k, one);
      cut := cut[k := one];
    }
  }

  lemma {:induction false} RetainedUpdate(traversals: seq<Traversal>, k: nat, t: Traversal)
    requires k < |traversals|
    ensures Retained(traversals[k := t]) + |traversals[k].prefix| == Retained(traversals) + |t.prefix|
  {
    var last := |traversals| - 1;
    if k < last {
      RetainedUpdate(traversals[..last], k, t);
      assert traversals[k := t][..last] == traversals[..last][k := t];
    } else {
      assert traversals[k := t][..last] == traversals[..last];
    }
  }

  /** A storage traversal that stopped on a refused claim shows the dispute. */
  function Restated(t: Traversal, ids: set<ClaimId>): Traversal {
    if t.stop.Some? && t.stop.value.claimId in ids
    then t.(stop := Some(t.stop.value.(reason := ConflictingClaim)))
    else t
  }

  method RestateStops(traversals: seq<Traversal>, ids: set<ClaimId>, control: WorkControl) returns (r: seq<Traversal>)
    modifies control`failed, control`stop
    ensures old(control.failed) ==> control.failed
    ensures old(control.stop) ==> control.stop
    ensures |r| == |traversals| && Retained(r) == Retained(traversals)
    ensures forall k :: 0 <= k < |r| ==> r[k] == traversals[k] || r[k] == Restated(traversals[k], ids)
    ensures !control.failed && !control.stop ==> forall k :: 0 <= k < |r| ==> r[k] == Restated(traversals[k], ids)
  {
    r := traversals;
    for k: nat := 0 to |traversals|
      invariant old(control.failed) ==> control.failed
      invariant old(control.stop) ==> control.stop
      invariant |r| == |traversals| && Retained(r) == Retained(traversals)
      invariant forall m :: 0 <= m < |r| ==> r[m] == traversals[m] || (m < k && r[m] == Restated(traversals[m], ids))
      invariant !control.failed ==> forall m :: 0 <= m < k ==> r[m] == Restated(traversals[m], ids)
    {
      var stopped := control.Stopped();
      if stopped {
        return;
      }
      var written := control.Access();
      if !written {
        return;
      }
      RetainedUpdate(r, k, Restated(r[k], ids));
      r := r[k := Restated(r[k], ids)];
    }
  }

  /** What the phase leaves when nothing interrupts it. */
  ghost predicate Settled(free0: seq<Claim>, storage0: seq<Claim>, overrides: map<nat, AllocationRole>,
                          free: seq<Claim>, storage: seq<Claim>,
                          links0: seq<Relationship>, links: seq<Relationship>,
                          chains0: seq<Traversal>, chains: seq<Traversal>,
                          others0: seq<Traversal>, others: seq<Traversal>) {
    var ids := Conflicts(free0, storage0, overrides, |storage0|);
    && Compared(free0, storage0, overrides, |storage0|, free, storage, ids)
    && links == Without(links0, ids)
    && |chains| == |chains0| && (forall k :: 0 <= k < |chains| ==> CutBefore(free0, ids, chains0[k], chains[k]))
    && |others| == |others0| && (forall k :: 0 <= k < |others| ==> others[k] == Restated(others0[k], ids))
  }

  /** Reconciles the freelist with the pointers that B-tree cells and overflow pages hold;
      `clean` says that no dispute was found, without which the freelist is not complete. */
  method ReconcileStorage(storage: ClaimTable, free: ClaimTable, overrides: map<nat, AllocationRole>,
                          links0: seq<Relationship>, chains0: seq<Traversal>, others0: seq<Traversal>)
    returns (links: seq<Relationship>, chains: seq<Traversal>, others: seq<Traversal>, disputed: map<nat, AllocationRole>, clean: bool)
    requires storage != free && storage.control == free.control
    modifies storage`claims, free`claims, free.control`stop, free.control`failed
    ensures old(free.control.failed) ==> free.control.failed
    ensures old(free.control.stop) ==> free.control.stop
    ensures disputed.Keys == overrides.Keys
    ensures !free.control.failed ==> Selected(links, links0)
    ensures Retained(chains) <= Retained(chains0) && Retained(others) == Retained(others0)
    ensures !free.control.failed && !free.control.stop ==>
      Settled(old(free.claims), old(storage.claims), overrides, free.claims, storage.claims,
              links0, links, chains0, chains, others0, others)
    ensures !free.control.failed && !free.control.stop ==>
      (clean <==> Conflicts(old(free.claims), old(storage.claims), overrides, |old(storage.claims)|) == {})
  {
    links, chains, others, disputed, clean := links0, chains0, others0, overrides, true;
    AllSelected(links0);
    ghost var free0, storage0 := free.claims, storage.claims;
    var incoming, indexed := IndexClaimTargets(free);
    if !indexed {
      return;
    }
    var ids, go;
    ghost var n;
    ids, disputed, go, n := CompareClaims(storage, free, incoming, overrides);
    clean := ids == {};
    if !go {
      return;
    }
    links := RetainLinks(links0, ids, free.control);
    others := RestateStops(others0, ids, free.control);
    if !free.control.failed {
      DemotedSame(free0, Entering(free0, DisputedPages(storage0, overrides, n)));
    }
    chains := CutTraversals(chains0, incoming, ids, free, free0);
  }

  lemma DemotedSame(claims: seq<Claim>, chosen: set<nat>)
    ensures SameClaims(claims, Demote(claims, chosen, ConflictingClaim))
  {
  }
}
