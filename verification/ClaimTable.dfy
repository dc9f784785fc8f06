/** The growing list of claims and the operations that several phases share: indexing the
    validated claims by target, demoting a group of claims as one unit, and withdrawing
    every validated claim of an interrupted phase. */
module ClaimTables {
  import opened Wrappers
  import opened Control
  import opened ClaimGraph

  /** The claims with the ones at `chosen` demoted to Conflicting for `reason`. */
  function Demote(claims: seq<Claim>, chosen: set<nat>, reason: StopReason): (r: seq<Claim>)
    ensures |r| == |claims|
  {
    seq(|claims|, i requires 0 <= i < |claims| =>
      if i in chosen then claims[i].(state := Conflicting, stop := Some(reason)) else claims[i])
  }

  /** The positions of the links that enter `target`, among the first `n` claims. */
  function LinksTo(claims: seq<Claim>, target: nat, n: nat): (r: seq<nat>)
    requires n <= |claims|
  {
    if n == 0 then []
    else
      LinksTo(claims, target, n - 1)
        + (if claims[n - 1].IsLink() && claims[n - 1].target.value == target then [n - 1] else [])
  }

  lemma {:induction false} LinksToMeaning(claims: seq<Claim>, target: nat, n: nat)
    requires n <= |claims|
    ensures LinkPositions(claims, target, n, LinksTo(claims, target, n))
  {
    if n > 0 {
      LinksToMeaning(claims, target, n - 1);
      if claims[n - 1].IsLink() && claims[n - 1].target.value == target {
        OneMorePosition(claims, target, n, LinksTo(claims, target, n - 1));
      }
    }
  }

  /** `r` lists, in order, the positions below `n` of the links that enter `target`. */
  ghost predicate LinkPositions(claims: seq<Claim>, target: nat, n: nat, r: seq<nat>) {
    && n <= |claims|
    && (forall k :: 0 <= k < |r| ==> r[k] < n && claims[r[k]].IsLink() && claims[r[k]].target.value == target)
    && (forall a, b :: 0 <= a < b < |r| ==> r[a] < r[b])
    && (forall i :: 0 <= i < n && claims[i].IsLink() && claims[i].target.value == target ==> i in r)
  }

  lemma OneMorePosition(claims: seq<Claim>, target: nat, n: nat, before: seq<nat>)
    requires 0 < n <= |claims| && claims[n - 1].IsLink() && claims[n - 1].target.value == target
    requires LinkPositions(claims, target, n - 1, before)
    ensures LinkPositions(claims, target, n, before + [n - 1])
  {
    forall i | 0 <= i < n && claims[i].IsLink() && claims[i].target.value == target
      ensures i in before + [n - 1]
    {
      if i < n - 1 {
        assert i in before;
      }
    }
  }

  /** The index of the first `n` claims, built up in claim order. */
  function TargetIndex(claims: seq<Claim>, n: nat): map<nat, seq<nat>>
    requires n <= |claims|
  {
    if n == 0 then map[]
    else
      var prior := TargetIndex(claims, n - 1);
      if claims[n - 1].IsLink() then
        var target := claims[n - 1].target.value;
        prior[target := (if target in prior then prior[target] else []) + [n - 1]]
      else prior
  }

  lemma {:induction false} TargetIndexMeaning(claims: seq<Claim>, n: nat, target: nat)
    requires n <= |claims|
    ensures var index := TargetIndex(claims, n);
      && (target in index ==> index[target] == LinksTo(claims, target, n))
      && (target in index <==> LinksTo(claims, target, n) != [])
  {
    if n > 0 {
      TargetIndexMeaning(claims, n - 1, target);
    }
  }

  /** A link whose target is also entered by another link. */
  ghost predicate Shared(claims: seq<Claim>, i: nat) {
    && i < |claims|
    && claims[i].IsLink()
    && exists j :: 0 <= j < |claims| && j != i && claims[j].IsLink() && claims[j].target == claims[i].target
  }

  ghost function SharedBelow(claims: seq<Claim>, limit: nat): set<nat> {
    set i | 0 <= i < |claims| && Shared(claims, i) && claims[i].target.value < limit
  }

  ghost function SharedClaims(claims: seq<Claim>): set<nat> {
    set i | 0 <= i < |claims| && Shared(claims, i)
  }

  lemma DemotedSharedIsSingleOwner(claims: seq<Claim>, reason: StopReason)
    ensures SingleOwner(Demote(claims, SharedClaims(claims), reason))
  {
    var after := Demote(claims, SharedClaims(claims), reason);
    forall i, j | 0 <= i < j < |after| && after[i].IsLink() && after[j].IsLink()
      ensures after[i].target != after[j].target
    {
      assert !Shared(claims, i);
    }
  }

  /** Every group of several links to one target has more than one position, and no other. */
  lemma GroupIsShared(claims: seq<Claim>, target: nat)
    ensures var group := LinksTo(claims, target, |claims|);
      && (|group| >= 2 ==> forall i :: i in group <==> 0 <= i < |claims| && Shared(claims, i) && claims[i].target.value == target)
      && (|group| < 2 ==> forall i :: 0 <= i < |claims| && claims[i].IsLink() && claims[i].target.value == target ==> !Shared(claims, i))
  {
    var group := LinksTo(claims, target, |claims|);
    LinksToMeaning(claims, target, |claims|);
    if |group| >= 2 {
      forall i | i in group
        ensures Shared(claims, i)
      {
        var k :| 0 <= k < |group| && group[k] == i;
        var other := group[if k == 0 then 1 else 0];
        assert other != i && claims[other].IsLink() && claims[other].target == claims[i].target;
      }
    }
  }

  /** A group that the bounded demotion may be asked to demote. */
  ghost predicate Demotable(claims: seq<Claim>, group: seq<nat>) {
    && (forall k :: 0 <= k < |group| ==> group[k] < |claims| && claims[group[k]].state.Validated? && claims[group[k]].stop.None?)
    && (forall a, b :: 0 <= a < b < |group| ==> group[a] != group[b])
  }

  ghost function Members(group: seq<nat>): set<nat> {
    set k | 0 <= k < |group| :: group[k]
  }

  /** One target of the duplicate sweep: its group joins the demoted claims when it has
      several members, and until then none of its members has been touched. */
  lemma SharedStep(claims: seq<Claim>, target: nat, group: seq<nat>)
    requires CleanLinks(claims)
    requires group == LinksTo(claims, target, |claims|)
    ensures Demotable(claims, group)
    ensures |group| >= 2 ==>
      && SharedBelow(claims, target + 1) == SharedBelow(claims, target) + Members(group)
      && Members(group) !! SharedBelow(claims, target)
    ensures |group| < 2 ==> SharedBelow(claims, target + 1) == SharedBelow(claims, target)
  {
    LinksToMeaning(claims, target, |claims|);
    GroupIsShared(claims, target);
    MembersMeaning(group);
    hide LinksTo, Shared, Members;
  }

  lemma MembersMeaning(group: seq<nat>)
    ensures forall i :: i in Members(group) <==> i in group
  {
    forall i | i in group
      ensures i in Members(group)
    {
      var k :| 0 <= k < |group| && group[k] == i;
    }
  }

  lemma RestoreStep(group: seq<nat>, k: nat, changed: nat, before: seq<Claim>, demoted: set<nat>, reason: StopReason)
    requires k < changed <= |group|
    requires Demotable(before, group) && Members(group) !! demoted
    ensures group[k] < |before|
    ensures Demote(before, demoted + Members(group[k..changed]), reason)[group[k] := before[group[k]].(state := Validated, stop := None)]
         == Demote(before, demoted + Members(group[k + 1..changed]), reason)
  {
    var now, next := group[k..changed], group[k + 1..changed];
    assert group[k] in Members(group);
    assert now == [group[k]] + next;
    forall i
      ensures i in Members(now) <==> i == group[k] || i in Members(next)
    {
      if i in Members(next) {
        var m :| 0 <= m < |next| && next[m] == i;
        assert now[m + 1] == i;
      }
      if i in Members(now) && i != group[k] {
        var m :| 0 <= m < |now| && now[m] == i;
        assert next[m - 1] == i;
      }
      assert now[0] == group[k];
    }
    assert group[k] !in Members(next);
  }

  ghost predicate CleanLinks(claims: seq<Claim>) {
    forall i :: 0 <= i < |claims| && claims[i].state.Validated? ==> claims[i].stop.None?
  }

  /** What identifies each claim, with its verdict blanked out. */
  function Identities(claims: seq<Claim>): (r: seq<Claim>)
    ensures |r| == |claims|
  {
    seq(|claims|, i requires 0 <= i < |claims| => claims[i].(state := Unresolved, stop := None))
  }

  /** The verdicts may change, and nothing that identifies a claim. */
  ghost predicate SameClaims(before: seq<Claim>, after: seq<Claim>) {
    Identities(before) == Identities(after)
  }

  lemma SameClaimsMeaning(before: seq<Claim>, after: seq<Claim>)
    requires SameClaims(before, after)
    ensures |before| == |after|
    ensures forall i :: 0 <= i < |after| ==>
      after[i].id == before[i].id && after[i].kind == before[i].kind
      && after[i].source == before[i].source && after[i].target == before[i].target
  {
    forall i | 0 <= i < |after|
      ensures after[i].id == before[i].id && after[i].kind == before[i].kind
      ensures after[i].source == before[i].source && after[i].target == before[i].target
    {
      assert Identities(after)[i] == Identities(before)[i];
    }
  }

  class ClaimTable {
    var claims: seq<Claim>
    const control: WorkControl

    constructor (control: WorkControl)
      ensures this.control == control && claims == []
    {
      this.control := control;
      claims := [];
    }

    /** Appends a claim; a failed write drops it. */
    method Push(c: Claim)
      modifies this`claims, control`failed
      ensures old(control.failed) ==> control.failed
      ensures claims == if control.failed then old(claims) else old(claims) + [c]
    {
      var written := control.Access();
      if written {
        claims := claims + [c];
      }
    }

    /** Edits one claim in place. The read may fail, and so may the write when the edited
        record is put back; then the stored claim keeps its old value. */
    method SetState(i: nat, state: RelationshipState, stop: Option<StopReason>) returns (read: bool)
      requires i < |claims|
      modifies this`claims, control`failed
      ensures old(control.failed) ==> control.failed
      ensures !read ==> control.failed
      ensures SameClaims(old(claims), claims) && |claims| == |old(claims)|
      ensures claims == old(claims)[i := old(claims)[i].(state := state, stop := stop)]
           || (control.failed && claims == old(claims))
    {
      read := control.Access();
      if read {
        var written := control.Access();
        if written {
          claims := claims[i := claims[i].(state := state, stop := stop)];
          assert Identities(claims) == Identities(old(claims));
        }
      }
    }

    /** Maps each target to the positions of the links that enter it. */
    method IndexLinks() returns (incoming: map<nat, seq<nat>>, complete: bool)
      modifies control`stop, control`failed
      ensures control.Later()
      ensures !complete ==> control.stop
      ensures complete && !control.failed ==> incoming == TargetIndex(claims, |claims|)
    {
      incoming, complete := map[], false;
      var i := 0;
      while i < |claims|
        invariant 0 <= i <= |claims|
        invariant control.Later()
        invariant !control.failed ==> incoming == TargetIndex(claims, i)
      {
        var ok := control.Access();
        if !ok {
          break;
        }
        var stopped := control.Stopped();
        if stopped {
          return;
        }
        if claims[i].IsLink() {
          var target := claims[i].target.value;
          var admitted := control.ReserveMemory();
          if control.stop {
            return;
          }
          incoming := incoming[target := (if target in incoming then incoming[target] else []) + [i]];
        }
        i := i + 1;
      }
      complete := true;
    }

    /** Demotes a whole group, or nothing: a stop in the middle restores every claim. The
        claims in `demoted` were demoted for the same reason before. */
    method ConflictingClaims(group: seq<nat>, reason: StopReason, ghost before: seq<Claim>, ghost demoted: set<nat>)
      returns (done: bool)
      requires !control.failed ==>
        claims == Demote(before, demoted, reason) && Demotable(before, group) && Members(group) !! demoted
      requires forall k :: 0 <= k < |group| ==> group[k] < |claims|
      modifies this`claims, control`stop, control`failed
      ensures control.Later()
      ensures SameClaims(old(claims), claims) && |claims| == |old(claims)|
      ensures !done ==> control.stop || control.failed
      ensures !control.failed ==>
        claims == Demote(before, if done then demoted + Members(group) else demoted, reason)
    {
      done := false;
      var granted := control.ReserveMemory();
      if !granted {
        return;
      }
      var k := 0;
      while k < |group|
        invariant control.Later()
        invariant 0 <= k <= |group|
        invariant claims == old(claims)
      {
        var stopped := control.Stopped();
        if stopped {
          return;
        }
        var ok := control.Access();
        if !ok {
          return;
        }
        k := k + 1;
      }
      k := 0;
      while k < |group|
        invariant control.Later()
        invariant 0 <= k <= |group|
        invariant SameClaims(old(claims), claims) && |claims| == |old(claims)|
        invariant !control.failed ==> claims == Demote(before, demoted + Members(group[..k]), reason)
      {
        var stopped := control.Stopped();
        if stopped {
          Restore(group, k, reason, before, demoted);
          return;
        }
        var read := SetState(group[k], Conflicting, Some(reason));
        if !read {
          return;
        }
        assert Members(group[..k + 1]) == Members(group[..k]) + {group[k]} by {
          assert forall m :: 0 <= m < k ==> group[..k + 1][m] == group[..k][m];
        }
        k := k + 1;
      }
      assert group[..k] == group;
      done := true;
    }

    /** The rollback of `ConflictingClaims` over the first `changed` members of the group. */
    method Restore(group: seq<nat>, changed: nat, reason: StopReason, ghost before: seq<Claim>, ghost demoted: set<nat>)
      requires changed <= |group|
      requires forall k :: 0 <= k < |group| ==> group[k] < |claims|
      requires !control.failed ==> Demotable(before, group) && Members(group) !! demoted
      requires !control.failed ==> claims == Demote(before, demoted + Members(group[..changed]), reason)
      modifies this`claims, control`failed
      ensures old(control.failed) ==> control.failed
      ensures SameClaims(old(claims), claims) && |claims| == |old(claims)|
      ensures !control.failed ==> claims == Demote(before, demoted, reason)
    {
      var k := 0;
      while k < changed
        invariant 0 <= k <= changed
        invariant old(control.failed) ==> control.failed
        invariant SameClaims(old(claims), claims) && |claims| == |old(claims)|
        invariant !control.failed ==> claims == Demote(before, demoted + Members(group[k..changed]), reason)
      {
        var read := SetState(group[k], Validated, None);
        if !read {
          return;
        }
        if !control.failed {
          RestoreStep(group, k, changed, before, demoted, reason);
        }
        k := k + 1;
      }
    }

    /** Withdraws every validated claim of one kind. */
    method Downgrade(kind: RelationshipKind)
      modifies this`claims, control`failed
      ensures old(control.failed) ==> control.failed
      ensures SameClaims(old(claims), claims) && |claims| == |old(claims)|
      ensures !control.failed ==> forall i :: 0 <= i < |claims| ==>
        claims[i] == if old(claims)[i].kind == kind && old(claims)[i].state.Validated?
                     then old(claims)[i].(state := Unresolved, stop := None)
                     else old(claims)[i]
    {
      var i := 0;
      while i < |claims|
        invariant 0 <= i <= |claims|
        invariant SameClaims(old(claims), claims) && |claims| == |old(claims)|
        invariant old(control.failed) ==> control.failed
        invariant !control.failed ==> forall k :: 0 <= k < i ==>
          claims[k] == if old(claims)[k].kind == kind && old(claims)[k].state.Validated?
                       then old(claims)[k].(state := Unresolved, stop := None)
                       else old(claims)[k]
        invariant !control.failed ==> forall k :: i <= k < |claims| ==> claims[k] == old(claims)[k]
      {
        var c := claims[i];
        if c.kind == kind && c.state.Validated? {
          var read := SetState(i, Unresolved, None);
          if !read {
            return;
          }
        } else {
          var ok := control.Access();
          if !ok {
            return;
          }
        }
        i := i + 1;
      }
    }
  }
}
