/** Evidence that rests on the role of its source page: when the source turns out to be
    something else, the evidence is taken back, which may change the role of its own page,
    and so on until nothing more falls. */
module RolePropagation {
  import opened Wrappers
  import opened Control
  import opened Roles
  import G = ClaimGraph
  import Tables = ClaimTables

  datatype Requirement = Header | BtreePage | OverflowPage | TrunkPage {
    predicate Accepts(role: PageRole) {
      match this
      case Header => true
      case BtreePage => role.Btree? || role.SomeBtree()
      case OverflowPage => role.Overflow?
      case TrunkPage => role.FreelistTrunk?
    }
  }

  datatype Dependent = Relationship(index: nat) | MapEntry(map_: nat, entry: nat)

  datatype Dependency = Dependency(slot: (nat, nat), evidence: Dependent, requirement: Requirement)

  type Outgoing = map<nat, seq<Dependency>>

  /** The role claims of every page, the relationship claims, the pointer-map entries, and the
      support counters. */
  datatype State = State(
    roles: seq<seq<RoleClaim>>,
    claims: seq<G.Claim>,
    entries: seq<seq<G.RelationshipState>>,
    support: seq<Support>)

  predicate HasSlot(s: State, d: Dependency) {
    d.slot.0 < |s.roles| == |s.support| && d.slot.1 < |s.roles[d.slot.0]|
  }

  function Slot(s: State, d: Dependency): RoleClaim
    requires HasSlot(s, d)
  {
    s.roles[d.slot.0][d.slot.1]
  }

  /** A dependency and the role claim it rests on say the same. */
  ghost predicate Faithful(s: State, slots: map<G.ClaimId, (nat, nat)>, d: Dependency) {
    && HasSlot(s, d)
    && match d.evidence
       case Relationship(i) =>
         && i < |s.claims| && Slot(s, d).source == FromClaim(s.claims[i].id)
         && s.claims[i].id in slots && slots[s.claims[i].id] == d.slot
         && Slot(s, d).state == s.claims[i].state && Slot(s, d).stop == s.claims[i].stop
       case MapEntry(m, e) =>
         && m < |s.entries| && e < |s.entries[m]| && Slot(s, d).source.FromMap?
  }

  ghost predicate Counted(s: State) {
    |s.roles| == |s.support| && forall p :: 0 <= p < |s.roles| ==> Recounts(s.support[p], s.roles[p]) && Claimed(s.roles[p])
  }

  ghost predicate AllFaithful(s: State, slots: map<G.ClaimId, (nat, nat)>, outgoing: Outgoing) {
    forall source, k {:trigger outgoing[source][k]} :: source in outgoing && 0 <= k < |outgoing[source]| ==> Faithful(s, slots, outgoing[source][k])
  }

  /** The physical role of a page; pages outside the inventory have none. */
  function PhysicalAt(s: State, page: nat): PageRole {
    if 1 <= page <= |s.support| then s.support[page - 1].Physical() else Unknown
  }

  /** The dependency is met by the role, or its evidence no longer counts. */
  predicate Met(s: State, d: Dependency, role: PageRole) {
    HasSlot(s, d) && (d.requirement.Accepts(role) || !Slot(s, d).Credible())
  }

  ghost predicate ClosedAt(s: State, outgoing: Outgoing, source: nat)
    requires source in outgoing
  {
    forall k :: 0 <= k < |outgoing[source]| ==> Met(s, outgoing[source][k], PhysicalAt(s, source))
  }

  // ---------------------------------------------------------------- taking evidence back

  function Withdrawn(c: RoleClaim): RoleClaim {
    c.(state := G.Unresolved, stop := Some(G.ConflictingClaim))
  }

  predicate Revocable(s: State, d: Dependency) {
    && HasSlot(s, d) && Slot(s, d).Credible()
    && s.support[d.slot.0].Count(Slot(s, d).role) > 0 && (Slot(s, d).Disputed() ==> s.support[d.slot.0].conflicts > 0)
    && match d.evidence
       case Relationship(i) => i < |s.claims|
       case MapEntry(m, e) => m < |s.entries| && e < |s.entries[m]|
  }

  function Revoke(s: State, d: Dependency): State
    requires Revocable(s, d)
  {
    var (p, i) := d.slot;
    var t := s.(roles := s.roles[p := s.roles[p][i := Withdrawn(s.roles[p][i])]], support := s.support[p := s.support[p].Remove(s.roles[p][i])]);
    match d.evidence
    case Relationship(c) => t.(claims := s.claims[c := s.claims[c].(state := G.Unresolved, stop := Some(G.ConflictingClaim))])
    case MapEntry(m, e) => t.(entries := s.entries[m := s.entries[m][e := G.Unresolved]])
  }

  lemma RevokeCounted(s: State, slots: map<G.ClaimId, (nat, nat)>, d: Dependency)
    requires Counted(s) && Faithful(s, slots, d) && Slot(s, d).Credible()
    ensures Revocable(s, d) && Counted(Revoke(s, d))
  {
    var (p, i) := d.slot;
    RemoveRecounts(s.support[p], s.roles[p], i, Withdrawn(s.roles[p][i]));
  }

  lemma RevokeFaithful(s: State, slots: map<G.ClaimId, (nat, nat)>, d: Dependency, other: Dependency)
    requires Faithful(s, slots, d) && Revocable(s, d) && G.UniqueNames(s.claims) && Faithful(s, slots, other)
    ensures Faithful(Revoke(s, d), slots, other)
  {
  }

  /** Taking evidence back never unsettles what is already met, except on the page whose own
      role it changes. */
  lemma RevokeMet(s: State, d: Dependency, other: Dependency, role: PageRole)
    requires Revocable(s, d) && Met(s, other, role)
    ensures Met(Revoke(s, d), other, role)
    ensures !Slot(Revoke(s, d), d).Credible()
  {
  }

  /** Evidence that still counts, over all pages. */
  function CredibleTotal(roles: seq<seq<RoleClaim>>): nat {
    if roles == [] then 0 else CredibleTotal(roles[..|roles| - 1]) + |CredibleRoles(roles[|roles| - 1])|
  }

  lemma {:induction false} CredibleUpdated(claims: seq<RoleClaim>, i: nat, c: RoleClaim)
    requires i < |claims| && claims[i].Credible() && !c.Credible()
    ensures |CredibleRoles(claims[i := c])| + 1 == |CredibleRoles(claims)|
  {
    var last := |claims| - 1;
    if i < last {
      CredibleUpdated(claims[..last], i, c);
      assert claims[i := c][..last] == claims[..last][i := c];
    } else {
      assert claims[i := c][..last] == claims[..last];
    }
  }

  lemma {:induction false} TotalUpdated(roles: seq<seq<RoleClaim>>, p: nat, claims: seq<RoleClaim>)
    requires p < |roles|
    ensures CredibleTotal(roles[p := claims]) + |CredibleRoles(roles[p])| == CredibleTotal(roles) + |CredibleRoles(claims)|
  {
    var last := |roles| - 1;
    if p < last {
      TotalUpdated(roles[..last], p, claims);
      assert roles[p := claims][..last] == roles[..last][p := claims];
    } else {
      assert roles[p := claims][..last] == roles[..last];
    }
  }

  lemma RevokeCounts(s: State, d: Dependency)
    requires Revocable(s, d)
    ensures CredibleTotal(Revoke(s, d).roles) + 1 == CredibleTotal(s.roles)
  {
    var (p, i) := d.slot;
    CredibleUpdated(s.roles[p], i, Withdrawn(s.roles[p][i]));
    TotalUpdated(s.roles, p, s.roles[p][i := Withdrawn(s.roles[p][i])]);
  }

  /** Claims keep what they say; their verdicts may be taken back. */
  ghost predicate Weakened(before: seq<G.Claim>, after: seq<G.Claim>) {
    |after| == |before| && forall i :: 0 <= i < |after| ==> WeakenedClaim(before[i], after[i])
  }

  ghost predicate WeakenedClaim(before: G.Claim, after: G.Claim) {
    after == before || (after == before.(state := after.state, stop := after.stop) && !after.state.Validated?)
  }

  lemma WeakenedTwice(a: seq<G.Claim>, b: seq<G.Claim>, c: seq<G.Claim>)
    requires Weakened(a, b) && Weakened(b, c)
    ensures Weakened(a, c)
  {
    forall i | 0 <= i < |c|
      ensures WeakenedClaim(a[i], c[i])
    {
      assert WeakenedClaim(a[i], b[i]) && WeakenedClaim(b[i], c[i]);
    }
  }

  /** Map entries keep what they say; their verdicts may be taken back. */
  ghost predicate EntriesWeakened(before: seq<seq<G.RelationshipState>>, after: seq<seq<G.RelationshipState>>) {
    |after| == |before| && forall m :: 0 <= m < |after| ==> StatesWeakened(before[m], after[m])
  }

  ghost predicate StatesWeakened(before: seq<G.RelationshipState>, after: seq<G.RelationshipState>) {
    |after| == |before| && forall e :: 0 <= e < |after| ==> after[e] == before[e] || after[e].Unresolved?
  }

  /** Nothing but verdicts was taken back. */
  ghost predicate Fallen(before: State, after: State) {
    && Weakened(before.claims, after.claims) && EntriesWeakened(before.entries, after.entries)
    && |after.roles| == |before.roles| && |after.support| == |before.support|
  }

  lemma FallenTwice(a: State, b: State, c: State)
    requires Fallen(a, b) && Fallen(b, c)
    ensures Fallen(a, c)
  {
    WeakenedTwice(a.claims, b.claims, c.claims);
    forall m | 0 <= m < |c.entries|
      ensures StatesWeakened(a.entries[m], c.entries[m])
    {
      assert StatesWeakened(a.entries[m], b.entries[m]) && StatesWeakened(b.entries[m], c.entries[m]);
    }
  }

  lemma FallenItself(s: State)
    ensures Fallen(s, s)
  {
  }

  lemma RevokeFalls(s: State, d: Dependency)
    requires Revocable(s, d)
    ensures Fallen(s, Revoke(s, d))
  {
  }

  // ---------------------------------------------------------------- the worklist

  ghost predicate QueueHolds(queue: seq<nat>, front: nat, queued: set<nat>) {
    front <= |queue| && forall source :: source in queued ==> source in queue[front..]
  }

  lemma NothingQueued()
    ensures QueueHolds([], 0, {})
  {
  }

  /** Every source has either been settled or still waits in the queue. */
  ghost predicate Settled(s: State, outgoing: Outgoing, queued: set<nat>, except: set<nat>) {
    forall source {:trigger ClosedAt(s, outgoing, source)} ::
      source in outgoing && source !in queued && source !in except ==> ClosedAt(s, outgoing, source)
  }

  /** The source being looked at waits again if its role changed meanwhile; otherwise its first
      `k` dependencies are met. */
  ghost predicate Current(s: State, outgoing: Outgoing, queued: set<nat>, source: nat, role: PageRole, k: nat)
    requires source in outgoing
  {
    k <= |outgoing[source]| &&
    (source in queued || (PhysicalAt(s, source) == role && forall j :: 0 <= j < k ==> Met(s, outgoing[source][j], role)))
  }

  lemma NothingLookedAt(s: State, outgoing: Outgoing, queued: set<nat>, source: nat)
    requires source in outgoing
    ensures Current(s, outgoing, queued, source, PhysicalAt(s, source), 0)
  {
  }

  lemma OneMoreMet(s: State, outgoing: Outgoing, queued: set<nat>, source: nat, role: PageRole, k: nat)
    requires source in outgoing && Current(s, outgoing, queued, source, role, k) && k < |outgoing[source]|
    requires Met(s, outgoing[source][k], role)
    ensures Current(s, outgoing, queued, source, role, k + 1)
  {
  }

  /** One revocation: the page whose role it changes is queued again. */
  lemma RevokeSettled(s: State, outgoing: Outgoing, queued: set<nat>, source: nat, role: PageRole, k: nat, d: Dependency, after: set<nat>)
    requires source in outgoing && Settled(s, outgoing, queued, {source}) && Current(s, outgoing, queued, source, role, k)
    requires k < |outgoing[source]| && outgoing[source][k] == d && Revocable(s, d)
    requires var page, t := d.slot.0 + 1, Revoke(s, d);
      after == if PhysicalAt(s, page) != PhysicalAt(t, page) && page in outgoing then queued + {page} else queued
    ensures Settled(Revoke(s, d), outgoing, after, {source}) && Current(Revoke(s, d), outgoing, after, source, role, k + 1)
  {
    hide Revoke, Revocable, PhysicalAt, Met, HasSlot;
    var t, page := Revoke(s, d), d.slot.0 + 1;
    RevokePhysical(s, d);
    forall other | other in outgoing && other !in after && other != source
      ensures ClosedAt(t, outgoing, other)
    {
      assert ClosedAt(s, outgoing, other);
      assert PhysicalAt(t, other) == PhysicalAt(s, other);
      forall j | 0 <= j < |outgoing[other]|
        ensures Met(t, outgoing[other][j], PhysicalAt(t, other))
      {
        RevokeMet(s, d, outgoing[other][j], PhysicalAt(s, other));
      }
    }
    if source !in after {
      forall j | 0 <= j < k + 1
        ensures Met(t, outgoing[source][j], role)
      {
        if j < k {
          RevokeMet(s, d, outgoing[source][j], role);
        } else {
          RevokedIsMet(s, d, role);
        }
      }
    }
  }

  /** Only the page that loses the evidence can change its role. */
  lemma RevokePhysical(s: State, d: Dependency)
    requires Revocable(s, d)
    ensures forall page :: page != d.slot.0 + 1 ==> PhysicalAt(Revoke(s, d), page) == PhysicalAt(s, page)
  {
  }

  lemma RevokedIsMet(s: State, d: Dependency, role: PageRole)
    requires Revocable(s, d)
    ensures Met(Revoke(s, d), d, role)
  {
  }

  lemma LastSettled(s: State, outgoing: Outgoing, queued: set<nat>, source: nat, role: PageRole)
    requires source in outgoing && Settled(s, outgoing, queued, {source})
    requires Current(s, outgoing, queued, source, role, |outgoing[source]|)
    ensures Settled(s, outgoing, queued, {})
  {
    assert source !in queued ==> ClosedAt(s, outgoing, source);
  }

  /** What a completed propagation promises: the counters agree with the evidence, and every
      piece of evidence that still counts has a source whose role accepts it. */
  ghost predicate Closed(s: State, slots: map<G.ClaimId, (nat, nat)>, outgoing: Outgoing) {
    && Counted(s) && AllFaithful(s, slots, outgoing)
    && forall source {:trigger ClosedAt(s, outgoing, source)} :: source in outgoing ==> ClosedAt(s, outgoing, source)
  }

  predicate Smallest(keys: set<nat>, key: nat) {
    key in keys && forall other :: other in keys ==> key <= other
  }

  lemma {:induction false} SmallestExists(keys: set<nat>) returns (key: nat)
    requires keys != {}
    ensures Smallest(keys, key)
    decreases |keys|
  {
    key :| key in keys;
    var rest := keys - {key};
    assert keys == rest + {key};
    if rest != {} {
      var least := SmallestExists(rest);
      key := if key < least then key else least;
    }
  }

  lemma NothingSupported(roles: seq<PageRole>)
    ensures Supported(Support(map[], 0), roles) == []
  {
  }

  lemma NoSupport()
    ensures Recounts(Support(map[], 0), []) && Claimed([]) && Support(map[], 0).Physical() == Unknown
  {
    NothingSupported(CLAIM_ROLES);
  }

  lemma OneSupport(c: RoleClaim)
    requires c.role.Claimable()
    ensures Recounts(Support(map[], 0).Add(c), [c]) && Claimed([c])
  {
    NoSupport();
    AddRecounts(Support(map[], 0), [], c);
    assert [] + [c] == [c];
  }

  /** Where an unread list leaves the propagation open: page 1 shows nothing, and page 2 is a
      B-tree page because a validated claim on page 1 says so. Page 1 is the only source; when
      its list is skipped, the evidence on page 2 still counts although no B-tree role of
      page 1 backs it. */
  lemma SkippedSourceStaysOpen() returns (s: State, slots: map<G.ClaimId, (nat, nat)>, outgoing: Outgoing)
    ensures Counted(s) && AllFaithful(s, slots, outgoing) && G.UniqueNames(s.claims) && outgoing.Keys == {1}
    ensures Settled(s, outgoing, {}, {1}) && !Closed(s, slots, outgoing)
    ensures |outgoing[1]| == 1 && Slot(s, outgoing[1][0]).Credible() && !outgoing[1][0].requirement.Accepts(PhysicalAt(s, 1))
  {
    hide Recounts, Claimed, MergeAll;
    var id := G.BtreeRightmostId(1);
    var c := RoleClaim(Btree, FromClaim(id), G.Validated, None);
    var empty := Support(map[], 0);
    NoSupport();
    OneSupport(c);
    var d := Dependency((1, 0), Relationship(0), BtreePage);
    s := State([[], [c]], [G.Claim(id, G.BtreeChild, G.Page(1), Some(2), G.Validated, None)], [], [empty, empty.Add(c)]);
    slots := map[id := (1, 0)];
    outgoing := map[1 := [d]];
    assert s.support[0] == empty && s.roles[1][0] == c && outgoing[1][0] == d;
    assert PhysicalAt(s, 1) == Unknown && Slot(s, d) == c;
    assert !Met(s, outgoing[1][0], PhysicalAt(s, 1));
    assert !ClosedAt(s, outgoing, 1);
  }

  class Dependencies {
    const control: WorkControl
    const outgoing: Outgoing
    /** The slot that each relationship claim was given when the evidence was collected. */
    ghost const slots: map<G.ClaimId, (nat, nat)>
    var roles: seq<seq<RoleClaim>>
    var claims: seq<G.Claim>
    var entries: seq<seq<G.RelationshipState>>
    var support: seq<Support>
    var queue: seq<nat>
    var queued: set<nat>

    constructor (s: State, outgoing: Outgoing, ghost slots: map<G.ClaimId, (nat, nat)>, control: WorkControl)
      ensures Now() == s && this.outgoing == outgoing && this.slots == slots && this.control == control
      ensures queue == [] && queued == {}
    {
      roles, claims, entries, support := s.roles, s.claims, s.entries, s.support;
      this.outgoing, this.slots, this.control := outgoing, slots, control;
      queue, queued := [], {};
    }

    function Now(): State
      reads this
    {
      State(roles, claims, entries, support)
    }

    ghost predicate Sound()
      reads this
    {
      Counted(Now()) && AllFaithful(Now(), slots, outgoing) && G.UniqueNames(claims)
    }

    /** Takes back one piece of evidence and queues its page if the page's role changed. */
    method Withdraw(source: nat, k: nat, ghost role: PageRole, front: nat)
      requires Sound() && QueueHolds(queue, front, queued)
      requires source in outgoing && k < |outgoing[source]|
      requires Settled(Now(), outgoing, queued, {source}) && Current(Now(), outgoing, queued, source, role, k)
      requires Slot(Now(), outgoing[source][k]).Credible()
      modifies this`roles, this`claims, this`entries, this`support, this`queue, this`queued
      ensures Sound() && QueueHolds(queue, front, queued)
      ensures Settled(Now(), outgoing, queued, {source}) && Current(Now(), outgoing, queued, source, role, k + 1)
      ensures CredibleTotal(roles) < CredibleTotal(old(roles))
      ensures Fallen(old(Now()), Now())
    {
      var d := outgoing[source][k];
      ghost var before := Now();
      RevokeCounted(before, slots, d);
      RevokeCounts(before, d);
      RevokeFalls(before, d);
      var after := Revoke(Now(), d);
      var page := d.slot.0 + 1;
      var changed := PhysicalAt(Now(), page) != PhysicalAt(after, page);
      ghost var more := if changed && page in outgoing then queued + {page} else queued;
      RevokeSettled(before, outgoing, queued, source, role, k, d, more);
      RevokeSound(before, slots, outgoing, d);
      roles, claims, entries, support := after.roles, after.claims, after.entries, after.support;
      assert Now() == after;
      if changed && page in outgoing && page !in queued {
        Enqueue(page, front);
      }
      assert queued == more;
    }

    /** Looks at every piece of evidence that rests on `source`. When the list of that evidence
        cannot be read, because the memory for it is refused or the store has failed, nothing
        on it is looked at and the walk goes on. */
    method Process(source: nat, front: nat) returns (go: bool, ghost skipped: bool)
      requires source in outgoing && source !in queued
      requires !control.failed ==> Sound() && Settled(Now(), outgoing, queued, {source})
      requires QueueHolds(queue, front, queued)
      modifies this`roles, this`claims, this`entries, this`support, this`queue, this`queued, control`stop, control`failed
      ensures old(control.failed) ==> control.failed
      ensures old(control.stop) ==> control.stop
      ensures !go || skipped ==> control.stop || control.failed
      ensures QueueHolds(queue, front, queued)
      ensures !control.failed ==> Sound() && (go ==> Settled(Now(), outgoing, queued, if skipped then {source} else {}))
      ensures CredibleTotal(roles) < CredibleTotal(old(roles)) || (Now() == old(Now()) && queue == old(queue))
      ensures ClosedAt(old(Now()), outgoing, source) ==> Now() == old(Now())
      ensures Fallen(old(Now()), Now())
    {
      hide Counted, AllFaithful, G.UniqueNames, CredibleTotal, Fallen, Settled, Current, QueueHolds, PhysicalAt, Faithful;
      FallenItself(Now());
      var role := PhysicalAt(Now(), source);
      NothingLookedAt(Now(), outgoing, queued, source);
      skipped := false;
      var granted := control.ReserveMemory();
      var found := control.Access();
      if !granted || !found {
        go, skipped := true, true;
        return;
      }
      ghost var start := Now();
      for k: nat := 0 to |outgoing[source]|
        invariant control.failed || !old(control.failed)
        invariant old(control.stop) ==> control.stop
        invariant QueueHolds(queue, front, queued)
        invariant !control.failed ==> Sound() && Settled(Now(), outgoing, queued, {source}) && Current(Now(), outgoing, queued, source, role, k)
        invariant CredibleTotal(roles) < CredibleTotal(start.roles) || (Now() == start && queue == old(queue))
        invariant ClosedAt(start, outgoing, source) ==> Now() == start
        invariant Fallen(old(Now()), Now())
      {
        ghost var before := Now();
        var admitted := control.ReserveMemory();
        var read := control.Access();
        var stopped := control.Stopped();
        if !admitted || stopped || !read {
          return false, false;
        }
        SlotExists(Now(), slots, outgoing, source, k);
        if !outgoing[source][k].requirement.Accepts(role) && Slot(Now(), outgoing[source][k]).Credible() {
          assert ClosedAt(start, outgoing, source) ==> Met(start, outgoing[source][k], role);
          Withdraw(source, k, role, front);
          FallenTwice(old(Now()), before, Now());
        } else {
          OneMoreMet(Now(), outgoing, queued, source, role, k);
        }
      }
      if !control.failed {
        LastSettled(Now(), outgoing, queued, source, role);
      }
      go := true;
    }

    /** Queues every source, in ascending order. */
    method QueueAll() returns (go: bool)
      requires queue == [] && queued == {}
      modifies this`queue, this`queued, control`stop, control`failed
      ensures old(control.failed) ==> control.failed
      ensures !go ==> control.stop || control.failed
      ensures old(control.stop) ==> control.stop
      ensures go && queue != [] ==> !old(control.stop)
      ensures QueueHolds(queue, 0, queued) && queued <= outgoing.Keys
      ensures go && !control.failed ==> queued == outgoing.Keys
    {
      hide Sound, QueueHolds;
      NothingQueued();
      var rest := outgoing.Keys;
      while rest != {}
        invariant old(control.failed) ==> control.failed
        invariant old(control.stop) ==> control.stop
        invariant queue != [] ==> !old(control.stop)
        invariant QueueHolds(queue, 0, queued) && queued <= outgoing.Keys && rest <= outgoing.Keys
        invariant !control.failed ==> queued == outgoing.Keys - rest
        decreases |rest|
      {
        var stopped := control.Stopped();
        if stopped {
          return false;
        }
        ghost var least := SmallestExists(rest);
        var source: nat :| source in rest && Smallest(rest, source);
        var written := control.Access();
        if written {
          Enqueue(source, 0);
        }
        assert outgoing.Keys - (rest - {source}) == (outgoing.Keys - rest) + {source};
        assert rest == (rest - {source}) + {source};
        rest := rest - {source};
      }
      go := true;
    }

    /** Runs until nothing waits. It always ends: each round shortens the queue, and a round
        that lengthens it took back evidence, of which there is only so much. A run that comes
        to its end has settled every source but those it could not read, and of those there is
        at most the last: a refused read raises the stop latch, which ends any later round. So
        the result is closed exactly when the evidence on the skipped source happens to be
        met, and in any case when the latch is down. */
    method Propagate() returns (complete: bool, ghost skipped: set<nat>)
      requires queue == [] && queued == {}
      requires !control.failed && !control.stop ==> Sound()
      modifies this`roles, this`claims, this`entries, this`support, this`queue, this`queued, control`stop, control`failed
      ensures old(control.failed) ==> control.failed
      ensures !complete ==> control.stop || control.failed
      ensures old(control.stop) ==> control.stop
      ensures !control.failed && !old(control.stop) ==> Sound()
      ensures complete && !control.failed && !old(control.stop) ==>
        && (skipped != {} ==> control.stop) && |skipped| <= 1
        && (Closed(Now(), slots, outgoing) <==> forall source :: source in skipped ==> source in outgoing && ClosedAt(Now(), outgoing, source))
      ensures Closed(old(Now()), slots, outgoing) ==> Now() == old(Now())
      ensures Fallen(old(Now()), Now())
    {
      FallenItself(Now());
      hide Counted, AllFaithful, G.UniqueNames, CredibleTotal, Fallen, ClosedAt;
      skipped := {};
      complete := QueueAll();
      if !complete {
        return;
      }
      var front := 0;
      while front < |queue|
        invariant old(control.failed) ==> control.failed
        invariant QueueHolds(queue, front, queued)
        invariant (old(control.stop) ==> control.stop) && (queue != [] ==> !old(control.stop))
        invariant !control.failed && !old(control.stop) ==> Sound() && Settled(Now(), outgoing, queued, skipped)
        invariant (skipped != {} ==> control.stop || control.failed) && |skipped| <= 1 && skipped <= outgoing.Keys
        invariant Closed(old(Now()), slots, outgoing) ==> Now() == old(Now())
        invariant Fallen(old(Now()), Now())
        decreases CredibleTotal(roles), |queue| - front
      {
        ghost var before := Now();
        var source := queue[front];
        assert queue[front..] == [source] + queue[front + 1..];
        front := front + 1;
        var read := control.Access();
        var stopped := control.Stopped();
        if !read || stopped {
          return false, skipped;
        }
        queued := queued - {source};
        if source in outgoing {
          ghost var missed;
          complete, missed := Process(source, front);
          FallenTwice(old(Now()), before, Now());
          if !complete {
            return;
          }
          skipped := if missed then {source} else {};
        }
      }
      complete := true;
    }

    method Enqueue(page: nat, ghost front: nat)
      requires QueueHolds(queue, front, queued)
      modifies this`queue, this`queued
      ensures QueueHolds(queue, front, queued) && queued == old(queued) + {page} && queue == old(queue) + [page]
    {
      assert (queue + [page])[front..] == queue[front..] + [page];
      queue, queued := queue + [page], queued + {page};
    }
  }

  lemma SlotExists(s: State, slots: map<G.ClaimId, (nat, nat)>, outgoing: Outgoing, source: nat, k: nat)
    requires AllFaithful(s, slots, outgoing) && source in outgoing && k < |outgoing[source]|
    ensures Faithful(s, slots, outgoing[source][k])
  {
  }

  lemma RevokeSound(s: State, slots: map<G.ClaimId, (nat, nat)>, outgoing: Outgoing, d: Dependency)
    requires AllFaithful(s, slots, outgoing) && G.UniqueNames(s.claims) && Faithful(s, slots, d) && Revocable(s, d)
    ensures AllFaithful(Revoke(s, d), slots, outgoing) && G.UniqueNames(Revoke(s, d).claims)
  {
    forall source, k | source in outgoing && 0 <= k < |outgoing[source]|
      ensures Faithful(Revoke(s, d), slots, outgoing[source][k])
    {
      RevokeFaithful(s, slots, d, outgoing[source][k]);
    }
  }
}
