/** The depth-first walk over validated child claims. It keeps no visited set: that every
    page has one parent at most is what makes it stop and visit each page once. */
module BtreeTraversal {
  import opened Wrappers
  import opened Control
  import opened ClaimGraph
  import opened ClaimTables
  import opened Inventory
  import opened BtreeClaims

  datatype Pending = Pending(page: nat, prefix: seq<nat>)

  // ---------------------------------------------------------------- adjacency

  /** The positions of the claims that start on `page`, whatever their state. */
  function ClaimsFrom(claims: seq<Claim>, page: nat, n: nat): seq<nat>
    requires n <= |claims|
  {
    if n == 0 then []
    else ClaimsFrom(claims, page, n - 1) + (if claims[n - 1].source.page == page then [n - 1] else [])
  }

  ghost predicate ListsClaimsFrom(claims: seq<Claim>, page: nat, n: nat, children: seq<nat>)
    requires n <= |claims|
  {
    && (forall k :: 0 <= k < |children| ==> children[k] < n && claims[children[k]].source.page == page)
    && (forall a, b :: 0 <= a < b < |children| ==> children[a] < children[b])
    && (forall i :: 0 <= i < n && claims[i].source.page == page ==> i in children)
  }

  lemma ListMore(claims: seq<Claim>, page: nat, n: nat, before: seq<nat>)
    requires 0 < n <= |claims| && ListsClaimsFrom(claims, page, n - 1, before)
    ensures claims[n - 1].source.page == page ==> ListsClaimsFrom(claims, page, n, before + [n - 1])
    ensures claims[n - 1].source.page != page ==> ListsClaimsFrom(claims, page, n, before)
  {
    var all := before + [n - 1];
    forall i | 0 <= i < n && claims[i].source.page == page
      ensures i in all
    {
      if i < n - 1 {
        assert i in before;
      } else {
        assert all[|before|] == i;
      }
    }
  }

  lemma {:induction false} ClaimsFromMeaning(claims: seq<Claim>, page: nat, n: nat)
    requires n <= |claims|
    ensures ListsClaimsFrom(claims, page, n, ClaimsFrom(claims, page, n))
  {
    if n > 0 {
      ClaimsFromMeaning(claims, page, n - 1);
      ListMore(claims, page, n, ClaimsFrom(claims, page, n - 1));
      hide ListsClaimsFrom;
      assert ClaimsFrom(claims, page, n - 1) + [] == ClaimsFrom(claims, page, n - 1);
    }
  }

  function Outgoing(claims: seq<Claim>, n: nat): map<nat, seq<nat>>
    requires n <= |claims|
  {
    if n == 0 then map[]
    else
      var prior := Outgoing(claims, n - 1);
      var page := claims[n - 1].source.page;
      prior[page := (if page in prior then prior[page] else []) + [n - 1]]
  }

  lemma {:induction false} OutgoingMeaning(claims: seq<Claim>, n: nat, page: nat)
    requires n <= |claims|
    ensures (if page in Outgoing(claims, n) then Outgoing(claims, n)[page] else []) == ClaimsFrom(claims, page, n)
  {
    if n > 0 {
      OutgoingMeaning(claims, n - 1, page);
    }
  }

  ghost function Entered(claims: seq<Claim>, n: nat): set<nat>
    requires n <= |claims|
  {
    set i | 0 <= i < n && claims[i].IsLink() :: claims[i].target.value
  }

  method Adjacency(claims: seq<Claim>, control: WorkControl)
    returns (incoming: set<nat>, outgoing: map<nat, seq<nat>>, complete: bool)
    modifies control`stop, control`failed
    ensures control.Later()
    ensures !complete ==> control.stop
    ensures complete && !control.failed ==>
      incoming == Entered(claims, |claims|) && outgoing == Outgoing(claims, |claims|)
  {
    incoming, outgoing, complete := {}, map[], false;
    for i: nat := 0 to |claims|
      invariant control.Later()
      invariant !control.failed ==> incoming == Entered(claims, i) && outgoing == Outgoing(claims, i)
    {
      var ok := control.Access();
      if !ok {
        break;
      }
      var stopped := control.Stopped();
      if stopped {
        return;
      }
      var admitted := control.ReserveMemory();
      if control.stop {
        return;
      }
      var page := claims[i].source.page;
      outgoing := outgoing[page := (if page in outgoing then outgoing[page] else []) + [i]];
      if claims[i].IsLink() {
        incoming := incoming + {claims[i].target.value};
      }
    }
    complete := true;
  }

  // ---------------------------------------------------------------- what the walk keeps

  function PendingLength(pending: seq<Pending>): nat {
    if pending == [] then 0 else PendingLength(pending[..|pending| - 1]) + |pending[|pending| - 1].prefix|
  }

  ghost predicate IsRoot(claims: seq<Claim>, page: nat) {
    forall i :: 0 <= i < |claims| && claims[i].IsLink() ==> claims[i].target.value != page
  }

  ghost predicate Linked(claims: seq<Claim>, source: nat, target: nat) {
    exists i :: 0 <= i < |claims| && claims[i].IsLink() && claims[i].source.page == source && claims[i].target.value == target
  }

  /** A path of validated claims that starts on a page no validated claim enters. */
  ghost predicate RootPath(claims: seq<Claim>, prefix: seq<nat>) {
    && prefix != []
    && if |prefix| == 1 then IsRoot(claims, prefix[0])
       else
         var last := |prefix| - 1;
         RootPath(claims, prefix[..last]) && Linked(claims, prefix[last - 1], prefix[last])
  }

  lemma {:induction false} RootPathMeaning(claims: seq<Claim>, prefix: seq<nat>)
    requires RootPath(claims, prefix)
    ensures IsPath(ClaimEdges(claims), prefix) && IsRoot(claims, prefix[0])
  {
    var last := |prefix| - 1;
    if last > 0 {
      RootPathMeaning(claims, prefix[..last]);
      forall k | 0 <= k < last
        ensures (prefix[k], prefix[k + 1]) in ClaimEdges(claims)
      {
        if k < last - 1 {
          assert (prefix[..last][k], prefix[..last][k + 1]) in ClaimEdges(claims);
        } else {
          var i :| 0 <= i < |claims| && claims[i].IsLink() && claims[i].source.page == prefix[k] && claims[i].target.value == prefix[k + 1];
          assert EdgeOf(claims[i]) in ClaimEdges(claims);
        }
      }
    }
  }

  ghost predicate RootTraversal(claims: seq<Claim>, roots: set<nat>, t: Traversal) {
    t.kind.BtreeTree? && RootPath(claims, t.prefix) && t.origin == Page(t.prefix[0]) && t.prefix[0] in roots
  }

  ghost predicate RootTraversals(claims: seq<Claim>, roots: set<nat>, traversals: seq<Traversal>) {
    traversals == [] ||
    (RootTraversals(claims, roots, traversals[..|traversals| - 1]) && RootTraversal(claims, roots, traversals[|traversals| - 1]))
  }

  lemma {:induction false} RootTraversalsMeaning(claims: seq<Claim>, roots: set<nat>, traversals: seq<Traversal>, k: nat)
    requires RootTraversals(claims, roots, traversals) && k < |traversals|
    ensures RootTraversal(claims, roots, traversals[k])
  {
    if k < |traversals| - 1 {
      RootTraversalsMeaning(claims, roots, traversals[..|traversals| - 1], k);
    }
  }

  lemma {:induction false} MoreRoots(claims: seq<Claim>, roots: set<nat>, traversals: seq<Traversal>, root: nat)
    requires RootTraversals(claims, roots, traversals)
    ensures RootTraversals(claims, roots + {root}, traversals)
  {
    if traversals != [] {
      MoreRoots(claims, roots, traversals[..|traversals| - 1], root);
    }
  }

  /** The pages waiting to be expanded. */
  ghost function Waiting(pending: seq<Pending>): set<nat> {
    if pending == [] then {} else Waiting(pending[..|pending| - 1]) + {pending[|pending| - 1].page}
  }

  /** Each waiting entry is a path from `origin`, is not expanded yet and waits once. */
  ghost predicate Entries(claims: seq<Claim>, origin: nat, pending: seq<Pending>, expanded: set<nat>) {
    pending == [] ||
    var rest, last := pending[..|pending| - 1], pending[|pending| - 1];
    && Entries(claims, origin, rest, expanded)
    && RootPath(claims, last.prefix)
    && last.prefix[0] == origin
    && last.page == last.prefix[|last.prefix| - 1]
    && last.page !in expanded
    && last.page !in Waiting(rest)
  }

  /** A page is reached only after its parent was expanded. */
  ghost predicate ParentsFirst(claims: seq<Claim>, pending: seq<Pending>, expanded: set<nat>) {
    forall i :: 0 <= i < |claims| && claims[i].IsLink() && claims[i].target.value in expanded + Waiting(pending)
      ==> claims[i].source.page in expanded
  }

  /** Every link out of an expanded page, except those still to be looked at, was followed. */
  ghost predicate Followed(claims: seq<Claim>, pending: seq<Pending>, expanded: set<nat>, todo: set<nat>) {
    forall i :: 0 <= i < |claims| && claims[i].IsLink() && claims[i].source.page in expanded && i !in todo
      ==> claims[i].target.value in expanded + Waiting(pending)
  }

  ghost function QueuedPages(pending: seq<Pending>): set<nat> {
    if pending == [] then {}
    else QueuedPages(pending[..|pending| - 1]) + PagesOf(pending[|pending| - 1].prefix)
  }

  /** Every expanded page shows up in a recorded or waiting prefix, or in the current one. */
  ghost predicate Covered(expanded: set<nat>, traversals: seq<Traversal>, pending: seq<Pending>, current: seq<nat>) {
    expanded <= PagesOf(current) + RecordedPages(traversals) + QueuedPages(pending)
  }

  lemma QueuePush(pending: seq<Pending>, p: Pending)
    ensures PendingLength(pending + [p]) == PendingLength(pending) + |p.prefix|
    ensures Waiting(pending + [p]) == Waiting(pending) + {p.page}
    ensures QueuedPages(pending + [p]) == QueuedPages(pending) + PagesOf(p.prefix)
  {
    assert (pending + [p])[..|pending|] == pending;
  }

  lemma {:induction false} EntriesWithout(claims: seq<Claim>, origin: nat, pending: seq<Pending>, expanded: set<nat>, page: nat)
    requires Entries(claims, origin, pending, expanded)
    requires page !in Waiting(pending)
    ensures Entries(claims, origin, pending, expanded + {page})
  {
    if pending != [] {
      EntriesWithout(claims, origin, pending[..|pending| - 1], expanded, page);
    }
  }

  /** The link targets among `children` are new to the walk. */
  ghost predicate NewChildren(claims: seq<Claim>, pending: seq<Pending>, expanded: set<nat>, children: seq<nat>) {
    forall k :: 0 <= k < |children| && children[k] < |claims| && claims[children[k]].IsLink() ==>
      claims[children[k]].target.value !in expanded + Waiting(pending)
  }

  /** Taking the last waiting page: it becomes expanded, and its children are all new. */
  lemma Expand(claims: seq<Claim>, origin: nat, pending: seq<Pending>, expanded: set<nat>, children: seq<nat>)
    requires pending != []
    requires Entries(claims, origin, pending, expanded) && ParentsFirst(claims, pending, expanded)
    requires ListsClaimsFrom(claims, pending[|pending| - 1].page, |claims|, children)
    ensures var rest, page := pending[..|pending| - 1], pending[|pending| - 1].page;
      && Entries(claims, origin, rest, expanded + {page})
      && ParentsFirst(claims, rest, expanded + {page})
      && NewChildren(claims, rest, expanded + {page}, children)
  {
    EntriesWithout(claims, origin, pending[..|pending| - 1], expanded, pending[|pending| - 1].page);
  }

  lemma ExpandCoverage(claims: seq<Claim>, pending: seq<Pending>, expanded: set<nat>, traversals: seq<Traversal>, children: seq<nat>)
    requires pending != []
    requires Followed(claims, pending, expanded, {})
    requires Covered(expanded, traversals, pending, [])
    requires ListsClaimsFrom(claims, pending[|pending| - 1].page, |claims|, children)
    requires pending[|pending| - 1].page in pending[|pending| - 1].prefix
    ensures var rest, p := pending[..|pending| - 1], pending[|pending| - 1];
      && Followed(claims, rest, expanded + {p.page}, Members(children))
      && Covered(expanded + {p.page}, traversals, rest, p.prefix)
  {
    var rest, p := pending[..|pending| - 1], pending[|pending| - 1];
    forall i | 0 <= i < |claims| && claims[i].IsLink() && claims[i].source.page in expanded + {p.page} && i !in Members(children)
      ensures claims[i].target.value in expanded + {p.page} + Waiting(rest)
    {
      assert i !in children;
    }
  }

  lemma TakeLast(claims: seq<Claim>, origin: nat, pending: seq<Pending>, expanded: set<nat>, traversals: seq<Traversal>, children: seq<nat>)
    requires pending != []
    requires Entries(claims, origin, pending, expanded) && ParentsFirst(claims, pending, expanded)
    requires var index, page := Outgoing(claims, |claims|), pending[|pending| - 1].page;
      children == if page in index then index[page] else []
    ensures var rest, p := pending[..|pending| - 1], pending[|pending| - 1];
      && RootPath(claims, p.prefix) && p.prefix[0] == origin && p.prefix[|p.prefix| - 1] == p.page && p.page !in expanded
      && Entries(claims, origin, rest, expanded + {p.page})
      && ParentsFirst(claims, rest, expanded + {p.page})
      && ListsClaimsFrom(claims, p.page, |claims|, children)
      && NewChildren(claims, rest, expanded + {p.page}, children)
      && (Followed(claims, pending, expanded, {}) && Covered(expanded, traversals, pending, []) ==>
            Followed(claims, rest, expanded + {p.page}, Members(children)) && Covered(expanded + {p.page}, traversals, rest, p.prefix))
  {
    OutgoingMeaning(claims, |claims|, pending[|pending| - 1].page);
    ClaimsFromMeaning(claims, pending[|pending| - 1].page, |claims|);
    Expand(claims, origin, pending, expanded, children);
    if Followed(claims, pending, expanded, {}) && Covered(expanded, traversals, pending, []) {
      ExpandCoverage(claims, pending, expanded, traversals, children);
    }
  }

  lemma ExtendPath(claims: seq<Claim>, prefix: seq<nat>, i: nat)
    requires RootPath(claims, prefix)
    requires i < |claims| && claims[i].IsLink() && claims[i].source.page == prefix[|prefix| - 1]
    ensures RootPath(claims, prefix + [claims[i].target.value])
  {
    assert (prefix + [claims[i].target.value])[..|prefix|] == prefix;
  }

  lemma PushChild(claims: seq<Claim>, origin: nat, pending: seq<Pending>, expanded: set<nat>, prefix: seq<nat>, i: nat)
    requires Entries(claims, origin, pending, expanded) && ParentsFirst(claims, pending, expanded) && SingleOwner(claims)
    requires RootPath(claims, prefix) && prefix[0] == origin && prefix[|prefix| - 1] in expanded
    requires i < |claims| && claims[i].IsLink() && claims[i].source.page == prefix[|prefix| - 1]
    requires claims[i].target.value !in expanded + Waiting(pending)
    ensures var next := pending + [Pending(claims[i].target.value, prefix + [claims[i].target.value])];
      Entries(claims, origin, next, expanded) && ParentsFirst(claims, next, expanded)
  {
    var p := Pending(claims[i].target.value, prefix + [claims[i].target.value]);
    ExtendPath(claims, prefix, i);
    QueuePush(pending, p);
    assert (pending + [p])[..|pending|] == pending;
  }

  lemma MembersStep(children: seq<nat>, k: nat)
    requires k < |children|
    ensures Members(children[..k + 1]) == Members(children[..k]) + {children[k]}
  {
    assert children[..k + 1] == children[..k] + [children[k]];
    assert forall m :: 0 <= m < k ==> children[..k][m] == children[..k + 1][m];
  }

  // ---------------------------------------------------------------- the walk

  class TreeWalk {
    const claims: seq<Claim>
    const outgoing: map<nat, seq<nat>>
    const maxPages: nat
    const maxTotal: nat
    const control: WorkControl
    var traversals: seq<Traversal>
    var pending: seq<Pending>
    var used: nat
    /** The pages taken from `pending` so far. */
    ghost var expanded: set<nat>
    /** The origins walked so far. */
    ghost var roots: set<nat>

    constructor (claims: seq<Claim>, outgoing: map<nat, seq<nat>>, maxPages: nat, maxTotal: nat, control: WorkControl)
      ensures this.claims == claims && this.outgoing == outgoing && this.control == control
      ensures this.maxPages == maxPages && this.maxTotal == maxTotal
      ensures traversals == [] && pending == [] && used == 0 && expanded == {} && roots == {}
    {
      this.claims, this.outgoing, this.control := claims, outgoing, control;
      this.maxPages, this.maxTotal := maxPages, maxTotal;
      traversals, pending, used, expanded, roots := [], [], 0, {}, {};
    }

    /** Every retained or waiting page identity was paid for. */
    ghost predicate Paid(current: nat)
      reads this
    {
      Retained(traversals) + PendingLength(pending) + current <= used <= maxTotal
    }

    /** Records a traversal. The private store drops it when it has failed. */
    method Record(origin: nat, prefix: seq<nat>, stop: Option<TraversalStop>)
      modifies this`traversals, control`failed
      ensures old(control.failed) ==> control.failed
      ensures !control.failed ==> traversals == old(traversals) + [Traversal(BtreeTree, Page(origin), prefix, stop)]
      ensures control.failed ==> traversals == old(traversals)
      ensures Retained(traversals) <= Retained(old(traversals)) + |prefix|
    {
      var ok := control.Access();
      var t := Traversal(BtreeTree, Page(origin), prefix, stop);
      RecordPush(traversals, t);
      if ok {
        traversals := traversals + [t];
      }
    }

    method Reserve(requested: nat) returns (granted: bool)
      modifies this`used
      ensures granted <==> old(used) + requested <= maxTotal
      ensures used == if granted then old(used) + requested else old(used)
    {
      granted := used + requested <= maxTotal;
      if granted {
        used := used + requested;
      }
    }

    /** One child claim of the page at the end of `prefix`: record why it is not followed, or
        queue its target. Returns false when the whole walk must end. */
    method WalkChild(i: nat, origin: nat, prefix: seq<nat>) returns (go: bool)
      requires i < |claims| && prefix != []
      requires !control.failed ==> Reasoned(claims)
      requires Paid(|prefix|)
      modifies this`traversals, this`pending, this`used, control
      ensures control.Later()
      ensures go ==> Paid(|prefix|)
      ensures !go ==> Paid(0) && (control.stop || control.budget || control.failed)
      ensures !control.failed ==>
        || (pending == old(pending) && traversals == old(traversals))
        || (pending == old(pending) && Recorded(old(traversals), traversals, origin, prefix))
        || (traversals == old(traversals) && Queued(claims[i], old(pending), pending, prefix))
      ensures go && Unbound() ==>
        if claims[i].IsLink()
        then traversals == old(traversals) && Queued(claims[i], old(pending), pending, prefix)
        else pending == old(pending) && Recorded(old(traversals), traversals, origin, prefix)
    {
      go := false;
      var ok := control.Access();
      if !ok {
        return;
      }
      var c := claims[i];
      var stopped := control.Stopped();
      if stopped {
        Record(origin, prefix, Some(TraversalStop(Cancelled, c.id, c.target)));
        return;
      }
      if !c.IsLink() || |prefix| >= maxPages {
        go := RecordChild(c, origin, prefix);
      } else {
        go := QueueChild(c, origin, prefix);
      }
    }

    /** A child that is not followed keeps a copy of the prefix, which must be paid for. */
    method RecordChild(c: Claim, origin: nat, prefix: seq<nat>) returns (go: bool)
      requires Paid(|prefix|)
      requires !control.failed && !c.IsLink() ==> c.stop.Some?
      modifies this`traversals, this`used, control
      ensures control.Later()
      ensures go ==> Paid(|prefix|)
      ensures !go ==> Paid(0) && control.budget
      ensures c.IsLink() ==> control.budget
      ensures !control.failed ==> Recorded(old(traversals), traversals, origin, prefix)
    {
      hide Retained, PendingLength;
      go := Reserve(|prefix|);
      if !go {
        control.MarkAggregate();
        Record(origin, prefix, Some(TraversalStop(StopReason.Budget, c.id, c.target)));
        return;
      }
      if c.IsLink() {
        control.MarkBudget();
      }
      var reason := if c.stop.Some? && !c.IsLink() then c.stop.value else StopReason.Budget;
      Record(origin, prefix, Some(TraversalStop(reason, c.id, c.target)));
    }

    method QueueChild(c: Claim, origin: nat, prefix: seq<nat>) returns (go: bool)
      requires Paid(|prefix|) && c.IsLink()
      modifies this`traversals, this`pending, this`used, control
      ensures control.Later()
      ensures go ==> Paid(|prefix|) && traversals == old(traversals) && Queued(c, old(pending), pending, prefix)
      ensures !go ==> Paid(0) && (control.stop || control.budget) && pending == old(pending)
      ensures !go && !control.failed ==> Recorded(old(traversals), traversals, origin, prefix)
    {
      hide Retained, PendingLength;
      go := Reserve(|prefix| + 1);
      if go {
        go := control.ReserveMemory();
      } else {
        control.MarkAggregate();
      }
      if go {
        Enqueue(Pending(c.target.value, prefix + [c.target.value]));
      } else {
        Record(origin, prefix, Some(TraversalStop(StopReason.Budget, c.id, c.target)));
      }
    }

    method Enqueue(next: Pending)
      modifies this`pending
      ensures pending == old(pending) + [next]
      ensures PendingLength(pending) == PendingLength(old(pending)) + |next.prefix|
    {
      QueuePush(pending, next);
      pending := pending + [next];
    }

    /** The recorded and waiting prefixes are what the walk promises of them. */
    ghost predicate Good(origin: nat)
      reads this
    {
      && origin in roots
      && RootTraversals(claims, roots, traversals)
      && Entries(claims, origin, pending, expanded)
      && ParentsFirst(claims, pending, expanded)
    }

    /** Every link out of an expanded page was followed, and every expanded page shows up. */
    ghost predicate Complete(todo: set<nat>, current: seq<nat>)
      reads this
    {
      Followed(claims, pending, expanded, todo) && Covered(expanded, traversals, pending, current)
    }

    /** Nothing so far cut the walk short. */
    ghost predicate Unbound()
      reads control
    {
      !control.failed && !control.stop && !control.budget
    }

    /** Looks at the children of the page at the end of `prefix`, last child first, so that
        the first child is taken next. */
    method WalkChildren(children: seq<nat>, origin: nat, prefix: seq<nat>) returns (go: bool)
      requires prefix != [] && children != [] && forall k :: 0 <= k < |children| ==> children[k] < |claims|
      requires Paid(|prefix|)
      requires !control.failed ==> Reasoned(claims) && SingleOwner(claims) && Good(origin)
      requires !control.failed ==>
        && RootPath(claims, prefix) && prefix[0] == origin && prefix[|prefix| - 1] in expanded
        && ListsClaimsFrom(claims, prefix[|prefix| - 1], |claims|, children)
        && NewChildren(claims, pending, expanded, children)
      requires Unbound() ==> Complete(Members(children), prefix)
      modifies this`traversals, this`pending, this`used, control
      ensures control.Later()
      ensures Paid(0)
      ensures !go ==> control.stop || control.budget || control.failed
      ensures !control.failed ==> Good(origin)
      ensures go && Unbound() ==> Complete({}, [])
    {
      var k := |children|;
      assert children[..k] == children;
      while k > 0
        invariant 0 <= k <= |children|
        invariant control.Later()
        invariant Paid(|prefix|)
        invariant !control.failed ==> Good(origin) && NewChildren(claims, pending, expanded, children[..k])
        invariant Unbound() ==> Complete(Members(children[..k]), if k == |children| then prefix else [])
      {
        k := k - 1;
        ghost var wasPending, wasTraversals := pending, traversals;
        go := WalkChild(children[k], origin, prefix);
        if !control.failed {
          ChildKeepsGood(claims, roots, wasTraversals, traversals, wasPending, pending, expanded, children, k, origin, prefix);
          if go && !control.stop && !control.budget {
            ChildKeepsCoverage(claims, wasTraversals, traversals, wasPending, pending, expanded, children, k, origin, prefix);
          }
        }
        if !go {
          return;
        }
      }
      assert Members(children[..0]) == {};
      go := true;
    }

    /** `top` was just taken from the waiting pages, and `children` are its claims. */
    ghost predicate Taken(origin: nat, top: Pending, children: seq<nat>)
      reads this
    {
      && Good(origin)
      && RootPath(claims, top.prefix) && top.prefix[0] == origin && top.prefix[|top.prefix| - 1] in expanded
      && ListsClaimsFrom(claims, top.prefix[|top.prefix| - 1], |claims|, children)
      && NewChildren(claims, pending, expanded, children)
    }

    /** Takes the last waiting page and reads the list of its claims. */
    method Take(root: nat) returns (top: Pending, children: seq<nat>)
      requires pending != [] && Paid(0)
      requires !control.failed ==> outgoing == Outgoing(claims, |claims|) && Good(root)
      requires Unbound() ==> Complete({}, [])
      modifies this`pending, this`expanded, control`failed
      ensures old(control.failed) ==> control.failed
      ensures top == old(pending[|pending| - 1]) && pending == old(pending[..|pending| - 1])
      ensures expanded == old(expanded) + {top.page}
      ensures Paid(|top.prefix|)
      ensures control.failed ==> children == []
      ensures !control.failed ==> Taken(root, top, children) && top.page !in old(expanded)
      ensures Unbound() ==> Complete(Members(children), top.prefix)
    {
      hide Entries, ParentsFirst, RootTraversals, Followed, Covered, NewChildren, ListsClaimsFrom, Outgoing, Retained, PendingLength, Waiting, QueuedPages;
      ghost var all, before := pending, expanded;
      top := pending[|pending| - 1];
      pending := pending[..|pending| - 1];
      QueuePush(pending, top);
      assert pending + [top] == all;
      expanded := expanded + {top.page};
      var ok := control.Access();
      children := if ok && top.page in outgoing then outgoing[top.page] else [];
      if ok {
        TakeLast(claims, root, all, before, traversals, children);
      }
    }

    /** Takes the last waiting page: records a leaf, or looks at its children. */
    method Step(root: nat) returns (go: bool)
      requires pending != [] && Paid(0)
      requires !control.failed ==>
        Reasoned(claims) && SingleOwner(claims) && outgoing == Outgoing(claims, |claims|) && Good(root)
      requires Unbound() ==> Complete({}, [])
      modifies this`traversals, this`pending, this`used, this`expanded, control
      ensures control.Later()
      ensures Paid(0)
      ensures !go ==> control.stop || control.budget || control.failed
      ensures !control.failed ==> Good(root)
      ensures !control.failed ==> old(pending[|pending| - 1].page) !in old(expanded)
      ensures expanded == old(expanded) + {old(pending[|pending| - 1].page)}
      ensures old(control.failed) && go ==> pending == old(pending[..|pending| - 1])
      ensures go && Unbound() ==> Complete({}, [])
    {
      hide Entries, ParentsFirst, RootTraversals, Followed, Covered, NewChildren, Outgoing, Retained, PendingLength, SingleOwner, Reasoned;
      var top, children := Take(root);
      var stopped := control.Stopped();
      if children == [] {
        if !stopped {
          RecordLeaf(root, top);
        }
        go := !stopped;
      } else if stopped {
        RecordStopped(root, top, children);
        go := false;
      } else {
        var admitted := control.ReserveMemory();
        go := true;
        if admitted {
          go := WalkChildren(children, root, top.prefix);
        }
      }
    }

    method RecordStopped(root: nat, top: Pending, children: seq<nat>)
      requires Paid(|top.prefix|) && children != []
      requires !control.failed ==> Taken(root, top, children)
      requires control.failed ==> children[0] < |claims|
      modifies this`traversals, control`failed
      ensures old(control.failed) ==> control.failed
      ensures Paid(0)
      ensures !control.failed ==> Good(root)
    {
      hide Retained, PendingLength, Entries, ParentsFirst, RootPath, RootTraversals;
      var c := claims[children[0]];
      Record(root, top.prefix, Some(TraversalStop(Cancelled, c.id, c.target)));
      if !control.failed {
        RecordedIsRooted(claims, roots, old(traversals), traversals, root, top.prefix);
      }
    }

    method RecordLeaf(root: nat, top: Pending)
      requires Paid(|top.prefix|)
      requires !control.failed ==> Taken(root, top, [])
      requires Unbound() ==> Complete(Members([]), top.prefix)
      modifies this`traversals, control`failed
      ensures old(control.failed) ==> control.failed
      ensures Paid(0)
      ensures !control.failed ==> Good(root)
      ensures Unbound() ==> Complete({}, [])
    {
      hide Retained, PendingLength, Entries, ParentsFirst, RootPath, RootTraversals, Followed;
      assert Members([]) == {};
      Record(root, top.prefix, None);
      if !control.failed {
        RecordPush(old(traversals), traversals[|old(traversals)|]);
        RecordedIsRooted(claims, roots, old(traversals), traversals, root, top.prefix);
      }
    }

    /** Between two roots nothing waits. */
    ghost predicate Settled()
      reads this
    {
      pending == [] && RootTraversals(claims, roots, traversals) && ParentsFirst(claims, pending, expanded)
    }

    /** Walks everything below one root. */
    method WalkRoot(root: nat) returns (go: bool)
      requires pending == [] && Paid(1)
      requires !control.failed ==>
        && Reasoned(claims) && SingleOwner(claims) && outgoing == Outgoing(claims, |claims|)
        && Settled() && IsRoot(claims, root) && root !in expanded
      requires Unbound() ==> Complete({}, [])
      modifies this`traversals, this`pending, this`used, this`expanded, this`roots, control
      ensures control.Later()
      ensures Paid(0) && (go ==> pending == [])
      ensures roots == old(roots) + {root}
      ensures !go ==> control.stop || control.budget || control.failed
      ensures !control.failed ==> RootTraversals(claims, roots, traversals)
      ensures !control.failed && go ==> Settled()
      ensures !control.failed ==> old(expanded) <= expanded <= old(expanded) + Reach(root)
      ensures go && Unbound() ==> Complete({}, []) && root in expanded
    {
      if !control.failed {
        MoreRoots(claims, roots, traversals, root);
        StartRoot(claims, root, expanded);
      }
      roots := roots + {root};
      Enqueue(Pending(root, [root]));
      go := Step(root);
      if go {
        go := Drain(root);
      }
    }

    /** Takes waiting pages until none is left. */
    method Drain(root: nat) returns (go: bool)
      requires Paid(0)
      requires !control.failed ==>
        Reasoned(claims) && SingleOwner(claims) && outgoing == Outgoing(claims, |claims|) && Good(root)
      requires Unbound() ==> Complete({}, [])
      modifies this`traversals, this`pending, this`used, this`expanded, control
      ensures control.Later()
      ensures Paid(0) && (go ==> pending == [])
      ensures !go ==> control.stop || control.budget || control.failed
      ensures !control.failed ==> Good(root) && old(expanded) <= expanded <= old(expanded) + Reach(root)
      ensures go && Unbound() ==> Complete({}, []) && old(expanded) <= expanded
    {
      while pending != []
        invariant control.Later()
        invariant Paid(0)
        invariant !control.failed ==> Good(root) && old(expanded) <= expanded <= old(expanded) + Reach(root)
        invariant Unbound() ==> Complete({}, [])
        decreases if control.failed then 0 else 1, if control.failed then {} else Reach(root) - expanded, |pending|
      {
        if !control.failed {
          PendingIsReachable(claims, pending, expanded, root);
        }
        ghost var left, page := Reach(root) - expanded, pending[|pending| - 1].page;
        go := Step(root);
        if !go {
          return;
        }
        assert Reach(root) - expanded == left - {page};
      }
      go := true;
    }

    /** The pages a walk from `root` can meet. */
    ghost function Reach(root: nat): set<nat> {
      Entered(claims, |claims|) + {root}
    }
  }

  ghost predicate Recorded(before: seq<Traversal>, after: seq<Traversal>, origin: nat, prefix: seq<nat>) {
    && |after| == |before| + 1
    && after == before + [after[|before|]]
    && after[|before|].kind.BtreeTree? && after[|before|].prefix == prefix && after[|before|].origin == Page(origin)
  }

  ghost predicate Queued(c: Claim, before: seq<Pending>, after: seq<Pending>, prefix: seq<nat>) {
    c.IsLink() && after == before + [Pending(c.target.value, prefix + [c.target.value])]
  }

  lemma StartRoot(claims: seq<Claim>, root: nat, expanded: set<nat>)
    requires ParentsFirst(claims, [], expanded)
    requires IsRoot(claims, root) && root !in expanded
    ensures Entries(claims, root, [Pending(root, [root])], expanded)
    ensures ParentsFirst(claims, [Pending(root, [root])], expanded)
  {
    var start := [Pending(root, [root])];
    assert start[..0] == [];
    assert Entries(claims, root, [], expanded);
    assert Waiting(start) == {root};
  }

  lemma PendingIsReachable(claims: seq<Claim>, pending: seq<Pending>, expanded: set<nat>, root: nat)
    requires pending != [] && Entries(claims, root, pending, expanded)
    ensures pending[|pending| - 1].page in Entered(claims, |claims|) + {root}
  {
  }

  lemma ChildKeepsGood(claims: seq<Claim>, roots: set<nat>, wasTraversals: seq<Traversal>, traversals: seq<Traversal>,
                       wasPending: seq<Pending>, pending: seq<Pending>, expanded: set<nat>,
                       children: seq<nat>, k: nat, origin: nat, prefix: seq<nat>)
    requires SingleOwner(claims) && k < |children|
    requires RootPath(claims, prefix) && prefix[0] == origin && prefix[|prefix| - 1] in expanded
    requires ListsClaimsFrom(claims, prefix[|prefix| - 1], |claims|, children)
    requires origin in roots && RootTraversals(claims, roots, wasTraversals)
    requires Entries(claims, origin, wasPending, expanded) && ParentsFirst(claims, wasPending, expanded)
    requires NewChildren(claims, wasPending, expanded, children[..k + 1])
    requires traversals == wasTraversals || Recorded(wasTraversals, traversals, origin, prefix)
    requires pending == wasPending || Queued(claims[children[k]], wasPending, pending, prefix)
    ensures RootTraversals(claims, roots, traversals)
    ensures Entries(claims, origin, pending, expanded) && ParentsFirst(claims, pending, expanded)
    ensures NewChildren(claims, pending, expanded, children[..k])
  {
    assert prefix != [];
    hide RootTraversals, Entries, ParentsFirst, Waiting, SingleOwner;
    assert children[k] < |claims| && claims[children[k]].source.page == prefix[|prefix| - 1];
    assert claims[children[k]].IsLink() ==> claims[children[k]].target.value !in expanded + Waiting(wasPending) by {
      assert children[..k + 1][k] == children[k];
    }
    RecordedIsRooted(claims, roots, wasTraversals, traversals, origin, prefix);
    if pending != wasPending {
      PushChild(claims, origin, wasPending, expanded, prefix, children[k]);
    }
    OtherChildrenNew(claims, wasPending, pending, expanded, children, k, prefix);
  }

  lemma RecordedIsRooted(claims: seq<Claim>, roots: set<nat>, before: seq<Traversal>, after: seq<Traversal>, origin: nat, prefix: seq<nat>)
    requires RootTraversals(claims, roots, before) && origin in roots
    requires RootPath(claims, prefix) && prefix[0] == origin
    requires after == before || Recorded(before, after, origin, prefix)
    ensures RootTraversals(claims, roots, after)
  {
    if after != before {
      assert after[..|after| - 1] == before;
    }
  }

  /** A link queued for one child is not the link of another child: the children differ and
      a page has one owner. */
  lemma OtherChildrenNew(claims: seq<Claim>, before: seq<Pending>, after: seq<Pending>, expanded: set<nat>,
                         children: seq<nat>, k: nat, prefix: seq<nat>)
    requires SingleOwner(claims) && k < |children| && prefix != []
    requires ListsClaimsFrom(claims, prefix[|prefix| - 1], |claims|, children)
    requires NewChildren(claims, before, expanded, children[..k + 1])
    requires after == before || Queued(claims[children[k]], before, after, prefix)
    ensures NewChildren(claims, after, expanded, children[..k])
  {
    hide Waiting;
    if after != before {
      var c := claims[children[k]];
      QueuePush(before, Pending(c.target.value, prefix + [c.target.value]));
    }
    forall m | 0 <= m < k && claims[children[..k][m]].IsLink()
      ensures claims[children[..k][m]].target.value !in expanded + Waiting(after)
    {
      assert children[..k + 1][m] == children[..k][m];
      assert children[m] < children[k];
    }
  }

  lemma ChildKeepsCoverage(claims: seq<Claim>, wasTraversals: seq<Traversal>, traversals: seq<Traversal>,
                           wasPending: seq<Pending>, pending: seq<Pending>, expanded: set<nat>,
                           children: seq<nat>, k: nat, origin: nat, prefix: seq<nat>)
    requires k < |children| && children[k] < |claims| && prefix != []
    requires Followed(claims, wasPending, expanded, Members(children[..k + 1]))
    requires Covered(expanded, wasTraversals, wasPending, if k + 1 == |children| then prefix else [])
    requires var c := claims[children[k]];
      if c.IsLink()
      then traversals == wasTraversals && Queued(c, wasPending, pending, prefix)
      else pending == wasPending && Recorded(wasTraversals, traversals, origin, prefix)
    ensures Followed(claims, pending, expanded, Members(children[..k]))
    ensures Covered(expanded, traversals, pending, [])
  {
    var c := claims[children[k]];
    MembersStep(children, k);
    if c.IsLink() {
      QueuePush(wasPending, Pending(c.target.value, prefix + [c.target.value]));
    } else {
      RecordPush(wasTraversals, traversals[|wasTraversals|]);
    }
  }

  // ---------------------------------------------------------------- the whole phase

  /** A page that was not reached has a parent that was not reached either. */
  lemma UnreachedParent(pageCount: nat, pages: seq<PageInfo>, claims: seq<Claim>, expanded: set<nat>, page: nat)
    returns (parent: nat)
    requires SoundLinks(pageCount, pages, claims)
    requires Followed(claims, [], expanded, {})
    requires RootsBelow(pages, claims, |pages| + 1) <= expanded
    requires HasKind(pages, page) && page !in expanded
    ensures HasKind(pages, parent) && parent !in expanded && (parent, page) in ClaimEdges(claims)
  {
    var i :| 0 <= i < |claims| && claims[i].IsLink() && claims[i].target.value == page;
    assert SoundLink(pageCount, pages, claims[i]);
    parent := claims[i].source.page;
    assert EdgeOf(claims[i]) in ClaimEdges(claims);
  }

  lemma {:induction false} UnreachedPath(pageCount: nat, pages: seq<PageInfo>, claims: seq<Claim>, expanded: set<nat>, page: nat, n: nat)
    returns (path: seq<nat>)
    requires SoundLinks(pageCount, pages, claims)
    requires Followed(claims, [], expanded, {})
    requires RootsBelow(pages, claims, |pages| + 1) <= expanded
    requires HasKind(pages, page) && page !in expanded
    ensures |path| == n + 1 && IsPath(ClaimEdges(claims), path) && path[n] == page
    ensures forall k :: 0 <= k < |path| ==> HasKind(pages, path[k])
    decreases n
  {
    if n == 0 {
      path := [page];
    } else {
      var parent := UnreachedParent(pageCount, pages, claims, expanded, page);
      var before := UnreachedPath(pageCount, pages, claims, expanded, parent, n - 1);
      path := before + [page];
      forall k | 0 <= k < |path| - 1
        ensures (path[k], path[k + 1]) in ClaimEdges(claims)
      {
        if k < n - 1 {
          assert (before[k], before[k + 1]) in ClaimEdges(claims);
        }
      }
    }
  }

  /** With every root walked and every link followed, no page of a tree is missed: this is
      where the absence of cycles is needed. */
  lemma EveryPageReached(pageCount: nat, pages: seq<PageInfo>, claims: seq<Claim>, expanded: set<nat>)
    requires TreeLinks(pageCount, pages, claims)
    requires Followed(claims, [], expanded, {})
    requires RootsBelow(pages, claims, |pages| + 1) <= expanded
    ensures forall m :: HasKind(pages, m) ==> m in expanded
  {
    forall m | HasKind(pages, m)
      ensures m in expanded
    {
      if m !in expanded {
        var path := UnreachedPath(pageCount, pages, claims, expanded, m, |pages|);
        PathsFit(ClaimEdges(claims), path, |pages|);
        assert false;
      }
    }
  }

  lemma LinkIntoPath(claims: seq<Claim>, prefix: seq<nat>, k: nat)
    requires RootPath(claims, prefix) && 0 < k < |prefix|
    ensures Linked(claims, prefix[k - 1], prefix[k])
  {
    RootPathMeaning(claims, prefix);
    assert (prefix[k - 1], prefix[k - 1 + 1]) in ClaimEdges(claims);
  }

  /** Two root paths that share a page are the same path up to that page. */
  lemma {:induction false} SharedPage(claims: seq<Claim>, p: seq<nat>, a: nat, q: seq<nat>, b: nat)
    requires SingleOwner(claims) && RootPath(claims, p) && RootPath(claims, q)
    requires a < |p| && b < |q| && p[a] == q[b]
    ensures a == b && p[0] == q[0]
    decreases a
  {
    RootPathMeaning(claims, p);
    RootPathMeaning(claims, q);
    if a > 0 {
      LinkIntoPath(claims, p, a);
    }
    if b > 0 {
      LinkIntoPath(claims, q, b);
    }
    if a > 0 && b > 0 {
      SharedPage(claims, p, a - 1, q, b - 1);
    }
  }

  /** The whole promise about one recorded traversal. */
  ghost predicate TreeTraversal(pages: seq<PageInfo>, claims: seq<Claim>, t: Traversal) {
    && t.kind.BtreeTree? && t.prefix != [] && t.origin == Page(t.prefix[0])
    && HasKind(pages, t.prefix[0])
    && (forall i :: 0 <= i < |claims| && claims[i].IsLink() ==> claims[i].target.value != t.prefix[0])
    && IsPath(ClaimEdges(claims), t.prefix)
    && (forall a, b :: 0 <= a < b < |t.prefix| ==> t.prefix[a] != t.prefix[b])
  }

  ghost predicate OneOrigin(traversals: seq<Traversal>) {
    forall s, t, page ::
      0 <= s < |traversals| && 0 <= t < |traversals| && page in traversals[s].prefix && page in traversals[t].prefix
      ==> traversals[s].origin == traversals[t].origin
  }

  /** Every recorded prefix is a simple path of validated claims from a root, and a page
      lies below one origin only. */
  lemma TraversalsMeaning(pages: seq<PageInfo>, claims: seq<Claim>, roots: set<nat>, traversals: seq<Traversal>)
    requires SingleOwner(claims) && RootTraversals(claims, roots, traversals)
    requires forall root :: root in roots ==> HasKind(pages, root)
    ensures forall k :: 0 <= k < |traversals| ==> TreeTraversal(pages, claims, traversals[k])
    ensures OneOrigin(traversals)
  {
    forall k | 0 <= k < |traversals|
      ensures RootTraversal(claims, roots, traversals[k])
      ensures TreeTraversal(pages, claims, traversals[k])
    {
      RootTraversalsMeaning(claims, roots, traversals, k);
      var prefix := traversals[k].prefix;
      RootPathMeaning(claims, prefix);
      forall a, b | 0 <= a < b < |prefix|
        ensures prefix[a] != prefix[b]
      {
        if prefix[a] == prefix[b] {
          SharedPage(claims, prefix, a, prefix, b);
        }
      }
    }
    forall s, t, page | 0 <= s < |traversals| && 0 <= t < |traversals|
        && page in traversals[s].prefix && page in traversals[t].prefix
      ensures traversals[s].origin == traversals[t].origin
    {
      var a :| 0 <= a < |traversals[s].prefix| && traversals[s].prefix[a] == page;
      var b :| 0 <= b < |traversals[t].prefix| && traversals[t].prefix[b] == page;
      SharedPage(claims, traversals[s].prefix, a, traversals[t].prefix, b);
    }
  }

  ghost predicate KnownPages(claims: seq<Claim>, expanded: set<nat>, limit: nat) {
    forall page :: page in expanded ==> page in Entered(claims, |claims|) || page < limit
  }

  /** Walks every tree: from each page with a B-tree header that no validated claim enters,
      or from page 1 alone when the inventory is incomplete. However the walk ends, the
      retained page identities are within the ceiling, and what it recorded are simple paths
      of validated claims. When nothing cut it short, it missed no page. */
  method BtreeTraversals(pageCount: nat, pages: seq<PageInfo>, claims: seq<Claim>, inventoryComplete: bool,
                         maxPages: nat, maxTotal: nat, control: WorkControl)
    returns (traversals: seq<Traversal>, used: nat)
    requires !control.failed ==> TreeLinks(pageCount, pages, claims) && Reasoned(claims)
    modifies control
    ensures control.Later()
    ensures Retained(traversals) <= used <= maxTotal
    ensures !control.failed ==>
      && (forall k :: 0 <= k < |traversals| ==> TreeTraversal(pages, claims, traversals[k]))
      && OneOrigin(traversals)
    ensures inventoryComplete && !control.failed && !control.stop && !control.budget ==>
      forall page :: HasKind(pages, page) ==> page in RecordedPages(traversals)
  {
    var incoming, outgoing, complete := Adjacency(claims, control);
    var walk := new TreeWalk(claims, outgoing, maxPages, maxTotal, control);
    if complete {
      WalkRoots(pageCount, pages, incoming, inventoryComplete, walk);
    }
    traversals, used := walk.traversals, walk.used;
    if !control.failed {
      TraversalsMeaning(pages, claims, walk.roots, traversals);
    }
  }

  lemma NothingWalked(walk: TreeWalk)
    requires walk.traversals == [] && walk.pending == [] && walk.used == 0 && walk.expanded == {} && walk.roots == {}
    ensures walk.Settled() && KnownPages(walk.claims, walk.expanded, 1)
    ensures walk.Paid(0) && walk.Complete({}, [])
  {
  }

  lemma KnownStep(walk: TreeWalk, before: set<nat>, n: nat)
    requires KnownPages(walk.claims, before, n)
    ensures KnownPages(walk.claims, before, n + 1) && (n in before ==> n in Entered(walk.claims, |walk.claims|))
    ensures walk.expanded <= before + walk.Reach(n) ==> KnownPages(walk.claims, walk.expanded, n + 1)
  {
  }

  method WalkRoots(ghost pageCount: nat, pages: seq<PageInfo>, incoming: set<nat>, inventoryComplete: bool, walk: TreeWalk)
    requires walk.traversals == [] && walk.pending == [] && walk.used == 0 && walk.expanded == {} && walk.roots == {}
    requires !walk.control.failed ==>
      && TreeLinks(pageCount, pages, walk.claims) && Reasoned(walk.claims)
      && incoming == Entered(walk.claims, |walk.claims|) && walk.outgoing == Outgoing(walk.claims, |walk.claims|)
    modifies walk, walk.control
    ensures walk.control.Later()
    ensures walk.Paid(0)
    ensures !walk.control.failed ==> RootTraversals(walk.claims, walk.roots, walk.traversals)
    ensures forall root :: root in walk.roots ==> HasKind(pages, root)
    ensures inventoryComplete && walk.Unbound() ==>
      forall page :: HasKind(pages, page) ==> page in RecordedPages(walk.traversals)
  {
    hide KnownPages, ParentsFirst, RootTraversals, Retained, PendingLength, Outgoing, Entered, Followed, Covered, Reasoned, SingleOwner;
    var control, claims := walk.control, walk.claims;
    NothingWalked(walk);
    for n: nat := 1 to |pages| + 1
      invariant control.Later()
      invariant walk.pending == [] && walk.Paid(0)
      invariant !control.failed ==> walk.Settled() && KnownPages(claims, walk.expanded, n)
      invariant forall root :: root in walk.roots ==> HasKind(pages, root)
      invariant walk.Unbound() ==> walk.Complete({}, [])
      invariant inventoryComplete && walk.Unbound() ==> RootsBelow(pages, claims, n) <= walk.expanded
    {
      RootsBelowStep(pages, claims, n);
      ghost var before := walk.expanded;
      if !control.failed {
        KnownStep(walk, before, n);
      }
      if pages[n - 1].kind.Some? && n !in incoming && (inventoryComplete || n == 1) {
        var stopped := control.Stopped();
        if stopped {
          return;
        }
        var granted := walk.Reserve(1);
        if !granted {
          control.MarkAggregate();
          return;
        }
        var go := walk.WalkRoot(n);
        if !go {
          return;
        }
        if !control.failed {
          KnownStep(walk, before, n);
        }
      }
    }
    if inventoryComplete && walk.Unbound() {
      EveryPageReached(pageCount, pages, claims, walk.expanded);
      ExpandedIsRecorded(walk);
    }
  }

  lemma ExpandedIsRecorded(walk: TreeWalk)
    requires walk.pending == [] && walk.Complete({}, [])
    ensures walk.expanded <= RecordedPages(walk.traversals)
  {
  }

  ghost function RootsBelow(pages: seq<PageInfo>, claims: seq<Claim>, limit: nat): set<nat> {
    set m | 0 <= m < limit && HasKind(pages, m) && IsRoot(claims, m)
  }

  lemma RootsBelowStep(pages: seq<PageInfo>, claims: seq<Claim>, n: nat)
    requires 1 <= n <= |pages|
    ensures RootsBelow(pages, claims, n + 1)
         == if pages[n - 1].kind.Some? && n !in Entered(claims, |claims|) then RootsBelow(pages, claims, n) + {n} else RootsBelow(pages, claims, n)
    ensures n !in Entered(claims, |claims|) <==> IsRoot(claims, n)
  {
    assert n !in Entered(claims, |claims|) <==> IsRoot(claims, n);
  }
}
