/** Attribution of pages to schema objects through the retained B-tree relationships. */
module Schema {
  import opened Wrappers
  import opened Control
  import G = ClaimGraph
  import Roles
  import Links = LinkForest

  // ---------------------------------------------------------------- reachability in a forest

  ghost predicate ReachedBy(edges: set<G.Edge>, path: seq<nat>, root: nat, page: nat) {
    G.IsPath(edges, path) && path[0] == root && path[|path| - 1] == page
  }

  ghost predicate Reaches(edges: set<G.Edge>, root: nat, page: nat) {
    exists path :: ReachedBy(edges, path, root, page)
  }

  ghost predicate SingleParent(edges: set<G.Edge>) {
    forall d, e :: d in edges && e in edges && d.1 == e.1 ==> d.0 == e.0
  }

  ghost predicate Root(edges: set<G.Edge>, page: nat) {
    forall e :: e in edges ==> e.1 != page
  }

  /** In a forest a page lies below one root only. */
  lemma {:induction false} OneRoot(edges: set<G.Edge>, p: seq<nat>, q: seq<nat>, r: nat, s: nat, page: nat)
    requires SingleParent(edges) && Root(edges, r) && Root(edges, s)
    requires ReachedBy(edges, p, r, page) && ReachedBy(edges, q, s, page)
    ensures r == s
    decreases |p|
  {
    var i, j := |p| - 1, |q| - 1;
    if i > 0 {
      assert (p[i - 1], p[i - 1 + 1]) in edges;
    }
    if j > 0 {
      assert (q[j - 1], q[j - 1 + 1]) in edges;
    }
    if i > 0 && j > 0 {
      assert p[..i][i - 1] == q[..j][j - 1];
      OneRoot(edges, p[..i], q[..j], r, s, p[i - 1]);
    }
  }

  lemma OneRootOnly(edges: set<G.Edge>, r: nat, s: nat, page: nat)
    requires SingleParent(edges) && Root(edges, r) && Root(edges, s)
    requires Reaches(edges, r, page) && Reaches(edges, s, page)
    ensures r == s
  {
    var p :| ReachedBy(edges, p, r, page);
    var q :| ReachedBy(edges, q, s, page);
    OneRoot(edges, p, q, r, s, page);
  }

  /** The parent-to-child pairs of the retained B-tree relationships. */
  ghost function TreeEdges(links: seq<G.Relationship>): set<G.Edge> {
    set i | 0 <= i < |links| && links[i].kind.BtreeChild? :: (links[i].source.page, links[i].target)
  }

  lemma ForestHasSingleParents(links: seq<G.Relationship>)
    requires G.SingleOwnerLinks(links)
    ensures SingleParent(TreeEdges(links))
  {
    forall d, e | d in TreeEdges(links) && e in TreeEdges(links) && d.1 == e.1
      ensures d.0 == e.0
    {
      var i :| 0 <= i < |links| && links[i].kind.BtreeChild? && (links[i].source.page, links[i].target) == d;
      var j :| 0 <= j < |links| && links[j].kind.BtreeChild? && (links[j].source.page, links[j].target) == e;
      assert i == j;
    }
  }

  // ---------------------------------------------------------------- the tree index

  /** Which pages belong to which root, which trees are incomplete, and which pages some claim
      names as a child. */
  datatype TreeIndex = TreeIndex(roots: map<nat, bool>, members: set<(nat, nat)>, childTargets: set<nat>)

  /** What the rest of the inspection hands over: settled page roles, the relationships, the
      claims and the traversals. */
  datatype Graph = Graph(roles: seq<Roles.PageRole>, links: seq<G.Relationship>, claims: seq<G.Claim>, traversals: seq<G.Traversal>,
                         complete: bool, wholePages: set<nat>)

  predicate TreePage(g: Graph, page: nat) {
    1 <= page <= |g.roles| && g.roles[page - 1].SomeBtree()
  }

  ghost predicate ChildNamed(claims: seq<G.Claim>, page: nat) {
    exists i :: 0 <= i < |claims| && claims[i].kind.BtreeChild? && claims[i].target == Some(page)
  }

  /** The relationships come from claims, so a page that no claim names has no parent. */
  ghost predicate FromClaims(g: Graph) {
    && G.SingleOwnerLinks(g.links)
    && (forall k :: 0 <= k < |g.links| ==> Links.HasClaim(g.claims, g.links[k]))
    && (forall k :: 0 <= k < |g.traversals| && g.traversals[k].kind.BtreeTree? && g.traversals[k].prefix != [] ==>
         g.traversals[k].origin.page == g.traversals[k].prefix[0])
  }

  ghost predicate Connected(g: Graph, members: set<(nat, nat)>) {
    forall m :: m in members ==> Reaches(TreeEdges(g.links), m.0, m.1) && TreePage(g, m.1)
  }

  lemma UnnamedIsRoot(g: Graph, page: nat)
    requires FromClaims(g) && !ChildNamed(g.claims, page)
    ensures Root(TreeEdges(g.links), page)
  {
    forall e | e in TreeEdges(g.links)
      ensures e.1 != page
    {
      var i :| 0 <= i < |g.links| && g.links[i].kind.BtreeChild? && (g.links[i].source.page, g.links[i].target) == e;
      assert Links.HasClaim(g.claims, g.links[i]);
      var j :| 0 <= j < |g.claims| && g.claims[j].IsLink() && G.RelationshipOf(g.claims[j]) == g.links[i];
      assert g.claims[j].kind.BtreeChild? && g.claims[j].target == Some(e.1);
    }
  }

  /** The first `n` pages of a prefix are B-tree pages joined by retained links. */
  ghost predicate Joined(g: Graph, prefix: seq<nat>, n: nat) {
    && n <= |prefix|
    && forall k :: 0 <= k < n ==> TreePage(g, prefix[k]) && (k > 0 ==> (prefix[k - 1], prefix[k]) in TreeEdges(g.links))
  }

  /** Page `k` of a tree traversal is a member of its root: everything up to it is joined. */
  ghost predicate Holds(g: Graph, t: nat, k: nat, m: (nat, nat)) {
    && t < |g.traversals| && g.traversals[t].kind.BtreeTree? && g.traversals[t].origin.page == m.0
    && k < |g.traversals[t].prefix| && g.traversals[t].prefix[k] == m.1 && Joined(g, g.traversals[t].prefix, k + 1)
  }

  ghost predicate HeldBelow(g: Graph, n: nat, m: (nat, nat)) {
    exists t, k :: 0 <= t < n && 0 <= k && Holds(g, t, k, m)
  }

  /** The members are what the first `n` traversals hold, and nothing else. */
  ghost predicate ExactMembers(g: Graph, members: set<(nat, nat)>, n: nat) {
    forall m :: m in members <==> HeldBelow(g, n, m)
  }

  /** Something about the traversal, or a page on it, is incomplete. */
  ghost predicate PartialWalk(g: Graph, t: G.Traversal) {
    t.stop.Some? || !g.complete || !Joined(g, t.prefix, |t.prefix|) || exists page :: page in t.prefix && page !in g.wholePages
  }

  ghost predicate TreeBelow(g: Graph, n: nat, root: nat) {
    exists t :: 0 <= t < n && t < |g.traversals| && g.traversals[t].kind.BtreeTree? && g.traversals[t].origin.page == root
  }

  ghost predicate PartialBelow(g: Graph, n: nat, root: nat) {
    exists t :: 0 <= t < n && t < |g.traversals| && g.traversals[t].kind.BtreeTree? && g.traversals[t].origin.page == root && PartialWalk(g, g.traversals[t])
  }

  /** Every traversed root is listed, and marked when one of its traversals is incomplete. */
  ghost predicate ExactRoots(g: Graph, roots: map<nat, bool>, n: nat) {
    && (forall root :: root in roots <==> TreeBelow(g, n, root))
    && (forall root :: root in roots ==> (roots[root] <==> PartialBelow(g, n, root)))
  }

  /** What the index holds when every read and every write of the store worked. */
  ghost predicate ExactIndex(g: Graph, trees: TreeIndex) {
    && ExactMembers(g, trees.members, |g.traversals|) && ExactRoots(g, trees.roots, |g.traversals|)
    && forall page :: page in trees.childTargets <==> ChildNamed(g.claims, page)
  }

  /** Members are reached from their roots through retained relationships. */
  lemma ExactIsConnected(g: Graph, members: set<(nat, nat)>)
    requires FromClaims(g) && ExactMembers(g, members, |g.traversals|)
    ensures Connected(g, members)
  {
    forall m | m in members
      ensures Reaches(TreeEdges(g.links), m.0, m.1) && TreePage(g, m.1)
    {
      var t, k :| 0 <= t < |g.traversals| && 0 <= k && Holds(g, t, k, m);
      var prefix := g.traversals[t].prefix;
      var path := prefix[..k + 1];
      forall i | 0 <= i < |path| - 1
        ensures (path[i], path[i + 1]) in TreeEdges(g.links)
      {
        assert (prefix[i + 1 - 1], prefix[i + 1]) in TreeEdges(g.links);
      }
      assert ReachedBy(TreeEdges(g.links), path, m.0, m.1);
    }
  }

  // ---------------------------------------------------------------- building the index

  /** The parent-to-child pairs; a read or a write that fails ends the collection. */
  method CollectLinks(g: Graph, control: WorkControl) returns (links: set<G.Edge>, complete: bool)
    modifies control`stop, control`failed
    ensures control.Later()
    ensures !complete ==> control.stop
    ensures complete && !control.failed ==> links == TreeEdges(g.links)
  {
    links, complete := {}, false;
    for k: nat := 0 to |g.links|
      invariant control.Later()
      invariant !control.failed ==> links == TreeEdges(g.links[..k])
    {
      var read := control.Access();
      if !read {
        break;
      }
      var stopped := control.Stopped();
      if stopped {
        return;
      }
      EdgesStep(g.links, k);
      if g.links[k].kind.BtreeChild? {
        var written := control.Access();
        if written {
          links := links + {(g.links[k].source.page, g.links[k].target)};
        }
      }
    }
    assert g.links[..|g.links|] == g.links;
    complete := true;
  }

  lemma EdgesStep(links: seq<G.Relationship>, k: nat)
    requires k < |links|
    ensures TreeEdges(links[..k + 1])
         == TreeEdges(links[..k]) + if links[k].kind.BtreeChild? then {(links[k].source.page, links[k].target)} else {}
  {
    var before, after := links[..k], links[..k + 1];
    forall e | e in TreeEdges(before)
      ensures e in TreeEdges(after)
    {
      var i :| 0 <= i < |before| && before[i].kind.BtreeChild? && (before[i].source.page, before[i].target) == e;
      assert after[i] == before[i];
    }
    assert after[k] == links[k];
    forall e | e in TreeEdges(after)
      ensures e in TreeEdges(before) || (links[k].kind.BtreeChild? && e == (links[k].source.page, links[k].target))
    {
      var i :| 0 <= i < |after| && after[i].kind.BtreeChild? && (after[i].source.page, after[i].target) == e;
      assert i < k ==> before[i] == after[i];
    }
  }

  /** The pages that some claim names as a child. */
  method CollectTargets(g: Graph, control: WorkControl) returns (targets: set<nat>, complete: bool)
    modifies control`stop, control`failed
    ensures control.Later()
    ensures !complete ==> control.stop
    ensures complete && !control.failed ==> forall page :: page in targets <==> ChildNamed(g.claims, page)
  {
    targets, complete := {}, false;
    for k: nat := 0 to |g.claims|
      invariant control.Later()
      invariant !control.failed ==> forall page :: page in targets <==> exists i :: 0 <= i < k && g.claims[i].kind.BtreeChild? && g.claims[i].target == Some(page)
    {
      var read := control.Access();
      if !read {
        break;
      }
      var stopped := control.Stopped();
      if stopped {
        return;
      }
      var c := g.claims[k];
      if c.kind.BtreeChild? && c.target.Some? {
        var written := control.Access();
        if written {
          targets := targets + {c.target.value};
        }
      }
    }
    complete := true;
  }

  /** What one traversal adds to the members. */
  ghost predicate Added(g: Graph, t: G.Traversal, n: nat, before: set<(nat, nat)>, after: set<(nat, nat)>) {
    forall m :: m in after <==> m in before || exists k :: 0 <= k < n && k < |t.prefix| && m == (t.origin.page, t.prefix[k]) && Joined(g, t.prefix, k + 1)
  }

  lemma AddedStep(g: Graph, t: G.Traversal, n: nat, before: set<(nat, nat)>, after: set<(nat, nat)>)
    requires Added(g, t, n, before, after) && n < |t.prefix|
    ensures Joined(g, t.prefix, n + 1) ==> Added(g, t, n + 1, before, after + {(t.origin.page, t.prefix[n])})
    ensures !Joined(g, t.prefix, n + 1) ==> Added(g, t, |t.prefix|, before, after)
  {
  }

  lemma NothingAdded(g: Graph, t: G.Traversal, members: set<(nat, nat)>)
    ensures Added(g, t, 0, members, members) && Joined(g, t.prefix, 0)
  {
  }

  lemma JoinedStep(g: Graph, t: G.Traversal, k: nat)
    requires Joined(g, t.prefix, k) && k < |t.prefix|
    ensures Joined(g, t.prefix, k + 1) <==> TreePage(g, t.prefix[k]) && (k == 0 || (t.prefix[k - 1], t.prefix[k]) in TreeEdges(g.links))
    ensures !Joined(g, t.prefix, k + 1) ==> PartialWalk(g, t)
  {
  }

  /** Reads one traversal's prefix as far as its pages are B-tree pages joined by retained
      links. */
  method IndexTraversal(g: Graph, t: G.Traversal, links: set<G.Edge>, members0: set<(nat, nat)>, control: WorkControl)
    returns (members: set<(nat, nat)>, partial: bool, complete: bool)
    requires !control.failed ==> links == TreeEdges(g.links)
    modifies control`stop, control`failed
    ensures control.Later()
    ensures !complete ==> control.stop || control.failed
    ensures complete && !control.failed ==> Added(g, t, |t.prefix|, members0, members) && (partial <==> PartialWalk(g, t))
  {
    hide Added, Joined, PartialWalk, TreeEdges, TreePage;
    members, partial, complete := members0, t.stop.Some? || !g.complete, false;
    NothingAdded(g, t, members0);
    for k: nat := 0 to |t.prefix|
      invariant control.Later()
      invariant !control.failed ==> Joined(g, t.prefix, k) && Added(g, t, k, members0, members)
      invariant !control.failed ==> (partial <==> t.stop.Some? || !g.complete || exists i :: 0 <= i < k && t.prefix[i] !in g.wholePages)
    {
      var stopped := control.Stopped();
      if stopped {
        return;
      }
      var page := t.prefix[k];
      if !control.failed {
        AddedStep(g, t, k, members0, members);
        JoinedStep(g, t, k);
      }
      var classified := control.Access();
      var joined := k == 0;
      if k > 0 {
        var found := control.Access();
        joined := found && (t.prefix[k - 1], page) in links;
      }
      if !classified || !TreePage(g, page) || !joined {
        partial, complete := true, true;
        return;
      }
      var written := control.Access();
      if written {
        members := members + {(t.origin.page, page)};
      }
      var read := control.Access();
      if !read {
        return;
      }
      partial := partial || page !in g.wholePages;
    }
    if !control.failed {
      WholeWalk(g, t, partial);
    }
    complete := true;
  }

  lemma WholeWalk(g: Graph, t: G.Traversal, partial: bool)
    requires Joined(g, t.prefix, |t.prefix|)
    requires partial <==> t.stop.Some? || !g.complete || exists i :: 0 <= i < |t.prefix| && t.prefix[i] !in g.wholePages
    ensures partial <==> PartialWalk(g, t)
  {
    if exists page :: page in t.prefix && page !in g.wholePages {
      var page :| page in t.prefix && page !in g.wholePages;
      var i :| 0 <= i < |t.prefix| && t.prefix[i] == page;
      assert t.prefix[i] !in g.wholePages;
    }
  }

  lemma MembersStep(g: Graph, n: nat, before: set<(nat, nat)>, after: set<(nat, nat)>)
    requires n < |g.traversals| && ExactMembers(g, before, n)
    requires if g.traversals[n].kind.BtreeTree? then Added(g, g.traversals[n], |g.traversals[n].prefix|, before, after) else after == before
    ensures ExactMembers(g, after, n + 1)
  {
    forall m
      ensures m in after <==> HeldBelow(g, n + 1, m)
    {
      if m in after {
        if m in before {
          var t, k :| 0 <= t < n && 0 <= k && Holds(g, t, k, m);
          assert Holds(g, t, k, m);
        } else {
          var k :| 0 <= k < |g.traversals[n].prefix| && m == (g.traversals[n].origin.page, g.traversals[n].prefix[k]) && Joined(g, g.traversals[n].prefix, k + 1);
          assert Holds(g, n, k, m);
        }
      }
      if HeldBelow(g, n + 1, m) {
        var t, k :| 0 <= t < n + 1 && 0 <= k && Holds(g, t, k, m);
        assert t < n ==> HeldBelow(g, n, m);
      }
    }
  }

  lemma RootsStep(g: Graph, n: nat, roots: map<nat, bool>, partial: bool)
    requires n < |g.traversals| && ExactRoots(g, roots, n)
    ensures !g.traversals[n].kind.BtreeTree? ==> ExactRoots(g, roots, n + 1)
    ensures g.traversals[n].kind.BtreeTree? && (partial <==> PartialWalk(g, g.traversals[n])) ==>
      var root := g.traversals[n].origin.page;
      ExactRoots(g, roots[root := (root in roots && roots[root]) || partial], n + 1)
  {
    hide PartialWalk;
    forall root
      ensures TreeBelow(g, n + 1, root) <==> TreeBelow(g, n, root) || (g.traversals[n].kind.BtreeTree? && g.traversals[n].origin.page == root)
      ensures PartialBelow(g, n + 1, root) <==>
        PartialBelow(g, n, root) || (g.traversals[n].kind.BtreeTree? && g.traversals[n].origin.page == root && PartialWalk(g, g.traversals[n]))
    {
    }
  }

  /** Builds the index from every recorded B-tree traversal. A store that fails ends the loops
      without a word, and what they built is then worthless; only a later read can tell. */
  method IndexTrees(g: Graph, control: WorkControl) returns (trees: TreeIndex, complete: bool)
    modifies control`stop, control`failed
    ensures control.Later()
    ensures !complete ==> control.stop || control.failed
    ensures complete ==> !old(control.stop)
    ensures complete && !control.failed ==> ExactIndex(g, trees)
  {
    hide ExactMembers, ExactRoots, Added, ChildNamed, PartialWalk;
    trees, complete := TreeIndex(map[], {}, {}), false;
    var stopped := control.Stopped();
    if stopped {
      return;
    }
    var links, targets, collected;
    links, collected := CollectLinks(g, control);
    if !collected {
      return;
    }
    targets, collected := CollectTargets(g, control);
    if !collected {
      return;
    }
    var roots: map<nat, bool>, members: set<(nat, nat)> := map[], {};
    NothingIndexed(g);
    for n: nat := 0 to |g.traversals|
      invariant control.Later()
      invariant !control.failed ==> links == TreeEdges(g.links) && forall page :: page in targets <==> ChildNamed(g.claims, page)
      invariant !control.failed ==> ExactMembers(g, members, n) && ExactRoots(g, roots, n)
    {
      var read := control.Access();
      if !read {
        break;
      }
      stopped := control.Stopped();
      if stopped {
        return;
      }
      var t := g.traversals[n];
      if !t.kind.BtreeTree? {
        MembersStep(g, n, members, members);
        RootsStep(g, n, roots, false);
      } else {
        var found := control.Access();
        ghost var before := members;
        var partial, done;
        members, partial, done := IndexTraversal(g, t, links, members, control);
        if !done {
          return;
        }
        var root := t.origin.page;
        if !control.failed {
          MembersStep(g, n, before, members);
          RootsStep(g, n, roots, partial);
        }
        var written := control.Access();
        if written {
          roots := roots[root := (found && root in roots && roots[root]) || partial];
        }
      }
    }
    trees, complete := TreeIndex(roots, members, targets), true;
  }

  lemma NothingIndexed(g: Graph)
    ensures ExactMembers(g, {}, 0) && ExactRoots(g, map[], 0)
  {
  }

  /** The schema's own tree must be there. The index is read for that, so an index built on a
      failed store is never used. */
  method HasSchemaTree(trees: TreeIndex, control: WorkControl) returns (available: bool)
    modifies control`failed
    ensures control.Later()
    ensures available ==> !control.failed && 1 in trees.roots && (1, 1) in trees.members
    ensures !control.failed ==> (available <==> 1 in trees.roots && (1, 1) in trees.members)
  {
    var found := control.Access();
    available := found && 1 in trees.roots;
    if available {
      found := control.Access();
      available := found && (1, 1) in trees.members;
    }
  }

  // ---------------------------------------------------------------- attribution

  datatype ObjectKind = Table | Index | View | Trigger

  datatype ObjectState = Unavailable | DeclarationOnly | Partial | Complete

  /** A decoded declaration. `rootPage` is the number stored in the record; `root` and
      `through` are what attribution accepted. */
  datatype Object = Object(kind: Option<ObjectKind>, rootPage: Option<int>, virtualTable: bool,
                           root: Option<nat>, through: Option<nat>, state: ObjectState)

  /** Root pages below 2 and numbers that are no page number are never attributed. */
  function RootOf(o: Object): Option<nat> {
    if o.rootPage.Some? && 1 < o.rootPage.value < 0x1_0000_0000 then Some(o.rootPage.value) else None
  }

  /** The pages shown for an object: the members of its root up to the accepted boundary. */
  ghost function AttributedPages(members: set<(nat, nat)>, o: Object): set<nat> {
    if o.root.None? then {}
    else set m | m in members && m.0 == o.root.value && 0 < m.1 <= o.through.GetOr(0) :: m.1
  }

  /** The objects shown for a page: entries past an object's boundary authorize nothing. */
  ghost predicate ShownFor(objects: seq<Object>, attributions: set<(nat, nat)>, page: nat, position: nat) {
    && (page, position) in attributions && position < |objects|
    && objects[position].root.Some? && objects[position].through.Some? && page <= objects[position].through.value
  }

  /** The two indexes say the same. */
  ghost predicate Agree(objects: seq<Object>, members: set<(nat, nat)>, attributions: set<(nat, nat)>) {
    forall position, page {:trigger ShownFor(objects, attributions, page, position)} :: 0 <= position < |objects| ==>
      (ShownFor(objects, attributions, page, position) <==> page in AttributedPages(members, objects[position]))
  }

  /** What attribution established for one object. `lost` allows for an entry about the last
      accepted page that could not be written. */
  ghost predicate Sound(g: Graph, trees: TreeIndex, attributions: set<(nat, nat)>, o: Object, position: nat, lost: bool) {
    && (o.root.None? ==> o.through.None?)
    && (o.root.Some? ==>
         && o.root == RootOf(o) && o.root.value !in trees.childTargets && TreePage(g, o.root.value)
         && (o.through.Some? ==> o.through.value > 0 && (o.root.value, o.through.value) in trees.members))
    && (forall page {:trigger (page, position) in attributions} :: o.root.Some? && (page, position) in attributions ==>
         page > 0 && (o.root.value, page) in trees.members)
    && (forall page {:trigger (page, position) in attributions} ::
         o.root.Some? && 0 < page <= o.through.GetOr(0) && (o.root.value, page) in trees.members && (lost ==> page < o.through.GetOr(0))
         ==> (page, position) in attributions)
  }

  /** The entry about the last accepted page is there. */
  ghost predicate NothingLost(o: Object, position: nat, attributions: set<(nat, nat)>) {
    o.root.Some? && o.through.Some? ==> (o.through.value, position) in attributions
  }

  /** A page that lists an object is always listed for it; the other way round, at most the
      last accepted page can be missing, and only if its entry was lost. */
  lemma SoundAgrees(g: Graph, trees: TreeIndex, attributions: set<(nat, nat)>, objects: seq<Object>, position: nat, lost: bool, page: nat)
    requires position < |objects| && Sound(g, trees, attributions, objects[position], position, lost)
    ensures ShownFor(objects, attributions, page, position) ==> page in AttributedPages(trees.members, objects[position])
    ensures page in AttributedPages(trees.members, objects[position]) && (!lost || NothingLost(objects[position], position, attributions)) ==>
      ShownFor(objects, attributions, page, position)
  {
    var o := objects[position];
    if page in AttributedPages(trees.members, o) {
      assert (o.root.value, page) in trees.members;
      assert page == o.through.GetOr(0) || page < o.through.GetOr(0);
    }
    if ShownFor(objects, attributions, page, position) {
      assert (o.root.value, page) in trees.members;
    }
  }

  lemma LostDisagrees(g: Graph, trees: TreeIndex, attributions: set<(nat, nat)>, objects: seq<Object>, position: nat)
    requires position < |objects| && Sound(g, trees, attributions, objects[position], position, true)
    requires !NothingLost(objects[position], position, attributions)
    ensures !Agree(objects, trees.members, attributions)
  {
    var o := objects[position];
    assert (o.root.value, o.through.value) in trees.members;
    assert o.through.value in AttributedPages(trees.members, o);
    assert !ShownFor(objects, attributions, o.through.value, position);
  }

  ghost predicate NextIs(members: set<(nat, nat)>, root: nat, after: nat, page: Option<nat>) {
    && (page.Some? ==> (root, page.value) in members && page.value > after)
    && (page.Some? ==> forall m :: m in members && m.0 == root && m.1 > after ==> page.value <= m.1)
    && (page.None? ==> forall m :: m in members && m.0 == root ==> m.1 <= after)
  }

  /** The next member page is attributed, and then accepted. */
  lemma SoundStep(g: Graph, trees: TreeIndex, attributions: set<(nat, nat)>, o: Object, position: nat, page: nat)
    requires o.root.Some? && Sound(g, trees, attributions, o, position, false)
    requires NextIs(trees.members, o.root.value, o.through.GetOr(0), Some(page))
    ensures Sound(g, trees, attributions + {(page, position)}, o, position, false)
    ensures Sound(g, trees, attributions + {(page, position)}, o.(through := Some(page)), position, false)
    ensures Sound(g, trees, attributions, o.(through := Some(page)), position, true)
  {
    forall p: nat | 0 < p <= page && (o.root.value, p) in trees.members
      ensures (p, position) in attributions + {(page, position)} && (p < page ==> (p, position) in attributions)
    {
      assert p > o.through.GetOr(0) ==> page <= (o.root.value, p).1;
    }
  }

  lemma SoundIsLoose(g: Graph, trees: TreeIndex, attributions: set<(nat, nat)>, o: Object, position: nat)
    requires Sound(g, trees, attributions, o, position, false)
    ensures Sound(g, trees, attributions, o, position, true)
  {
  }

  /** The next member page of a root, in ascending order. */
  method NextMember(members: set<(nat, nat)>, root: nat, after: nat) returns (page: Option<nat>)
    ensures NextIs(members, root, after, page)
  {
    var rest := set m | m in members && m.0 == root && m.1 > after :: m.1;
    page := None;
    if rest != {} {
      ghost var least := Least(rest);
      var chosen: nat :| chosen in rest && forall other :: other in rest ==> chosen <= other;
      page := Some(chosen);
      assert exists m :: m in members && m.0 == root && m.1 > after && m.1 == chosen;
    }
    forall m | m in members && m.0 == root && m.1 > after
      ensures m.1 in rest
    {
    }
  }

  lemma {:induction false} Least(pages: set<nat>) returns (page: nat)
    requires pages != {}
    ensures page in pages && forall other :: other in pages ==> page <= other
    decreases |pages|
  {
    page :| page in pages;
    var rest := pages - {page};
    assert pages == rest + {page};
    if rest != {} {
      var least := Least(rest);
      page := if page < least then page else least;
    }
  }

  /** The same, read from the store. */
  method ReadMember(members: set<(nat, nat)>, root: nat, after: nat, control: WorkControl) returns (page: Option<nat>)
    modifies control`failed
    ensures control.Later()
    ensures page.Some? ==> !control.failed
    ensures !control.failed ==> NextIs(members, root, after, page)
  {
    page := None;
    var read := control.Access();
    if read {
      page := NextMember(members, root, after);
    }
  }

  ghost predicate OthersKept(before: set<(nat, nat)>, after: set<(nat, nat)>, position: nat) {
    forall a: (nat, nat) :: a.1 != position ==> (a in after <==> a in before)
  }

  /** All members of the object's root are attributed. */
  ghost predicate AllMembers(trees: TreeIndex, o: Object) {
    o.root.Some? ==> forall page :: 0 < page && (o.root.value, page) in trees.members ==> page in AttributedPages(trees.members, o)
  }

  function WholeState(trees: TreeIndex, root: nat): ObjectState {
    if root in trees.roots && trees.roots[root] then Partial else Complete
  }

  /** An entry can only get lost when the store fails beyond its spill budget: an exhausted
      budget stops the work before the page is accepted. */
  ghost predicate MayLose(control: WorkControl)
    reads control`failed
  {
    control.failed && control.unavailable
  }

  /** Attributes the members of one root, in ascending order, up to a stop or a failure. */
  method AttributePages(ghost g: Graph, trees: TreeIndex, o: Object, position: nat, attributions0: set<(nat, nat)>, control: WorkControl)
    returns (r: Object, attributions: set<(nat, nat)>)
    requires o.root.Some? && o.through.None? && !control.failed && Sound(g, trees, attributions0, o, position, false)
    modifies control`stop, control`failed
    ensures control.Later()
    ensures r == o.(through := r.through, state := r.state)
    ensures Sound(g, trees, attributions, r, position, MayLose(control)) && OthersKept(attributions0, attributions, position)
    ensures !control.stop && !control.failed ==> AllMembers(trees, r) && r.state == WholeState(trees, o.root.value)
  {
    hide Sound, NextIs, AllMembers;
    r, attributions := o, attributions0;
    var last := 0;
    SoundIsLoose(g, trees, attributions, r, position);
    var page := ReadMember(trees.members, o.root.value, 0, control);
    while page.Some?
      invariant control.Later()
      invariant r == o.(through := r.through) && last == r.through.GetOr(0)
      invariant Sound(g, trees, attributions, r, position, MayLose(control)) && OthersKept(attributions0, attributions, position)
      invariant page.Some? ==> !control.failed
      invariant !control.failed ==> NextIs(trees.members, o.root.value, last, page)
      decreases |Remaining(trees.members, last)|
    {
      SoundStep(g, trees, attributions, r, position, page.value);
      NextIsMember(trees.members, o.root.value, last, page.value);
      var stopped := control.Stopped();
      if stopped {
        StateIsNotSound(g, trees, attributions, r, Partial, position, MayLose(control));
        r := r.(state := Partial);
        return;
      }
      var written := control.Access();
      SoundIsLoose(g, trees, attributions, r, position);
      if written {
        attributions := attributions + {(page.value, position)};
      }
      stopped := control.Stopped();
      if stopped {
        StateIsNotSound(g, trees, attributions, r, Partial, position, MayLose(control));
        r := r.(state := Partial);
        return;
      }
      FewerRemain(trees.members, o.root.value, last, page.value);
      last := page.value;
      r := r.(through := Some(last));
      if !control.failed {
        SoundIsLoose(g, trees, attributions, r, position);
      }
      page := ReadMember(trees.members, o.root.value, last, control);
    }
    var state := WholeState(trees, o.root.value);
    StateIsNotSound(g, trees, attributions, r, state, position, MayLose(control));
    r := r.(state := state);
    if !control.failed {
      NothingRemains(trees, r, last);
    }
  }

  lemma NextIsMember(members: set<(nat, nat)>, root: nat, after: nat, page: nat)
    requires NextIs(members, root, after, Some(page))
    ensures (root, page) in members && page > after
  {
  }

  lemma NothingRemains(trees: TreeIndex, o: Object, last: nat)
    requires o.root.Some? && last == o.through.GetOr(0) && NextIs(trees.members, o.root.value, last, None)
    ensures AllMembers(trees, o)
  {
    forall page: nat | 0 < page && (o.root.value, page) in trees.members
      ensures page in AttributedPages(trees.members, o)
    {
      assert (o.root.value, page).1 <= last;
    }
  }

  lemma StateIsNotSound(g: Graph, trees: TreeIndex, attributions: set<(nat, nat)>, o: Object, state: ObjectState, position: nat, lost: bool)
    requires Sound(g, trees, attributions, o, position, lost)
    ensures Sound(g, trees, attributions, o.(state := state), position, lost)
  {
  }

  ghost function Remaining(members: set<(nat, nat)>, last: nat): set<(nat, nat)> {
    set m | m in members && m.1 > last
  }

  lemma FewerRemain(members: set<(nat, nat)>, root: nat, last: nat, page: nat)
    requires (root, page) in members && page > last
    ensures |Remaining(members, page)| < |Remaining(members, last)|
  {
    assert (root, page) in Remaining(members, last) && (root, page) !in Remaining(members, page);
    Smaller(Remaining(members, page), Remaining(members, last), (root, page));
  }

  lemma Smaller(small: set<(nat, nat)>, large: set<(nat, nat)>, x: (nat, nat))
    requires small <= large && x in large && x !in small
    ensures |small| < |large|
  {
    SubsetSize(small, large - {x});
  }

  lemma {:induction false} SubsetSize(small: set<(nat, nat)>, large: set<(nat, nat)>)
    requires small <= large
    ensures |small| <= |large|
  {
    if small != {} {
      var x :| x in small;
      SubsetSize(small - {x}, large - {x});
    }
  }

  /** Nothing is attributed to the object, and nothing speaks of its place. */
  ghost predicate Unattributed(o: Object, position: nat, attributions: set<(nat, nat)>) {
    o.root.None? && o.through.None? && forall page {:trigger (page, position) in attributions} :: (page, position) !in attributions
  }

  /** The role a declaration asks of its root: any B-tree for a table, an index for an index. */
  predicate RootFits(g: Graph, kind: ObjectKind, root: nat) {
    && TreePage(g, root)
    && (kind.Table? || (kind.Index? && (g.roles[root - 1].IndexLeaf? || g.roles[root - 1].IndexInterior?)))
  }

  /** A declaration without a root of its own: a view, a trigger or a virtual table. */
  predicate Rootless(o: Object) {
    && o.kind.Some? && (o.rootPage.None? || o.rootPage.value == 0)
    && (o.kind.value.View? || o.kind.value.Trigger? || (o.kind.value.Table? && o.virtualTable))
  }

  /** The declaration names a root that the tree index and the page roles bear out. */
  predicate Attributable(g: Graph, trees: TreeIndex, o: Object) {
    && o.kind.Some? && !Rootless(o) && !(o.kind.value.Table? && o.virtualTable)
    && var root := RootOf(o);
       && root.Some? && RootFits(g, o.kind.value, root.value) && root.value !in trees.childTargets
       && root.value in trees.roots && (root.value, root.value) in trees.members
  }

  /** Reads what the accepted root rests on. A failing read counts as a missing entry, and
      makes every later read fail, so no root is accepted on a failed store. */
  method ReadRoot(g: Graph, trees: TreeIndex, o: Object, control: WorkControl) returns (accepted: bool)
    requires o.kind.Some? && !Rootless(o) && !(o.kind.value.Table? && o.virtualTable)
    modifies control`stop, control`failed
    ensures control.Later()
    ensures accepted ==> !control.failed && Attributable(g, trees, o)
    ensures !control.failed && !control.stop ==> (accepted <==> Attributable(g, trees, o))
  {
    var root := RootOf(o);
    accepted := root.Some?;
    if accepted {
      var classified := control.Access();
      accepted := classified && RootFits(g, o.kind.value, root.value);
    }
    if accepted {
      var found := control.Access();
      accepted := !(found && root.value in trees.childTargets);
    }
    var stopped := control.Stopped();
    if stopped {
      return false;
    }
    if accepted {
      var found := control.Access();
      accepted := found && root.value in trees.roots;
    }
    if accepted {
      var found := control.Access();
      accepted := found && (root.value, root.value) in trees.members;
    }
  }

  /** Attributes one declaration, or leaves it unattributed. */
  method Attribute(g: Graph, trees: TreeIndex, o: Object, position: nat, attributions0: set<(nat, nat)>, control: WorkControl)
    returns (r: Object, attributions: set<(nat, nat)>)
    requires Unattributed(o, position, attributions0)
    modifies control`stop, control`failed
    ensures control.Later()
    ensures r == o.(root := r.root, through := r.through, state := r.state)
    ensures Sound(g, trees, attributions, r, position, MayLose(control)) && OthersKept(attributions0, attributions, position)
    ensures r.root.Some? ==> !old(control.failed) && Attributable(g, trees, o) && r.root == RootOf(o)
    ensures !control.stop && !control.failed ==>
      && (r.root.Some? <==> Attributable(g, trees, o)) && AllMembers(trees, r)
      && (r.root.Some? ==> r.state == WholeState(trees, r.root.value))
  {
    r, attributions := o, attributions0;
    if o.kind.None? {
      return;
    }
    if Rootless(o) {
      r := o.(state := DeclarationOnly);
      return;
    }
    if o.kind.value.Table? && o.virtualTable {
      return;
    }
    var accepted := ReadRoot(g, trees, o, control);
    if accepted {
      r := o.(root := RootOf(o));
      r, attributions := AttributePages(g, trees, r, position, attributions0, control);
    }
  }

  // ---------------------------------------------------------------- all declarations

  function CountRoot(objects: seq<Object>, root: nat, n: nat): nat
    requires n <= |objects|
  {
    if n == 0 then 0 else CountRoot(objects, root, n - 1) + if RootOf(objects[n - 1]) == Some(root) then 1 else 0
  }

  lemma {:induction false} CountGrows(objects: seq<Object>, root: nat, m: nat, n: nat)
    requires m <= n <= |objects|
    ensures CountRoot(objects, root, m) <= CountRoot(objects, root, n)
  {
    if m < n {
      CountGrows(objects, root, m, n - 1);
    }
  }

  /** A root that two declarations claim is counted more than once. */
  lemma TwoClaims(objects: seq<Object>, root: nat, i: nat, j: nat)
    requires i < j < |objects| && RootOf(objects[i]) == Some(root) && RootOf(objects[j]) == Some(root)
    ensures CountRoot(objects, root, |objects|) > 1
  {
    CountGrows(objects, root, i + 1, j);
    CountGrows(objects, root, j + 1, |objects|);
  }

  ghost predicate Counted(objects: seq<Object>, counts: map<nat, nat>, n: nat) {
    n <= |objects| && forall root :: (if root in counts then counts[root] else 0) == CountRoot(objects, root, n)
  }

  /** Counts the declarations of every root. A failing store ends the count. */
  method CountRoots(objects: seq<Object>, control: WorkControl) returns (counts: map<nat, nat>, complete: bool)
    modifies control`stop, control`failed
    ensures control.Later()
    ensures !complete ==> control.stop
    ensures complete && !control.failed ==> Counted(objects, counts, |objects|)
  {
    counts, complete := map[], false;
    for n: nat := 0 to |objects|
      invariant control.Later()
      invariant !control.failed ==> Counted(objects, counts, n)
    {
      var read := control.Access();
      if !read {
        break;
      }
      var stopped := control.Stopped();
      if stopped {
        return;
      }
      var root := RootOf(objects[n]);
      if root.Some? {
        var found := control.Access();
        var written := control.Access();
        if written {
          counts := counts[root.value := (if found && root.value in counts then counts[root.value] else 0) + 1];
        }
      }
    }
    complete := true;
  }

  /** Several declarations claim the same root. */
  ghost predicate Contested(objects: seq<Object>, i: nat)
    requires i < |objects|
  {
    RootOf(objects[i]).Some? && CountRoot(objects, RootOf(objects[i]).value, |objects|) > 1
  }

  /** The root that a declaration is given when nothing interferes. */
  ghost function RightRoot(g: Graph, trees: TreeIndex, objects: seq<Object>, i: nat): Option<nat>
    requires i < |objects|
  {
    if !Contested(objects, i) && Attributable(g, trees, objects[i]) then RootOf(objects[i]) else None
  }

  /** The declarations before `n` are settled and those after it untouched. */
  ghost predicate AttributedBelow(g: Graph, trees: TreeIndex, objects0: seq<Object>, objects: seq<Object>, attributions: set<(nat, nat)>,
                                  n: nat, lost: set<nat>) {
    && n <= |objects| == |objects0|
    && (forall i :: 0 <= i < |objects| ==> RootOf(objects[i]) == RootOf(objects0[i]))
    && (forall i {:trigger objects[i]} :: 0 <= i < n ==> Sound(g, trees, attributions, objects[i], i, i in lost))
    && (forall i {:trigger objects[i]} :: n <= i < |objects| ==> objects[i] == objects0[i] && Unattributed(objects[i], i, attributions))
    && (forall i :: 0 <= i < n && objects[i].root.Some? ==> objects[i].root == RightRoot(g, trees, objects0, i))
    && (lost == {} || (n > 0 && lost == {n - 1}))
  }

  /** Every settled declaration has the root it should have, with all its members. */
  ghost predicate AllPlaced(g: Graph, trees: TreeIndex, objects0: seq<Object>, objects: seq<Object>, n: nat) {
    n <= |objects| == |objects0| && forall i :: 0 <= i < n ==> objects[i].root == RightRoot(g, trees, objects0, i) && AllMembers(trees, objects[i])
  }

  /** One declaration's result leaves the others as they are. */
  lemma AttributedStep(g: Graph, trees: TreeIndex, objects0: seq<Object>, objects: seq<Object>, attributions: set<(nat, nat)>, n: nat,
                       r: Object, more: set<(nat, nat)>, lost: bool)
    requires AttributedBelow(g, trees, objects0, objects, attributions, n, {}) && n < |objects|
    requires Sound(g, trees, more, r, n, lost) && RootOf(r) == RootOf(objects[n])
    requires r.root.Some? ==> r.root == RightRoot(g, trees, objects0, n)
    requires OthersKept(attributions, more, n)
    ensures AttributedBelow(g, trees, objects0, objects[n := r], more, n + 1, if lost then {n} else {})
  {
    hide RightRoot;
    var after := objects[n := r];
    forall i | 0 <= i < n
      ensures Sound(g, trees, more, after[i], i, false)
    {
      assert Sound(g, trees, attributions, objects[i], i, false);
    }
    forall i | n + 1 <= i < |after|
      ensures Unattributed(after[i], i, more)
    {
      assert Unattributed(objects[i], i, attributions);
    }
  }

  /** A declaration that could not be put back shows nothing, whatever entries it left. */
  lemma UnstoredIsSound(g: Graph, trees: TreeIndex, attributions: set<(nat, nat)>, o: Object, position: nat, lost: bool)
    requires o.root.None? && o.through.None?
    ensures Sound(g, trees, attributions, o, position, lost)
  {
  }

  /** Settles one declaration and puts it back. */
  method SettleObject(g: Graph, trees: TreeIndex, ghost objects0: seq<Object>, objects0i: seq<Object>, i: nat, counts: map<nat, nat>,
                      attributions0: set<(nat, nat)>, control: WorkControl)
    returns (objects: seq<Object>, attributions: set<(nat, nat)>)
    requires i < |objects0i| && !control.failed && Counted(objects0, counts, |objects0|)
    requires AttributedBelow(g, trees, objects0, objects0i, attributions0, i, {})
    modifies control`stop, control`failed
    ensures control.Later()
    ensures AttributedBelow(g, trees, objects0, objects, attributions, i + 1, if MayLose(control) then {i} else {})
    ensures !control.stop && !control.failed && AllPlaced(g, trees, objects0, objects0i, i) ==> AllPlaced(g, trees, objects0, objects, i + 1)
  {
    hide Sound, AllMembers, OthersKept, CountRoot;
    var o := objects0i[i];
    assert Unattributed(o, i, attributions0) && o == objects0[i];
    var r, more := o, attributions0;
    var root := RootOf(o);
    var found := control.Access();
    if found && root.Some? && root.value in counts && counts[root.value] > 1 {
      r := o.(state := Unavailable);
      UnstoredIsSound(g, trees, more, r, i, MayLose(control));
      NothingChanged(attributions0, i);
      NoMembers(trees, r);
    } else {
      r, more := Attribute(g, trees, o, i, attributions0, control);
    }
    objects := objects0i;
    var stored := control.PutBack();
    if !stored {
      r := o;
      UnstoredIsSound(g, trees, more, r, i, MayLose(control));
    } else if MayLose(control) {
      LooseAnyway(g, trees, more, r, i);
    }
    AttributedStep(g, trees, objects0, objects0i, attributions0, i, r, more, MayLose(control));
    objects, attributions := objects0i[i := r], more;
  }

  lemma LooseAnyway(g: Graph, trees: TreeIndex, attributions: set<(nat, nat)>, o: Object, position: nat)
    requires exists lost :: Sound(g, trees, attributions, o, position, lost)
    ensures Sound(g, trees, attributions, o, position, true)
  {
  }

  lemma NothingChanged(attributions: set<(nat, nat)>, position: nat)
    ensures OthersKept(attributions, attributions, position)
  {
  }

  lemma NoMembers(trees: TreeIndex, o: Object)
    requires o.root.None?
    ensures AllMembers(trees, o)
  {
  }

  /** Settles every declaration. A root that several declarations claim is given to none. A
      stop, or a spill budget that runs out, leaves the later declarations unattributed, and the
      two indexes still agree. A store that fails otherwise can lose the entry about the last
      page accepted for the last declaration touched; then, and only then, the indexes differ,
      by that entry. */
  method ReconcileAttribution(g: Graph, trees: TreeIndex, objects0: seq<Object>, control: WorkControl)
    returns (objects: seq<Object>, attributions: set<(nat, nat)>, ghost lost: set<nat>)
    requires forall i :: 0 <= i < |objects0| ==> objects0[i].root.None? && objects0[i].through.None?
    modifies control`stop, control`failed
    ensures control.Later()
    ensures |objects| == |objects0| && Separate(trees, objects)
    ensures (lost != {} ==> MayLose(control)) && |lost| <= 1
    ensures !MayLose(control) ==> Agree(objects, trees.members, attributions)
    ensures forall position, page :: 0 <= position < |objects| && ShownFor(objects, attributions, page, position) ==>
      page in AttributedPages(trees.members, objects[position])
    ensures Agree(objects, trees.members, attributions) <==> forall i :: i in lost ==> i < |objects| && NothingLost(objects[i], i, attributions)
    ensures !control.stop && !control.failed ==> AllPlaced(g, trees, objects0, objects, |objects|)
  {
    hide Sound, AllMembers, CountRoot, RightRoot, Unattributed;
    objects, attributions, lost := objects0, {}, {};
    var counts, counted := CountRoots(objects0, control);
    ghost var n := 0;
    NothingSettled(g, trees, objects0);
    if counted {
      for i: nat := 0 to |objects|
        invariant control.Later()
        invariant n == i && AttributedBelow(g, trees, objects0, objects, attributions, i, lost)
        invariant lost != {} ==> MayLose(control)
        invariant !control.failed ==> Counted(objects0, counts, |objects0|)
        invariant !control.stop && !control.failed ==> AllPlaced(g, trees, objects0, objects, i)
      {
        var read := control.Access();
        if !read {
          break;
        }
        var stopped := control.Stopped();
        if stopped {
          break;
        }
        objects, attributions := SettleObject(g, trees, objects0, objects, i, counts, attributions, control);
        lost := if MayLose(control) then {i} else {};
        n := n + 1;
      }
    }
    Settled(g, trees, objects0, objects, attributions, n, lost);
  }

  lemma NothingSettled(g: Graph, trees: TreeIndex, objects: seq<Object>)
    requires forall i :: 0 <= i < |objects| ==> objects[i].root.None? && objects[i].through.None?
    ensures AttributedBelow(g, trees, objects, objects, {}, 0, {}) && AllPlaced(g, trees, objects, objects, 0)
  {
  }

  /** Attributed declarations have different roots, and those roots are nobody's child. */
  ghost predicate Separate(trees: TreeIndex, objects: seq<Object>) {
    && (forall i, j :: 0 <= i < j < |objects| && objects[i].root.Some? && objects[j].root.Some? ==> objects[i].root != objects[j].root)
    && (forall i :: 0 <= i < |objects| && objects[i].root.Some? ==> objects[i].root.value !in trees.childTargets)
  }

  lemma RootsApart(g: Graph, trees: TreeIndex, objects0: seq<Object>, objects: seq<Object>, i: nat, j: nat)
    requires i < j < |objects| == |objects0| && objects[i].root.Some? && objects[j].root.Some?
    requires objects[i].root == RightRoot(g, trees, objects0, i) && objects[j].root == RightRoot(g, trees, objects0, j)
    ensures objects[i].root != objects[j].root
  {
    if objects[i].root == objects[j].root {
      TwoClaims(objects0, objects[i].root.value, i, j);
    }
  }

  lemma Settled(g: Graph, trees: TreeIndex, objects0: seq<Object>, objects: seq<Object>, attributions: set<(nat, nat)>, n: nat, lost: set<nat>)
    requires AttributedBelow(g, trees, objects0, objects, attributions, n, lost)
    ensures Separate(trees, objects) && |lost| <= 1
    ensures forall position, page :: 0 <= position < |objects| && ShownFor(objects, attributions, page, position) ==>
      page in AttributedPages(trees.members, objects[position])
    ensures Agree(objects, trees.members, attributions) <==> forall i :: i in lost ==> i < |objects| && NothingLost(objects[i], i, attributions)
  {
    forall i | 0 <= i < |objects|
      ensures Sound(g, trees, attributions, objects[i], i, i in lost)
      ensures objects[i].root.Some? ==> i < n
    {
      assert i >= n ==> Unattributed(objects[i], i, attributions);
    }
    forall i, j | 0 <= i < j < |objects| && objects[i].root.Some? && objects[j].root.Some?
      ensures objects[i].root != objects[j].root
    {
      RootsApart(g, trees, objects0, objects, i, j);
    }
    hide Sound, RightRoot, Unattributed, NothingLost;
    forall i: nat, page: nat | i < |objects|
      ensures ShownFor(objects, attributions, page, i) ==> page in AttributedPages(trees.members, objects[i])
      ensures page in AttributedPages(trees.members, objects[i]) && (i !in lost || NothingLost(objects[i], i, attributions)) ==>
        ShownFor(objects, attributions, page, i)
    {
      SoundAgrees(g, trees, attributions, objects, i, i in lost, page);
    }
    forall i | i in lost && !NothingLost(objects[i], i, attributions)
      ensures !Agree(objects, trees.members, attributions)
    {
      LostDisagrees(g, trees, attributions, objects, i);
    }
  }

  /** What a lost entry leaves: table 0 has root page 2, and page 2 was accepted, but the entry
      that should list the table for page 2 was not written while the table itself was. */
  lemma LostEntry() returns (trees: TreeIndex, objects: seq<Object>)
    ensures |objects| == 1 && AttributedPages(trees.members, objects[0]) == {2} && !ShownFor(objects, {}, 2, 0)
    ensures !NothingLost(objects[0], 0, {}) && !Agree(objects, trees.members, {})
  {
    trees := TreeIndex(map[1 := false, 2 := false], {(1, 1), (2, 2)}, {});
    objects := [Object(Some(Table), Some(2), false, Some(2), Some(2), Complete)];
    assert (2, 2) in trees.members && objects[0].root.value == 2;
    assert 2 in AttributedPages(trees.members, objects[0]);
  }

  /** No page is attributed to two declarations, and every attributed page is reached from its
      declaration's root through retained relationships. */
  lemma PagesHaveOneObject(g: Graph, trees: TreeIndex, objects: seq<Object>, i: nat, j: nat, page: nat)
    requires FromClaims(g) && ExactIndex(g, trees)
    requires Separate(trees, objects) && i < |objects| && j < |objects|
    requires page in AttributedPages(trees.members, objects[i])
    ensures Reaches(TreeEdges(g.links), objects[i].root.value, page) && TreePage(g, page)
    ensures page in AttributedPages(trees.members, objects[j]) ==> i == j
  {
    ExactIsConnected(g, trees.members);
    hide ExactMembers, ExactRoots;
    assert (objects[i].root.value, page) in trees.members;
    if page in AttributedPages(trees.members, objects[j]) {
      var r, s := objects[i].root.value, objects[j].root.value;
      assert (s, page) in trees.members;
      UnnamedIsRoot(g, r);
      UnnamedIsRoot(g, s);
      ForestHasSingleParents(g.links);
      OneRootOnly(TreeEdges(g.links), r, s, page);
    }
  }

  /** Decoded declarations are kept until a stop, or until one cannot be stored. */
  method KeepObjects(decoded: seq<Object>, control: WorkControl) returns (objects: seq<Object>)
    modifies control`stop, control`failed
    ensures control.Later()
    ensures objects <= decoded
    ensures !control.stop && !control.failed ==> objects == decoded
  {
    objects := [];
    for n: nat := 0 to |decoded|
      invariant control.Later()
      invariant objects == decoded[..n]
    {
      var stopped := control.Stopped();
      if stopped {
        return;
      }
      var written := control.Access();
      if !written {
        return;
      }
      objects := objects + [decoded[n]];
    }
  }

  ghost predicate ShownTwice(trees: TreeIndex, objects: seq<Object>, i: nat, j: nat, page: nat)
    requires i < |objects| && j < |objects|
  {
    page in AttributedPages(trees.members, objects[i]) && page in AttributedPages(trees.members, objects[j])
  }

  /** What is published about the schema, however the attribution ended: no page has two
      declarations, an attributed page is reached from its declaration's root through retained
      relationships, and a page lists a declaration only if it is listed for it. */
  ghost predicate Published(g: Graph, trees: TreeIndex, objects: seq<Object>, attributions: set<(nat, nat)>) {
    && (forall i, j, page {:trigger ShownTwice(trees, objects, i, j, page)} ::
         0 <= i < |objects| && 0 <= j < |objects| && ShownTwice(trees, objects, i, j, page) ==> i == j)
    && (forall i, page {:trigger page in AttributedPages(trees.members, objects[i])} ::
         0 <= i < |objects| && page in AttributedPages(trees.members, objects[i]) ==> Reaches(TreeEdges(g.links), objects[i].root.value, page))
    && (forall position, page :: 0 <= position < |objects| && ShownFor(objects, attributions, page, position) ==>
         page in AttributedPages(trees.members, objects[position]))
  }

  lemma SeparateIsPublished(g: Graph, trees: TreeIndex, objects: seq<Object>, attributions: set<(nat, nat)>)
    requires FromClaims(g) && ExactIndex(g, trees) && Separate(trees, objects)
    requires forall position, page :: 0 <= position < |objects| && ShownFor(objects, attributions, page, position) ==>
      page in AttributedPages(trees.members, objects[position])
    ensures Published(g, trees, objects, attributions)
  {
    hide FromClaims, ExactIndex, Separate, ShownFor;
    forall i, page | 0 <= i < |objects| && page in AttributedPages(trees.members, objects[i])
      ensures Reaches(TreeEdges(g.links), objects[i].root.value, page)
    {
      PagesHaveOneObject(g, trees, objects, i, i, page);
    }
    forall i, j, page | 0 <= i < |objects| && 0 <= j < |objects| && ShownTwice(trees, objects, i, j, page)
      ensures i == j
    {
      PagesHaveOneObject(g, trees, objects, i, j, page);
    }
  }

  /** Schema attribution as a whole. The result is published even if the store failed or the
      work was stopped on the way. */
  method AttributeSchema(g: Graph, decoded: seq<Object>, control: WorkControl)
    returns (trees: TreeIndex, objects: seq<Object>, attributions: set<(nat, nat)>, available: bool, ghost lost: set<nat>)
    requires !control.stop && g.roles != [] ==> FromClaims(g)
    requires forall i :: 0 <= i < |decoded| ==> decoded[i].root.None? && decoded[i].through.None?
    modifies control`stop, control`failed
    ensures control.Later()
    ensures available ==> ExactIndex(g, trees) && Published(g, trees, objects, attributions)
    ensures (lost != {} ==> MayLose(control)) && |lost| <= 1
    ensures available && !MayLose(control) ==> Agree(objects, trees.members, attributions)
    ensures available ==>
      (Agree(objects, trees.members, attributions) <==> forall i :: i in lost ==> i < |objects| && NothingLost(objects[i], i, attributions))
    ensures available && !control.stop && !control.failed ==> |objects| == |decoded| && AllPlaced(g, trees, decoded, objects, |objects|)
    ensures !available ==> objects == [] && attributions == {}
    ensures !control.stop && !control.failed ==> (available <==> TreeBelow(g, |g.traversals|, 1) && HeldBelow(g, |g.traversals|, (1, 1)))
  {
    objects, attributions, lost, available := [], {}, {}, false;
    hide FromClaims, ExactMembers, ExactRoots, Published, Separate, Agree, AllPlaced, TreeBelow, HeldBelow;
    var indexed;
    trees, indexed := IndexTrees(g, control);
    if indexed {
      IndexMeaning(g, trees);
      available := HasSchemaTree(trees, control);
      if available {
        SchemaTreeHasRoles(g, trees);
        var kept := KeepObjects(decoded, control);
        objects, attributions, lost := ReconcileAttribution(g, trees, kept, control);
        SeparateIsPublished(g, trees, objects, attributions);
      }
    }
  }

  lemma IndexMeaning(g: Graph, trees: TreeIndex)
    ensures ExactIndex(g, trees) ==>
      && (1 in trees.roots <==> TreeBelow(g, |g.traversals|, 1)) && ((1, 1) in trees.members <==> HeldBelow(g, |g.traversals|, (1, 1)))
  {
  }

  /** Without settled roles no page is a member. */
  lemma SchemaTreeHasRoles(g: Graph, trees: TreeIndex)
    requires ExactIndex(g, trees) && (1, 1) in trees.members
    ensures g.roles != []
  {
    var t, k :| 0 <= t < |g.traversals| && 0 <= k && Holds(g, t, k, (1, 1));
    assert TreePage(g, g.traversals[t].prefix[k]);
  }
}
