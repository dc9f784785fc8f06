/** Relationships drawn from validated claims, and when the links of several phases form one
    forest. */
module LinkForest {
  import opened Wrappers
  import opened ClaimGraph

  /** `small` leaves out some elements of `large` and keeps the order of the rest. */
  ghost predicate Selected<T>(small: seq<T>, large: seq<T>) {
    if large == [] then small == []
    else
      var rest, last := large[..|large| - 1], large[|large| - 1];
      || Selected(small, rest)
      || (small != [] && small[|small| - 1] == last && Selected(small[..|small| - 1], rest))
  }

  lemma {:induction false} NothingSelected<T>(large: seq<T>)
    ensures Selected([], large)
  {
    if large != [] {
      NothingSelected(large[..|large| - 1]);
    }
  }

  lemma {:induction false} AllSelected<T>(large: seq<T>)
    ensures Selected(large, large)
  {
    if large != [] {
      AllSelected(large[..|large| - 1]);
    }
  }

  /** Two different positions of a selection come from two different positions. */
  lemma {:induction false} SelectedPair<T>(small: seq<T>, large: seq<T>, i: nat, j: nat) returns (a: nat, b: nat)
    requires Selected(small, large) && i <= j < |small|
    ensures a <= b < |large| && large[a] == small[i] && large[b] == small[j] && (i < j ==> a < b)
  {
    var rest := large[..|large| - 1];
    if Selected(small, rest) {
      a, b := SelectedPair(small, rest, i, j);
    } else if j < |small| - 1 {
      a, b := SelectedPair(small[..|small| - 1], rest, i, j);
    } else if i < j {
      a, b := SelectedPair(small[..|small| - 1], rest, i, i);
      b := |large| - 1;
    } else {
      a, b := |large| - 1, |large| - 1;
    }
  }

  lemma SelectedKeepsForest(small: seq<Relationship>, large: seq<Relationship>)
    requires Selected(small, large) && Forest(large)
    ensures Forest(small) && RelationshipEdges(small) <= RelationshipEdges(large)
  {
    forall i, j | 0 <= i < j < |small|
      ensures small[i].target != small[j].target
    {
      var a, b := SelectedPair(small, large, i, j);
    }
    forall e | e in RelationshipEdges(small)
      ensures e in RelationshipEdges(large)
    {
      var i :| 0 <= i < |small| && (small[i].source.page, small[i].target) == e;
      var a, b := SelectedPair(small, large, i, i);
    }
    AcyclicSubset(RelationshipEdges(small), RelationshipEdges(large));
  }

  lemma {:induction false} SelectedAppend<T>(a: seq<T>, b: seq<T>, c: seq<T>, d: seq<T>)
    requires Selected(a, b) && Selected(c, d)
    ensures Selected(a + c, b + d)
  {
    if d == [] {
      assert a + c == a && b + d == b;
    } else {
      var rest := d[..|d| - 1];
      assert (b + d)[..|b + d| - 1] == b + rest;
      if Selected(c, rest) {
        SelectedAppend(a, b, c, rest);
      } else {
        SelectedAppend(a, b, c[..|c| - 1], rest);
        assert (a + c)[..|a + c| - 1] == a + c[..|c| - 1];
      }
    }
  }

  // ---------------------------------------------------------------- one phase

  /** The relationships of single-owner claims are the claims' edges, one to a target. */
  lemma {:induction false} RelationshipsOfClaims(claims: seq<Claim>)
    ensures RelationshipEdges(Relationships(claims)) == ClaimEdges(claims)
    ensures forall k :: 0 <= k < |Relationships(claims)| ==> HasClaim(claims, Relationships(claims)[k])
    ensures SingleOwner(claims) ==> SingleOwnerLinks(Relationships(claims))
  {
    if claims != [] {
      var rest, last := claims[..|claims| - 1], claims[|claims| - 1];
      RelationshipsOfClaims(rest);
      var links, more := Relationships(rest), if last.IsLink() then [RelationshipOf(last)] else [];
      assert Relationships(claims) == links + more;
      EdgesAppend(links, more);
      assert claims == rest + [last];
      ClaimEdgesPush(rest, last);
      assert RelationshipEdges(more) == if last.IsLink() then {EdgeOf(last)} else {} by {
        assert last.IsLink() ==> (more[0].source.page, more[0].target) == EdgeOf(last);
      }
      forall k | 0 <= k < |links + more|
        ensures HasClaim(claims, (links + more)[k])
      {
        if k < |links| {
          assert HasClaim(rest, links[k]);
          var i :| 0 <= i < |rest| && rest[i].IsLink() && RelationshipOf(rest[i]) == links[k];
          assert claims[i] == rest[i];
        } else {
          assert claims[|claims| - 1].IsLink();
        }
      }
      if SingleOwner(claims) && last.IsLink() {
        forall k | 0 <= k < |links|
          ensures links[k].target != last.target.value
        {
          assert HasClaim(rest, links[k]);
          var i :| 0 <= i < |rest| && rest[i].IsLink() && RelationshipOf(rest[i]) == links[k];
          assert claims[i] == rest[i];
        }
      }
    }
  }

  ghost predicate HasClaim(claims: seq<Claim>, r: Relationship) {
    exists i :: 0 <= i < |claims| && claims[i].IsLink() && RelationshipOf(claims[i]) == r
  }

  lemma EdgesAppend(a: seq<Relationship>, b: seq<Relationship>)
    ensures RelationshipEdges(a + b) == RelationshipEdges(a) + RelationshipEdges(b)
  {
    forall e | e in RelationshipEdges(a) + RelationshipEdges(b)
      ensures e in RelationshipEdges(a + b)
    {
      if e in RelationshipEdges(a) {
        var i :| 0 <= i < |a| && (a[i].source.page, a[i].target) == e;
        assert (a + b)[i] == a[i];
      } else {
        var i :| 0 <= i < |b| && (b[i].source.page, b[i].target) == e;
        assert (a + b)[|a| + i] == b[i];
      }
    }
  }

  lemma ClaimEdgesPush(claims: seq<Claim>, c: Claim)
    ensures ClaimEdges(claims + [c]) == ClaimEdges(claims) + if c.IsLink() then {EdgeOf(c)} else {}
  {
    var all := claims + [c];
    forall e | e in ClaimEdges(claims)
      ensures e in ClaimEdges(all)
    {
      var i :| 0 <= i < |claims| && claims[i].IsLink() && EdgeOf(claims[i]) == e;
      assert all[i] == claims[i];
    }
    assert c.IsLink() ==> all[|claims|].IsLink();
  }

  // ---------------------------------------------------------------- several phases

  /** A level for every page, such that an edge of a layer enters pages of the layer's own
      level and never leaves a higher one. */
  ghost predicate Layer(edges: set<Edge>, level: nat -> nat, own: nat) {
    forall e :: e in edges ==> level(e.1) == own && level(e.0) <= own
  }

  lemma LevelsRise(edges: set<Edge>, level: nat -> nat, path: seq<nat>, k: nat)
    requires forall e :: e in edges ==> level(e.0) <= level(e.1)
    requires IsPath(edges, path) && k < |path|
    ensures level(path[0]) <= level(path[k]) <= level(path[|path| - 1])
  {
    PrefixRises(edges, level, path, 0, k);
    PrefixRises(edges, level, path, k, |path| - 1);
  }

  lemma {:induction false} PrefixRises(edges: set<Edge>, level: nat -> nat, path: seq<nat>, from: nat, k: nat)
    requires forall e :: e in edges ==> level(e.0) <= level(e.1)
    requires IsPath(edges, path) && from <= k < |path|
    ensures level(path[from]) <= level(path[k])
  {
    if from < k {
      PrefixRises(edges, level, path, from, k - 1);
      assert (path[k - 1], path[k - 1 + 1]) in edges;
    }
  }

  /** A cycle would stay on one level, hence in one layer. */
  lemma LayeredAcyclic(a: set<Edge>, b: set<Edge>, c: set<Edge>, level: nat -> nat)
    requires Acyclic(a) && Acyclic(b) && Acyclic(c)
    requires Layer(a, level, 0) && Layer(b, level, 1) && Layer(c, level, 2)
    ensures Acyclic(a + b + c)
  {
    var all := a + b + c;
    forall path | IsPath(all, path) && |path| >= 2
      ensures path[0] != path[|path| - 1]
    {
      if path[0] == path[|path| - 1] {
        var own := level(path[0]);
        var layer := if own == 0 then a else if own == 1 then b else c;
        forall k | 0 <= k < |path| - 1
          ensures (path[k], path[k + 1]) in layer
        {
          LevelsRise(all, level, path, k + 1);
          assert (path[k], path[k + 1]) in all;
        }
        assert IsPath(layer, path);
      }
    }
  }

  lemma LayeredForest(a: seq<Relationship>, b: seq<Relationship>, c: seq<Relationship>, level: nat -> nat)
    requires Forest(a) && Forest(b) && Forest(c)
    requires Layer(RelationshipEdges(a), level, 0) && Layer(RelationshipEdges(b), level, 1) && Layer(RelationshipEdges(c), level, 2)
    ensures Forest(a + b + c)
  {
    LayeredAcyclic(RelationshipEdges(a), RelationshipEdges(b), RelationshipEdges(c), level);
    EdgesAppend(a, b);
    EdgesAppend(a + b, c);
    LayerTargets(a, level, 0);
    LayerTargets(b, level, 1);
    LayerTargets(c, level, 2);
  }

  lemma LayerTargets(links: seq<Relationship>, level: nat -> nat, own: nat)
    requires Layer(RelationshipEdges(links), level, own)
    ensures forall k :: 0 <= k < |links| ==> level(links[k].target) == own
  {
    forall k | 0 <= k < |links|
      ensures level(links[k].target) == own
    {
      assert (links[k].source.page, links[k].target) in RelationshipEdges(links);
    }
  }
}
