/** The index from pages to the claims that name them, whatever their verdicts. */
module ClaimTargets {
  import opened Wrappers
  import opened Control
  import opened ClaimGraph
  import opened ClaimTables

  /** The positions, among the first `n`, of the claims that name `page`. */
  function Naming(claims: seq<Claim>, page: nat, n: nat): (r: seq<nat>)
    requires n <= |claims|
  {
    if n == 0 then []
    else Naming(claims, page, n - 1) + (if claims[n - 1].target == Some(page) then [n - 1] else [])
  }

  /** `r` lists, in order, the positions below `n` of the claims that name `page`. */
  ghost predicate NamingPositions(claims: seq<Claim>, page: nat, n: nat, r: seq<nat>) {
    && n <= |claims|
    && (forall k :: 0 <= k < |r| ==> r[k] < n && claims[r[k]].target == Some(page))
    && (forall a, b :: 0 <= a < b < |r| ==> r[a] < r[b])
    && (forall i :: 0 <= i < n && claims[i].target == Some(page) ==> i in r)
  }

  lemma {:induction false} NamingMeaning(claims: seq<Claim>, page: nat, n: nat)
    requires n <= |claims|
    ensures NamingPositions(claims, page, n, Naming(claims, page, n))
  {
    if n > 0 {
      NamingMeaning(claims, page, n - 1);
      if claims[n - 1].target == Some(page) {
        OneMoreName(claims, page, n, Naming(claims, page, n - 1));
      }
    }
  }

  lemma OneMoreName(claims: seq<Claim>, page: nat, n: nat, before: seq<nat>)
    requires 0 < n <= |claims| && claims[n - 1].target == Some(page)
    requires NamingPositions(claims, page, n - 1, before)
    ensures NamingPositions(claims, page, n, before + [n - 1])
  {
    forall i | 0 <= i < n && claims[i].target == Some(page)
      ensures i in before + [n - 1]
    {
      if i < n - 1 {
        assert i in before;
      }
    }
  }

  /** The index as it is built up, claim by claim. */
  function NamingIndex(claims: seq<Claim>, n: nat): map<nat, seq<nat>>
    requires n <= |claims|
  {
    if n == 0 then map[]
    else
      var prior := NamingIndex(claims, n - 1);
      if claims[n - 1].target.Some? then
        var page := claims[n - 1].target.value;
        prior[page := (if page in prior then prior[page] else []) + [n - 1]]
      else prior
  }

  lemma {:induction false} NamingIndexMeaning(claims: seq<Claim>, n: nat, page: nat)
    requires n <= |claims|
    ensures (if page in NamingIndex(claims, n) then NamingIndex(claims, n)[page] else []) == Naming(claims, page, n)
    ensures page in NamingIndex(claims, n) <==> Naming(claims, page, n) != []
  {
    if n > 0 {
      NamingIndexMeaning(claims, n - 1, page);
    }
  }

  method IndexClaimTargets(table: ClaimTable) returns (incoming: map<nat, seq<nat>>, complete: bool)
    modifies table.control`stop, table.control`failed
    ensures table.control.Later()
    ensures !complete ==> table.control.stop
    ensures complete && !table.control.failed ==> incoming == NamingIndex(table.claims, |table.claims|)
  {
    incoming, complete := map[], false;
    for n: nat := 0 to |table.claims|
      invariant table.control.Later()
      invariant !table.control.failed ==> incoming == NamingIndex(table.claims, n)
    {
      var read := table.control.Access();
      if !read {
        break;
      }
      var stopped := table.control.Stopped();
      if stopped {
        return;
      }
      var target := table.claims[n].target;
      if target.Some? {
        var admitted := table.control.ReserveMemory();
        stopped := table.control.Stopped();
        if stopped {
          return;
        }
        incoming := incoming[target.value := (if target.value in incoming then incoming[target.value] else []) + [n]];
      }
    }
    complete := true;
  }
}
