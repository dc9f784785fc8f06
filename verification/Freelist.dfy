/** The freelist walk (section 1.5 of the SQLite file format): trunk pages in a chain, each
    listing leaf pages, read from a file that may be damaged. */
module Freelist {
  import opened Wrappers
  import opened Control
  import opened ClaimGraph
  import opened ClaimTables
  import opened Inventory
  import opened FileGeometry

  datatype Reason = Complete | InvalidStructure | CoverageStop | BudgetStop | Interrupted | Unreadable | NotInspected

  // ---------------------------------------------------------------- a sound freelist

  /** The file as the walk reads it: the word at an offset of a page, if it can be read. */
  type Words = (nat, nat) -> Option<nat>

  function WordAt(words: Words, page: nat, offset: nat): nat {
    words(page, offset).GetOr(0)
  }

  function Leaves(words: Words, trunk: nat, n: nat): (r: seq<nat>)
    ensures |r| == n
  {
    if n == 0 then [] else Leaves(words, trunk, n - 1) + [WordAt(words, trunk, 8 + 4 * (n - 1))]
  }

  /** The pages that a chain of trunks puts on the freelist. */
  function ListedPages(words: Words, trunks: seq<nat>): seq<nat> {
    if trunks == [] then []
    else
      var last := trunks[|trunks| - 1];
      ListedPages(words, trunks[..|trunks| - 1]) + [last] + Leaves(words, last, WordAt(words, last, 4))
  }

  /** `trunks` starts where the header says and each trunk points at the next. */
  ghost predicate TrunkChain(words: Words, first: nat, trunks: seq<nat>) {
    && (trunks != [] ==> trunks[0] == first)
    && (forall k :: 0 <= k < |trunks| - 1 ==> WordAt(words, trunks[k], 0) == trunks[k + 1])
  }

  function NextAfter(words: Words, first: nat, trunks: seq<nat>): nat {
    if trunks == [] then first else WordAt(words, trunks[|trunks| - 1], 0)
  }

  ghost predicate Distinct(pages: seq<nat>) {
    forall a, b :: 0 <= a < b < |pages| ==> pages[a] != pages[b]
  }

  ghost predicate Free(g: Geometry, page: nat)
    requires g.Valid()
  {
    2 <= page <= g.pageCount && ReservedRole(g, page).None?
  }

  /** How many leaf pointers fit on a trunk page. */
  function Capacity(g: Geometry): nat
    requires g.Valid()
  {
    g.usableSize / 4 - 2
  }

  ghost predicate Fits(g: Geometry, words: Words, trunks: seq<nat>)
    requires g.Valid()
  {
    forall k :: 0 <= k < |trunks| ==> WordAt(words, trunks[k], 4) <= Capacity(g)
  }

  /** The freelist of an undamaged file: the chain ends at zero, every listed page is in
      range, unreserved and listed once, no trunk lists more than fits, and the header counts
      them. */
  ghost predicate SoundFreelist(g: Geometry, words: Words, first: nat, declared: nat, trunks: seq<nat>)
    requires g.Valid()
  {
    && TrunkChain(words, first, trunks) && NextAfter(words, first, trunks) == 0 && Fits(g, words, trunks)
    && Distinct(ListedPages(words, trunks))
    && (forall k :: 0 <= k < |ListedPages(words, trunks)| ==> Free(g, ListedPages(words, trunks)[k]))
    && |ListedPages(words, trunks)| == declared
  }

  // ---------------------------------------------------------------- when there is none

  /** Every word within the pages of the file, and every listed page, can be read. */
  ghost predicate Readable(g: Geometry, pages: seq<PageInfo>, words: Words) {
    && (forall page: nat, offset: nat :: 1 <= page <= g.pageCount && offset + 4 <= g.usableSize ==> words(page, offset).Some?)
    && (forall k :: 0 <= k < |pages| ==> !pages[k].readFailed)
  }

  ghost predicate NeverSound(g: Geometry, words: Words, first: nat)
    requires g.Valid()
  {
    forall declared, trunks :: !SoundFreelist(g, words, first, declared, trunks)
  }

  ghost predicate HasSoundFreelist(g: Geometry, words: Words, first: nat, declared: nat)
    requires g.Valid()
  {
    exists trunks :: SoundFreelist(g, words, first, declared, trunks)
  }

  /** A listed page that cannot be on a freelist, or is listed before. */
  ghost predicate Faulty(g: Geometry, accepted: set<nat>, page: nat)
    requires g.Valid()
  {
    !Free(g, page) || page in accepted
  }

  /** What the walk has read: a part of the chain, and the last trunk up to `leaves`; every
      accepted page was listed there. */
  ghost predicate Ledger(g: Geometry, words: Words, first: nat, trunks: seq<nat>, leaves: nat, accepted: set<nat>)
    requires g.Valid()
  {
    && TrunkChain(words, first, trunks) && (forall k :: 0 <= k < |trunks| ==> Free(g, trunks[k]))
    && (forall k :: 0 <= k < |trunks| - 1 ==> WordAt(words, trunks[k], 4) <= Capacity(g))
    && leaves <= Capacity(g)
    && (forall p :: p in accepted ==> p in Taken(words, trunks, leaves))
  }

  /** A chain that does not end after `n` trunks goes on where they point. */
  lemma NextInside(words: Words, first: nat, chain: seq<nat>, n: nat)
    requires TrunkChain(words, first, chain) && NextAfter(words, first, chain) == 0 && n <= |chain|
    ensures NextAfter(words, first, chain[..n]) != 0 ==> n < |chain| && chain[n] == NextAfter(words, first, chain[..n])
    ensures n < |chain| ==> chain[..n + 1] == chain[..n] + [chain[n]]
  {
    if n == |chain| {
      assert chain[..n] == chain;
    } else if n > 0 {
      assert chain[..n][n - 1] == chain[n - 1];
      assert WordAt(words, chain[n - 1], 0) == chain[n - 1 + 1];
    }
  }

  /** A sound chain goes the same way for as long as the walk has read. */
  lemma {:induction false} SoundExtends(g: Geometry, words: Words, first: nat, declared: nat, sound: seq<nat>, trunks: seq<nat>)
    requires g.Valid() && SoundFreelist(g, words, first, declared, sound)
    requires TrunkChain(words, first, trunks) && forall k :: 0 <= k < |trunks| ==> Free(g, trunks[k])
    ensures |trunks| <= |sound| && sound[..|trunks|] == trunks
  {
    if trunks != [] {
      var n := |trunks| - 1;
      SoundExtends(g, words, first, declared, sound, trunks[..n]);
      assert trunks[n] == NextAfter(words, first, trunks[..n]) != 0;
      NextInside(words, first, sound, n);
    }
  }

  lemma {:induction false} ListedPrefix(words: Words, trunks: seq<nat>, n: nat)
    requires n <= |trunks|
    ensures ListedPages(words, trunks[..n]) <= ListedPages(words, trunks)
  {
    if n < |trunks| {
      var rest := trunks[..|trunks| - 1];
      ListedPrefix(words, rest, n);
      assert rest[..n] == trunks[..n];
    } else {
      assert trunks[..n] == trunks;
    }
  }

  lemma {:induction false} LeavesPrefix(words: Words, trunk: nat, a: nat, b: nat)
    requires a <= b
    ensures Leaves(words, trunk, a) <= Leaves(words, trunk, b)
  {
    if a < b {
      LeavesPrefix(words, trunk, a, b - 1);
    }
  }

  /** A page listed after the accepted ones is on every sound freelist, so it must be free and
      new. */
  lemma ListedNext(g: Geometry, words: Words, first: nat, declared: nat, sound: seq<nat>, taken: seq<nat>, accepted: set<nat>, page: nat)
    requires g.Valid() && SoundFreelist(g, words, first, declared, sound)
    requires taken + [page] <= ListedPages(words, sound) && forall p :: p in accepted ==> p in taken
    ensures !Faulty(g, accepted, page)
  {
    var all := ListedPages(words, sound);
    assert all[|taken|] == (taken + [page])[|taken|] == page;
    forall i | 0 <= i < |taken|
      ensures taken[i] != page
    {
      assert all[i] == (taken + [page])[i] && all[i] != all[|taken|];
    }
    assert page !in taken;
  }

  lemma LeafSpoils(g: Geometry, words: Words, first: nat, trunks: seq<nat>, leaf: nat, accepted: set<nat>)
    requires g.Valid() && Ledger(g, words, first, trunks, leaf, accepted) && trunks != [] && leaf < LeafCount(words, trunks)
    requires Faulty(g, accepted, WordAt(words, trunks[|trunks| - 1], 8 + 4 * leaf))
    ensures NeverSound(g, words, first)
  {
    var last := trunks[|trunks| - 1];
    var page := WordAt(words, last, 8 + 4 * leaf);
    LeavesPrefix(words, last, leaf + 1, LeafCount(words, trunks));
    assert Taken(words, trunks, leaf) + [page] == Taken(words, trunks, leaf + 1);
    assert Taken(words, trunks, leaf + 1) <= ListedPages(words, trunks);
    forall declared, sound
      ensures !SoundFreelist(g, words, first, declared, sound)
    {
      if SoundFreelist(g, words, first, declared, sound) {
        SoundExtends(g, words, first, declared, sound, trunks);
        ListedPrefix(words, sound, |trunks|);
        ListedNext(g, words, first, declared, sound, Taken(words, trunks, leaf), accepted, page);
      }
    }
  }

  lemma TrunkSpoils(g: Geometry, words: Words, first: nat, trunks: seq<nat>, accepted: set<nat>)
    requires g.Valid() && Ledger(g, words, first, trunks, LeafCount(words, trunks), accepted)
    requires NextAfter(words, first, trunks) != 0 && Faulty(g, accepted, NextAfter(words, first, trunks))
    ensures NeverSound(g, words, first)
  {
    var page, n := NextAfter(words, first, trunks), |trunks|;
    assert Taken(words, trunks, LeafCount(words, trunks)) == ListedPages(words, trunks);
    forall declared, sound
      ensures !SoundFreelist(g, words, first, declared, sound)
    {
      if SoundFreelist(g, words, first, declared, sound) {
        SoundExtends(g, words, first, declared, sound, trunks);
        NextInside(words, first, sound, n);
        ListedPrefix(words, sound, n + 1);
        assert (trunks + [page])[..n] == trunks;
        assert ListedPages(words, trunks) + [page] <= ListedPages(words, trunks + [page]);
        ListedNext(g, words, first, declared, sound, ListedPages(words, trunks), accepted, page);
      }
    }
  }

  lemma CountSpoils(g: Geometry, words: Words, first: nat, trunks: seq<nat>, accepted: set<nat>)
    requires g.Valid() && Ledger(g, words, first, trunks, 0, accepted)
    requires trunks != [] && LeafCount(words, trunks) > Capacity(g)
    ensures NeverSound(g, words, first)
  {
    forall declared, sound
      ensures !SoundFreelist(g, words, first, declared, sound)
    {
      if SoundFreelist(g, words, first, declared, sound) {
        SoundCount(g, words, first, declared, sound, trunks);
      }
    }
  }

  lemma SoundCount(g: Geometry, words: Words, first: nat, declared: nat, sound: seq<nat>, trunks: seq<nat>)
    requires g.Valid() && SoundFreelist(g, words, first, declared, sound) && trunks != []
    requires TrunkChain(words, first, trunks) && (forall k :: 0 <= k < |trunks| ==> Free(g, trunks[k]))
    ensures LeafCount(words, trunks) <= Capacity(g)
  {
    SoundExtends(g, words, first, declared, sound, trunks);
    assert sound[|trunks| - 1] == sound[..|trunks|][|trunks| - 1];
  }

  /** A leaf pointer more has been read; its page may have been accepted. */
  lemma LedgerLeaf(g: Geometry, words: Words, first: nat, trunks: seq<nat>, leaf: nat, accepted: set<nat>)
    requires g.Valid() && Ledger(g, words, first, trunks, leaf, accepted) && trunks != [] && leaf < Capacity(g)
    ensures Ledger(g, words, first, trunks, leaf + 1, accepted)
    ensures Ledger(g, words, first, trunks, leaf + 1, accepted + {WordAt(words, trunks[|trunks| - 1], 8 + 4 * leaf)})
  {
    assert Taken(words, trunks, leaf + 1) == Taken(words, trunks, leaf) + [WordAt(words, trunks[|trunks| - 1], 8 + 4 * leaf)];
  }

  /** The next trunk of the chain was accepted. */
  lemma LedgerTrunk(g: Geometry, words: Words, first: nat, trunks: seq<nat>, accepted: set<nat>)
    requires g.Valid() && Ledger(g, words, first, trunks, LeafCount(words, trunks), accepted)
    requires Free(g, NextAfter(words, first, trunks))
    ensures Ledger(g, words, first, trunks + [NextAfter(words, first, trunks)], 0, accepted + {NextAfter(words, first, trunks)})
  {
    var page := NextAfter(words, first, trunks);
    var next := trunks + [page];
    assert next[..|trunks|] == trunks;
    assert Taken(words, trunks, LeafCount(words, trunks)) == ListedPages(words, trunks);
    assert Taken(words, next, 0) == ListedPages(words, trunks) + [page];
  }

  /** The header cannot count two different numbers of pages. */
  lemma OneCount(g: Geometry, words: Words, first: nat, m: nat, n: nat, a: seq<nat>, b: seq<nat>)
    requires g.Valid() && SoundFreelist(g, words, first, m, a) && SoundFreelist(g, words, first, n, b)
    ensures a == b && m == n
  {
    TrunksAreFree(g, words, a);
    TrunksAreFree(g, words, b);
    SoundExtends(g, words, first, m, a, b);
    SoundExtends(g, words, first, n, b, a);
    assert a[..|a|] == a && b[..|b|] == b;
  }

  lemma Miscounted(g: Geometry, words: Words, first: nat, counted: nat, declared: nat, trunks: seq<nat>)
    requires g.Valid() && SoundFreelist(g, words, first, counted, trunks) && declared != counted
    ensures !HasSoundFreelist(g, words, first, declared)
  {
    if HasSoundFreelist(g, words, first, declared) {
      var other :| SoundFreelist(g, words, first, declared, other);
      OneCount(g, words, first, counted, declared, trunks, other);
    }
  }

  lemma {:induction false} TrunksAreFree(g: Geometry, words: Words, trunks: seq<nat>)
    requires g.Valid() && forall k :: 0 <= k < |ListedPages(words, trunks)| ==> Free(g, ListedPages(words, trunks)[k])
    ensures forall k :: 0 <= k < |trunks| ==> Free(g, trunks[k])
  {
    if trunks != [] {
      var rest, last := trunks[..|trunks| - 1], trunks[|trunks| - 1];
      var before, all := ListedPages(words, rest), ListedPages(words, trunks);
      assert all == before + [last] + Leaves(words, last, WordAt(words, last, 4));
      assert all[|before|] == last;
      assert forall k :: 0 <= k < |before| ==> before[k] == all[k];
      TrunksAreFree(g, words, rest);
    }
  }

  // ---------------------------------------------------------------- what the walk keeps

  datatype State = State(claims: seq<Claim>, incoming: map<nat, nat>, overrides: map<nat, AllocationRole>, accepted: seq<nat>)

  ghost predicate AcceptedPage(g: Geometry, pages: seq<PageInfo>, s: State, p: nat)
    requires g.Valid()
  {
    && Free(g, p) && Listed(pages, p) && p in s.overrides
    && p in s.incoming && s.incoming[p] < |s.claims| && s.claims[s.incoming[p]].target == Some(p)
  }

  ghost predicate ClaimInOrder(s: State, i: nat)
    requires i < |s.claims|
  {
    var c := s.claims[i];
    && (c.kind.FreelistTrunk? || c.kind.FreelistLeaf?)
    && c.source.Page?
    && (if c.source.page == 1 then i == 0 else c.source.page in s.incoming && s.incoming[c.source.page] < i)
    && (c.state.Validated? ==> c.target.Some? && c.target.value in s.incoming && s.incoming[c.target.value] == i)
  }

  /** Every accepted page was accepted once, through one claim, and a claim starts on the
      header or on a page accepted earlier. */
  ghost predicate Ordered(g: Geometry, pages: seq<PageInfo>, s: State)
    requires g.Valid()
  {
    && Distinct(s.accepted)
    && s.incoming.Keys == PagesOf(s.accepted) && s.overrides.Keys == PagesOf(s.accepted)
    && (forall p {:trigger AcceptedPage(g, pages, s, p)} :: p in s.incoming ==> AcceptedPage(g, pages, s, p))
    && (forall i {:trigger ClaimInOrder(s, i)} :: 0 <= i < |s.claims| ==> ClaimInOrder(s, i))
  }

  /** What the phase promises of its links, however it ended. */
  ghost predicate FreelistLinks(g: Geometry, pages: seq<PageInfo>, overrides: map<nat, AllocationRole>, claims: seq<Claim>)
    requires g.Valid()
  {
    && SingleOwner(claims) && Acyclic(ClaimEdges(claims))
    && (forall i :: 0 <= i < |claims| ==> FreelistLink(g, pages, overrides, claims[i]))
  }

  ghost predicate FreelistLink(g: Geometry, pages: seq<PageInfo>, overrides: map<nat, AllocationRole>, c: Claim)
    requires g.Valid()
  {
    && (c.kind.FreelistTrunk? || c.kind.FreelistLeaf?) && c.source.Page?
    && (c.source.page == 1 || c.source.page in overrides)
    && (c.IsLink() ==> c.target.value in overrides)
  }

  lemma {:induction false} OrderRises(g: Geometry, pages: seq<PageInfo>, s: State, path: seq<nat>, k: nat)
    requires g.Valid() && Ordered(g, pages, s)
    requires IsPath(ClaimEdges(s.claims), path) && path[0] in s.incoming
    requires k < |path|
    ensures path[k] in s.incoming && (k > 0 ==> s.incoming[path[0]] < s.incoming[path[k]])
  {
    if k > 0 {
      OrderRises(g, pages, s, path, k - 1);
      assert (path[k - 1], path[k - 1 + 1]) in ClaimEdges(s.claims);
      var i :| 0 <= i < |s.claims| && s.claims[i].IsLink() && EdgeOf(s.claims[i]) == (path[k - 1], path[k]);
      assert ClaimInOrder(s, i);
      assert AcceptedPage(g, pages, s, path[k - 1]);
    }
  }

  /** A page is entered by the one claim that accepted it, and later than its source. */
  lemma OrderedIsForest(g: Geometry, pages: seq<PageInfo>, s: State)
    requires g.Valid() && Ordered(g, pages, s)
    ensures FreelistLinks(g, pages, s.overrides, s.claims)
  {
    var edges := ClaimEdges(s.claims);
    forall i, j | 0 <= i < j < |s.claims| && s.claims[i].IsLink() && s.claims[j].IsLink()
      ensures s.claims[i].target != s.claims[j].target
    {
      assert ClaimInOrder(s, i) && ClaimInOrder(s, j);
    }
    forall path | IsPath(edges, path) && |path| >= 2
      ensures path[0] != path[|path| - 1]
    {
      var top := |path| - 1;
      assert (path[top - 1], path[top - 1 + 1]) in edges;
      var i :| 0 <= i < |s.claims| && s.claims[i].IsLink() && EdgeOf(s.claims[i]) == (path[top - 1], path[top]);
      assert ClaimInOrder(s, i);
      if path[0] == path[top] {
        OrderRises(g, pages, s, path, top);
        assert false;
      }
    }
    forall i | 0 <= i < |s.claims|
      ensures FreelistLink(g, pages, s.overrides, s.claims[i])
    {
      assert ClaimInOrder(s, i);
    }
  }

  /** Accepted pages fit the file without page 1. */
  lemma AcceptedFit(g: Geometry, pages: seq<PageInfo>, s: State)
    requires g.Valid() && Ordered(g, pages, s)
    ensures |s.accepted| <= g.pageCount - 1
    ensures |s.accepted| <= |pages|
  {
    forall k | 0 <= k < |s.accepted|
      ensures s.accepted[k] in PagesUpTo(g.pageCount) - {1} && s.accepted[k] in PagesUpTo(|pages|)
    {
      assert s.accepted[k] in PagesOf(s.accepted);
      assert AcceptedPage(g, pages, s, s.accepted[k]);
    }
    DistinctFit(s.accepted, PagesUpTo(g.pageCount) - {1});
    DistinctFit(s.accepted, PagesUpTo(|pages|));
  }

  lemma AddClaim(g: Geometry, pages: seq<PageInfo>, s: State, c: Claim)
    requires g.Valid() && Ordered(g, pages, s)
    requires (c.kind.FreelistTrunk? || c.kind.FreelistLeaf?) && c.source.Page? && !c.state.Validated?
    requires if c.source.page == 1 then s.claims == [] else c.source.page in s.incoming
    ensures Ordered(g, pages, s.(claims := s.claims + [c]))
  {
    var t := s.(claims := s.claims + [c]);
    forall p | p in t.incoming
      ensures AcceptedPage(g, pages, t, p)
    {
      assert AcceptedPage(g, pages, s, p);
    }
    forall i | 0 <= i < |t.claims|
      ensures ClaimInOrder(t, i)
    {
      if i < |s.claims| {
        assert ClaimInOrder(s, i);
      } else if c.source.page != 1 {
        assert AcceptedPage(g, pages, s, c.source.page);
      }
    }
  }

  lemma SetVerdict(g: Geometry, pages: seq<PageInfo>, s: State, i: nat, state: RelationshipState, stop: Option<StopReason>)
    requires g.Valid() && Ordered(g, pages, s) && i < |s.claims|
    requires state.Validated? ==> s.claims[i].state.Validated?
    ensures Ordered(g, pages, s.(claims := s.claims[i := s.claims[i].(state := state, stop := stop)]))
  {
    var t := s.(claims := s.claims[i := s.claims[i].(state := state, stop := stop)]);
    forall p | p in t.incoming
      ensures AcceptedPage(g, pages, t, p)
    {
      assert AcceptedPage(g, pages, s, p);
    }
    forall j | 0 <= j < |t.claims|
      ensures ClaimInOrder(t, j)
    {
      assert ClaimInOrder(s, j);
    }
  }

  function WithAccepted(s: State, i: nat, page: nat, role: AllocationRole): State
    requires i < |s.claims|
  {
    State(s.claims[i := s.claims[i].(state := Validated)], s.incoming[page := i], s.overrides[page := role], s.accepted + [page])
  }

  lemma Accept(g: Geometry, pages: seq<PageInfo>, s: State, i: nat, page: nat, role: AllocationRole)
    requires g.Valid() && Ordered(g, pages, s) && i < |s.claims|
    requires s.claims[i].target == Some(page) && page !in s.incoming
    requires Free(g, page) && Listed(pages, page)
    ensures Ordered(g, pages, WithAccepted(s, i, page, role))
  {
    var t := WithAccepted(s, i, page, role);
    assert PagesOf(t.accepted) == PagesOf(s.accepted) + {page};
    forall p | p in t.incoming
      ensures AcceptedPage(g, pages, t, p)
    {
      assert p != page ==> AcceptedPage(g, pages, s, p);
    }
    forall j | 0 <= j < |t.claims|
      ensures ClaimInOrder(t, j)
    {
      assert ClaimInOrder(s, j);
    }
    assert page !in s.accepted by {
      assert page !in PagesOf(s.accepted);
    }
  }

  /** What the walk never takes back: which claims were made, and which claim accepted which
      page. */
  ghost predicate Grown(s: State, t: State) {
    && |s.claims| <= |t.claims|
    && (forall i :: 0 <= i < |s.claims| ==>
      && t.claims[i].id == s.claims[i].id && t.claims[i].kind == s.claims[i].kind
      && t.claims[i].source == s.claims[i].source && t.claims[i].target == s.claims[i].target)
    && (forall p :: p in s.incoming ==> p in t.incoming && t.incoming[p] == s.incoming[p])
    && s.accepted <= t.accepted
  }

  lemma GrownTwice(s: State, t: State, u: State)
    requires Grown(s, t) && Grown(t, u)
    ensures Grown(s, u)
  {
  }

  /** Claims are named after the header page and the trunks read so far, each name once. */
  ghost predicate NamedIn(claims: seq<Claim>, trunks: seq<nat>) {
    && UniqueNames(claims)
    && (forall i :: 0 <= i < |claims| ==> claims[i].id.FreelistId? && (claims[i].id.page == 1 || claims[i].id.page in trunks))
  }

  ghost predicate FreelistNames(claims: seq<Claim>) {
    UniqueNames(claims) && forall i :: 0 <= i < |claims| ==> claims[i].id.FreelistId?
  }

  /** The same while the last trunk has been read up to `leaves`. */
  ghost predicate Named(claims: seq<Claim>, trunks: seq<nat>, leaves: nat) {
    && trunks != [] && NamedIn(claims, trunks)
    && (forall i :: 0 <= i < |claims| && claims[i].id.page == trunks[|trunks| - 1] ==> claims[i].id.offset < 8 + 4 * leaves)
  }

  lemma NamesKept(s: State, t: State, trunks: seq<nat>, leaves: nat)
    requires Grown(s, t) && |t.claims| == |s.claims|
    ensures NamedIn(s.claims, trunks) ==> NamedIn(t.claims, trunks)
    ensures Named(s.claims, trunks, leaves) ==> Named(t.claims, trunks, leaves)
  {
  }

  lemma NameLeaf(claims: seq<Claim>, trunks: seq<nat>, leaf: nat, value: nat)
    requires Named(claims, trunks, leaf)
    ensures Named(claims + [WordClaim(trunks[|trunks| - 1], 8 + 4 * leaf, value, FreelistLeaf)], trunks, leaf + 1)
  {
  }

  /** A trunk that was just accepted has named nothing yet. */
  lemma NameNext(claims: seq<Claim>, trunks: seq<nat>, value: nat)
    requires trunks != [] && Distinct(trunks) && trunks[|trunks| - 1] != 1 && NamedIn(claims, trunks[..|trunks| - 1])
    ensures Named(claims + [WordClaim(trunks[|trunks| - 1], 0, value, FreelistTrunk)], trunks, 0)
  {
  }

  /** The trunks accepted so far, each named by the trunk before it. */
  ghost predicate TrunkStep(s: State, prefix: seq<nat>, k: nat)
    requires k < |prefix|
  {
    && prefix[k] in s.incoming && s.incoming[prefix[k]] < |s.claims|
    && s.claims[s.incoming[prefix[k]]].source == Page(if k == 0 then 1 else prefix[k - 1])
    && s.claims[s.incoming[prefix[k]]].target == Some(prefix[k])
  }

  ghost predicate Trunks(s: State, prefix: seq<nat>) {
    Distinct(prefix) && forall k {:trigger TrunkStep(s, prefix, k)} :: 0 <= k < |prefix| ==> TrunkStep(s, prefix, k)
  }

  lemma TrunkIsNamed(s: State, prefix: seq<nat>, k: nat)
    requires Trunks(s, prefix) && k < |prefix|
    ensures prefix[k] in s.incoming && s.incoming[prefix[k]] < |s.claims|
  {
    assert TrunkStep(s, prefix, k);
  }

  lemma TrunksKept(s: State, t: State, prefix: seq<nat>)
    requires Trunks(s, prefix) && Grown(s, t)
    ensures Trunks(t, prefix)
  {
    forall k | 0 <= k < |prefix|
      ensures TrunkStep(t, prefix, k)
    {
      assert TrunkStep(s, prefix, k);
    }
  }

  /** The pages listed by the chain when its last trunk has been read up to `leaves`. */
  function Taken(words: Words, trunks: seq<nat>, leaves: nat): seq<nat> {
    if trunks == [] then []
    else
      var last := trunks[|trunks| - 1];
      ListedPages(words, trunks[..|trunks| - 1]) + [last] + Leaves(words, last, leaves)
  }

  /** A walk that met no fault: it accepted exactly the pages listed so far and every claim
      but the pending one is a link. */
  ghost predicate Clean(words: Words, first: nat, s: State, trunks: seq<nat>, leaves: nat, pending: nat) {
    && s.accepted == Taken(words, trunks, leaves) && TrunkChain(words, first, trunks)
    && pending < |s.claims| && s.claims[pending].target == NonZero(NextAfter(words, first, trunks))
    && (forall i :: 0 <= i < |s.claims| && i != pending ==> s.claims[i].state.Validated?)
  }

  function NonZero(value: nat): Option<nat> {
    if value == 0 then None else Some(value)
  }

  lemma CleanIsSound(g: Geometry, pages: seq<PageInfo>, words: Words, s: State, first: nat, declared: nat, trunks: seq<nat>, pending: nat)
    requires g.Valid() && Ordered(g, pages, s)
    requires Clean(words, first, s, trunks, LeafCount(words, trunks), pending)
    requires s.claims[pending].target == None && |s.accepted| == declared && Fits(g, words, trunks)
    ensures SoundFreelist(g, words, first, declared, trunks) && s.accepted == ListedPages(words, trunks)
  {
    forall k | 0 <= k < |s.accepted|
      ensures Free(g, s.accepted[k])
    {
      assert s.accepted[k] in PagesOf(s.accepted);
      assert AcceptedPage(g, pages, s, s.accepted[k]);
    }
  }

  lemma CleanLeaf(words: Words, first: nat, s: State, t: State, u: State, trunks: seq<nat>, leaf: nat, pending: nat, index: nat)
    requires Clean(words, first, s, trunks, leaf, pending) && trunks != []
    requires index == |s.claims| && |t.claims| == index + 1 && t.claims[..index] == s.claims && t.accepted == s.accepted
    requires t.claims[index].target == Some(WordAt(words, trunks[|trunks| - 1], 8 + 4 * leaf))
    requires ClaimAccepted(t, u, index)
    ensures Clean(words, first, u, trunks, leaf + 1, pending)
  {
    forall i | 0 <= i < |u.claims| && i != pending
      ensures u.claims[i].state.Validated?
    {
      assert i < index ==> t.claims[..index][i] == u.claims[i];
    }
    assert t.claims[..index][pending] == u.claims[pending];
  }

  lemma AcceptedIsNotFirst(g: Geometry, pages: seq<PageInfo>, s: State, page: nat)
    requires g.Valid() && Ordered(g, pages, s) && page in s.incoming
    ensures page != 1
  {
    assert AcceptedPage(g, pages, s, page);
  }

  lemma AcceptedIsFree(g: Geometry, pages: seq<PageInfo>, s: State, page: nat)
    requires g.Valid() && Ordered(g, pages, s) && page in s.incoming
    ensures Free(g, page)
  {
    assert AcceptedPage(g, pages, s, page);
  }

  /** The page whose word names the next trunk: the header page before the first. */
  function LastOf(prefix: seq<nat>): nat {
    if prefix == [] then 1 else prefix[|prefix| - 1]
  }

  ghost predicate AllLinks(claims: seq<Claim>) {
    forall i :: 0 <= i < |claims| ==> claims[i].state.Validated?
  }

  /** The pending claim accepted a trunk: it joins the chain. */
  lemma TrunkTaken(words: Words, first: nat, s: State, t: State, prefix: seq<nat>, index: nat)
    requires ClaimAccepted(s, t, index) && Trunks(s, prefix) && Trunks(t, prefix)
    requires s.claims[index].source == Page(LastOf(prefix))
    ensures var next := prefix + [t.claims[index].target.value];
      && Trunks(t, next)
      && (Clean(words, first, s, prefix, LeafCount(words, prefix), index) ==>
        t.accepted == Taken(words, next, 0) && TrunkChain(words, first, next) && AllLinks(t.claims))
  {
    hide Taken, Leaves, ListedPages, Clean;
    var next := prefix + [t.claims[index].target.value];
    forall k | 0 <= k < |next|
      ensures TrunkStep(t, next, k)
    {
      if k < |prefix| {
        assert TrunkStep(t, prefix, k);
      }
    }
    forall k | 0 <= k < |prefix|
      ensures prefix[k] in s.incoming
    {
      assert TrunkStep(s, prefix, k);
    }
    if Clean(words, first, s, prefix, LeafCount(words, prefix), index) {
      CleanTrunkTaken(words, first, s, t, prefix, index);
    }
  }

  lemma CleanTrunkTaken(words: Words, first: nat, s: State, t: State, prefix: seq<nat>, index: nat)
    requires Clean(words, first, s, prefix, LeafCount(words, prefix), index) && ClaimAccepted(s, t, index)
    ensures var next := prefix + [t.claims[index].target.value];
      t.accepted == Taken(words, next, 0) && TrunkChain(words, first, next) && AllLinks(t.claims)
  {
    var page := t.claims[index].target.value;
    var next := prefix + [page];
    assert next[..|prefix|] == prefix;
    assert Taken(words, prefix, LeafCount(words, prefix)) == ListedPages(words, prefix);
    assert ListedPages(words, prefix) + [page] + [] == ListedPages(words, prefix) + [page];
  }

  ghost predicate TrunkValid(s: State, page: nat) {
    page in s.incoming && s.incoming[page] < |s.claims| && s.claims[s.incoming[page]].state.Validated?
  }

  /** `n` trunks is as far as the chain goes with validated claims. */
  ghost predicate LongestPrefix(s: State, trunks: seq<nat>, n: nat) {
    && n <= |trunks|
    && (forall k :: 0 <= k < n ==> TrunkValid(s, trunks[k]))
    && (n < |trunks| ==> !TrunkValid(s, trunks[n]))
  }

  /** The kept trunks are a path of links that starts on the header page, and they fit the
      accepted pages. */
  lemma KeptIsPath(g: Geometry, pages: seq<PageInfo>, s: State, trunks: seq<nat>, n: nat)
    requires g.Valid() && Ordered(g, pages, s) && Trunks(s, trunks) && LongestPrefix(s, trunks, n)
    ensures IsPath(ClaimEdges(s.claims), [1] + trunks[..n]) && n <= |s.accepted|
    ensures (forall i :: 0 <= i < |s.claims| ==> s.claims[i].state.Validated? || s.claims[i].target.None?) ==> n == |trunks|
  {
    var path := [1] + trunks[..n];
    forall k | 0 <= k < |path| - 1
      ensures (path[k], path[k + 1]) in ClaimEdges(s.claims)
    {
      assert TrunkStep(s, trunks, k) && TrunkValid(s, trunks[k]);
      assert EdgeOf(s.claims[s.incoming[trunks[k]]]) == (path[k], path[k + 1]);
    }
    forall k | 0 <= k < n
      ensures trunks[k] in PagesOf(s.accepted)
    {
      assert TrunkStep(s, trunks, k);
    }
    DistinctFit(trunks[..n], PagesOf(s.accepted));
    PagesFit(s.accepted);
    if n < |trunks| {
      assert TrunkStep(s, trunks, n);
    }
  }

  lemma {:induction false} PagesFit(list: seq<nat>)
    ensures |PagesOf(list)| <= |list|
  {
    if list != [] {
      var last := |list| - 1;
      PagesFit(list[..last]);
      assert list == list[..last] + [list[last]];
      assert PagesOf(list) == PagesOf(list[..last]) + {list[last]};
    }
  }

  function LeafCount(words: Words, trunks: seq<nat>): nat {
    if trunks == [] then 0 else WordAt(words, trunks[|trunks| - 1], 4)
  }

  // ---------------------------------------------------------------- the walk

  class Inspector {
    const g: Geometry
    const pages: seq<PageInfo>
    const words: Words
    const maxTotal: nat
    const trunkLimit: nat
    const table: ClaimTable
    var incoming: map<nat, nat>
    var overrides: map<nat, AllocationRole>
    var prefix: seq<nat>
    var evaluated: nat
    var reason: Reason
    var stop: Option<TraversalStop>
    var traversals: seq<Traversal>
    /** The accepted pages in the order of their acceptance. */
    ghost var accepted: seq<nat>

    constructor (g: Geometry, pages: seq<PageInfo>, words: Words, maxTotal: nat, trunkLimit: nat, table: ClaimTable)
      requires g.Valid() && table.claims == []
      ensures this.g == g && this.pages == pages && this.words == words
      ensures this.maxTotal == maxTotal && this.trunkLimit == trunkLimit && this.table == table
      ensures Good() && evaluated == 0 && prefix == [] && traversals == [] && stop == None && reason == NotInspected
    {
      this.g, this.pages, this.words, this.maxTotal, this.trunkLimit, this.table := g, pages, words, maxTotal, trunkLimit, table;
      incoming, overrides, prefix, evaluated, accepted := map[], map[], [], 0, [];
      reason, stop, traversals := NotInspected, None, [];
    }

    ghost function Now(): State
      reads this, table
    {
      State(table.claims, incoming, overrides, accepted)
    }

    /** The reason given is true, as far as the chain has been read. */
    ghost predicate Told(first: nat)
      reads this, table.control
    {
      g.Valid() && if reason.InvalidStructure? then NeverSound(g, words, first) else reason == Complete || Excused()
    }

    /** The same of the chain and the header's count together. */
    ghost predicate Judged(first: nat, declared: nat)
      reads this, table.control
    {
      g.Valid() && if reason == Complete || reason.InvalidStructure? then reason == Complete <==> HasSoundFreelist(g, words, first, declared)
                   else Excused()
    }

    /** The reason is something outside the freelist itself. */
    ghost predicate Excused()
      reads this, table.control
    {
      || (reason.CoverageStop? && |pages| < g.pageCount)
      || (reason.BudgetStop? && table.control.budget)
      || (reason.Interrupted? && table.control.stop)
      || (reason.Unreadable? && !Readable(g, pages, words))
    }

    /** What was read so far, of the last trunk up to `leaves`. */
    ghost predicate Kept(first: nat, leaves: nat)
      reads this
    {
      g.Valid() && Ledger(g, words, first, prefix, leaves, incoming.Keys)
    }

    /** Why a page was refused. */
    ghost predicate Refused(page: nat)
      reads this, table.control
    {
      g.Valid() && if reason.InvalidStructure? then Faulty(g, incoming.Keys, page) else Excused()
    }

    lemma LeafTold(first: nat, leaf: nat)
      requires Kept(first, leaf) && prefix != [] && leaf < LeafCount(words, prefix)
      requires Refused(WordAt(words, prefix[|prefix| - 1], 8 + 4 * leaf))
      ensures Told(first)
    {
      if reason.InvalidStructure? {
        LeafSpoils(g, words, first, prefix, leaf, incoming.Keys);
      }
    }

    lemma TrunkTold(first: nat)
      requires Kept(first, LeafCount(words, prefix)) && NextAfter(words, first, prefix) != 0
      requires Refused(NextAfter(words, first, prefix))
      ensures Told(first)
    {
      if reason.InvalidStructure? {
        TrunkSpoils(g, words, first, prefix, incoming.Keys);
      }
    }

    ghost predicate Good()
      reads this, table
    {
      g.Valid() && Ordered(g, pages, Now()) && evaluated == |accepted| && evaluated <= maxTotal
    }

    /** Records the claim that a word of a page makes about another page. */
    method ClaimWord(page: nat, offset: nat, value: nat, kind: RelationshipKind) returns (index: nat)
      requires Good() && (kind.FreelistTrunk? || kind.FreelistLeaf?)
      requires if page == 1 then table.claims == [] else page in incoming
      modifies table`claims, table.control`failed
      ensures old(table.control.failed) ==> table.control.failed
      ensures Good() && Grown(old(Now()), Now())
      ensures index == |old(table.claims)|
      ensures !table.control.failed ==> table.claims == old(table.claims) + [WordClaim(page, offset, value, kind)]
      ensures table.control.failed ==> table.claims == old(table.claims)
    {
      index := |table.claims|;
      AddClaim(g, pages, Now(), WordClaim(page, offset, value, kind));
      table.Push(WordClaim(page, offset, value, kind));
    }

    /** Gives a claim a verdict that authorizes no new link. */
    method Reject(index: nat, state: RelationshipState, stop: Option<StopReason>)
      requires Good() && index < |table.claims| && (state.Validated? ==> table.claims[index].state.Validated?)
      modifies table`claims, table.control`failed
      ensures |table.claims| == |old(table.claims)|
      ensures old(table.control.failed) ==> table.control.failed
      ensures Good() && Grown(old(Now()), Now())
      ensures !table.control.failed ==>
        table.claims == old(table.claims)[index := old(table.claims)[index].(state := state, stop := stop)]
    {
      SetVerdict(g, pages, Now(), index, state, stop);
      var read := table.SetState(index, state, stop);
    }

    /** Ends the chain at a claim. */
    method StopAt(index: nat)
      requires index < |table.claims|
      modifies this`stop
    {
      var c := table.claims[index];
      stop := Some(TraversalStop(c.stop.GetOr(InvalidReference), c.id, c.target));
    }

    /** A second claim on an accepted page. Two trunk claims are a cycle of the chain and only
        the later one falls; otherwise both do, and the page becomes disputed. */
    method RepeatedClaim(index: nat, role: AllocationRole, target: nat)
      requires Good() && index < |table.claims| && target in incoming
      modifies this`overrides, this`reason, table`claims, table.control`failed
      ensures |table.claims| == |old(table.claims)|
      ensures old(table.control.failed) ==> table.control.failed
      ensures Good() && Grown(old(Now()), Now()) && reason == InvalidStructure
    {
      assert AcceptedPage(g, pages, Now(), target);
      var previous := incoming[target];
      var cycle := role.TrunkPage? && table.claims[previous].kind.FreelistTrunk?;
      reason := InvalidStructure;
      if cycle {
        Reject(index, Conflicting, Some(StopReason.Cycle));
      } else {
        Reject(index, Conflicting, Some(ConflictingClaim));
        Reject(previous, Conflicting, Some(ConflictingClaim));
        Redispute(g, pages, Now(), target);
        overrides := overrides[target := DisputedPage];
      }
    }

    /** Checks a claim before its page is looked at. */
    method ValidateReference(index: nat, role: AllocationRole) returns (target: Option<nat>)
      requires Good() && index < |table.claims|
      modifies this`overrides, this`reason, table`claims, table.control
      ensures |table.claims| == |old(table.claims)|
      ensures old(table.control.failed) ==> table.control.failed
      ensures (old(table.control.stop) ==> table.control.stop) && (old(table.control.budget) ==> table.control.budget)
      ensures incoming == old(incoming) && (target.None? ==> Refused(old(table.claims)[index].target.GetOr(0)))
      ensures Good() && Grown(old(Now()), Now())
      ensures target.None? ==> reason != Complete
      ensures target.Some? ==>
        && reason == old(reason) && table.claims == old(table.claims) && overrides == old(overrides)
        && (table.control.failed <==> old(table.control.failed))
        && table.claims[index].target == target && Free(g, target.value) && target.value !in incoming && evaluated < maxTotal
    {
      var page := table.claims[index].target.GetOr(0);
      target := None;
      var stopped := table.control.Stopped();
      if stopped {
        reason := Interrupted;
        Reject(index, table.claims[index].state, Some(Cancelled));
      } else if evaluated >= maxTotal {
        reason := BudgetStop;
        table.control.MarkAggregate();
        Reject(index, table.claims[index].state, Some(StopReason.Budget));
      } else if page <= 1 {
        reason := InvalidStructure;
        Reject(index, Invalid, Some(InvalidReference));
      } else if page > g.pageCount {
        reason := InvalidStructure;
        Reject(index, Unresolved, Some(OutOfRange));
      } else if ReservedRole(g, page).Some? {
        reason := InvalidStructure;
        Reject(index, Conflicting, Some(ConflictingClaim));
      } else if page in incoming {
        RepeatedClaim(index, role, page);
      } else {
        target := Some(page);
      }
    }

    /** Accepts the page of a claim, or says why not. */
    method Validate(index: nat, role: AllocationRole) returns (ok: bool)
      requires Good() && index < |table.claims|
      modifies this`overrides, this`reason, this`incoming, this`evaluated, this`accepted, this`stop, table`claims, table.control
      ensures |table.claims| == |old(table.claims)|
      ensures old(table.control.failed) ==> table.control.failed
      ensures (old(table.control.stop) ==> table.control.stop) && (old(table.control.budget) ==> table.control.budget)
      ensures !ok ==> incoming == old(incoming) && (table.control.failed || Refused(old(table.claims)[index].target.GetOr(0)))
      ensures ok ==> reason == old(reason)
      ensures Good() && Grown(old(Now()), Now())
      ensures !ok ==> reason != Complete || table.control.failed
      ensures old(reason) != Complete ==> reason != Complete
      ensures ok ==> stop == old(stop)
      ensures ok ==> ClaimAccepted(old(Now()), Now(), index)
    {
      hide Ordered, Grown;
      var target := ValidateReference(index, role);
      if target.None? {
        return false;
      }
      if !Listed(pages, target.value) {
        reason := Reason.CoverageStop;
        Reject(index, table.claims[index].state, Some(StopReason.CoverageStop));
        return false;
      }
      if pages[target.value - 1].readFailed {
        ReadFailure(index);
        return false;
      }
      ok := AcceptPage(index, role, target.value);
    }

    method AcceptPage(index: nat, role: AllocationRole, page: nat) returns (ok: bool)
      requires Good() && index < |table.claims| && evaluated < maxTotal
      requires table.claims[index].target == Some(page) && page !in incoming && Free(g, page) && Listed(pages, page)
      modifies this`overrides, this`incoming, this`evaluated, this`accepted, table`claims, table.control`failed
      ensures |table.claims| == |old(table.claims)|
      ensures old(table.control.failed) ==> table.control.failed
      ensures Good() && Grown(old(Now()), Now())
      ensures ok <==> !table.control.failed
      ensures !ok ==> incoming == old(incoming)
      ensures ok ==> ClaimAccepted(old(Now()), Now(), index)
    {
      ok := table.control.Access();
      if ok {
        Accept(g, pages, Now(), index, page, role);
        overrides := overrides[page := role];
        incoming := incoming[page := index];
        table.claims := table.claims[index := table.claims[index].(state := Validated)];
        evaluated := evaluated + 1;
        accepted := accepted + [page];
        assert Now() == WithAccepted(old(Now()), index, page, role);
      }
    }

    method ReadFailure(index: nat)
      requires Good() && index < |table.claims| && !Readable(g, pages, words)
      modifies this`reason, this`stop, table`claims, table.control`failed
      ensures |table.claims| == |old(table.claims)|
      ensures old(table.control.failed) ==> table.control.failed
      ensures Good() && Grown(old(Now()), Now()) && reason == Unreadable
      ensures Trunks(old(Now()), prefix) ==> Trunks(Now(), prefix)
      ensures NamedIn(old(table.claims), prefix) ==> NamedIn(table.claims, prefix)
    {
      Reject(index, Unresolved, Some(MissingTarget));
      if Trunks(old(Now()), prefix) {
        TrunksKept(old(Now()), Now(), prefix);
      }
      reason := Unreadable;
      StopAt(index);
    }

    ghost predicate Walking()
      reads this, table
    {
      Good() && Trunks(Now(), prefix)
    }

    ghost predicate CleanSoFar(first: nat, leaves: nat, pending: nat)
      reads this, table, table.control
    {
      reason == Complete && !table.control.failed ==> Clean(words, first, Now(), prefix, leaves, pending)
    }

    /** Reads the leaf pointers of the last trunk. A leaf that is not accepted does not end the
        trunk unless the work itself was interrupted. */
    method ReadLeaves(page: nat, count: nat, pending: nat, ghost first: nat) returns (more: bool)
      requires Walking() && page in incoming && pending < |table.claims|
      requires prefix != [] && prefix[|prefix| - 1] == page && count == LeafCount(words, prefix)
      requires CleanSoFar(first, 0, pending)
      requires !table.control.failed ==> Named(table.claims, prefix, 0)
      requires Kept(first, 0) && count <= Capacity(g) && (!table.control.failed ==> Told(first))
      modifies this`overrides, this`reason, this`incoming, this`evaluated, this`accepted, this`stop, table`claims, table.control
      ensures old(table.control.failed) ==> table.control.failed
      ensures (old(table.control.stop) ==> table.control.stop) && (old(table.control.budget) ==> table.control.budget)
      ensures (more ==> Kept(first, count)) && (!table.control.failed ==> Told(first))
      ensures Walking() && Grown(old(Now()), Now())
      ensures more ==> CleanSoFar(first, count, pending)
      ensures !table.control.failed ==> NamedIn(table.claims, prefix)
      ensures !more ==> reason != Complete || table.control.failed
      ensures old(reason) != Complete ==> reason != Complete
    {
      hide Ordered, Ledger, NeverSound, Trunks, Clean, NamedIn;
      for leaf := 0 to count
        invariant old(table.control.failed) ==> table.control.failed
        invariant Walking() && Grown(old(Now()), Now()) && pending < |table.claims|
        invariant old(reason) != Complete ==> reason != Complete
        invariant CleanSoFar(first, leaf, pending)
        invariant (old(table.control.stop) ==> table.control.stop) && (old(table.control.budget) ==> table.control.budget)
        invariant Kept(first, leaf) && (!table.control.failed ==> Told(first))
        invariant !table.control.failed ==> Named(table.claims, prefix, leaf)
      {
        var field := words(page, 8 + 4 * leaf);
        if field.None? {
          AcceptedIsFree(g, pages, Now(), page);
          ghost var before := Now();
          ReadFailure(pending);
          NamesKept(before, Now(), prefix, leaf);
          TrunksKept(old(Now()), Now(), prefix);
          return false;
        }
        more := ReadLeaf(page, leaf, field.value, pending, first);
        TrunksKept(old(Now()), Now(), prefix);
        if !more {
          return;
        }
      }
      more := true;
    }

    method ReadLeaf(page: nat, leaf: nat, value: nat, pending: nat, ghost first: nat) returns (more: bool)
      requires Walking() && page in incoming && pending < |table.claims|
      requires prefix != [] && prefix[|prefix| - 1] == page && value == WordAt(words, page, 8 + 4 * leaf)
      requires CleanSoFar(first, leaf, pending)
      requires !table.control.failed ==> Named(table.claims, prefix, leaf)
      requires Kept(first, leaf) && leaf < LeafCount(words, prefix) <= Capacity(g) && (!table.control.failed ==> Told(first))
      modifies this`overrides, this`reason, this`incoming, this`evaluated, this`accepted, this`stop, table`claims, table.control
      ensures old(table.control.failed) ==> table.control.failed
      ensures (old(table.control.stop) ==> table.control.stop) && (old(table.control.budget) ==> table.control.budget)
      ensures Kept(first, leaf + 1) && (!table.control.failed ==> Told(first))
      ensures Good() && Grown(old(Now()), Now())
      ensures more ==> CleanSoFar(first, leaf + 1, pending)
      ensures !table.control.failed ==> Named(table.claims, prefix, leaf + 1)
      ensures !more ==> reason != Complete || table.control.failed
      ensures old(reason) != Complete ==> reason != Complete
    {
      hide Ordered, Trunks, Grown, Clean, ListedPages, Named, NamedIn, Ledger, NeverSound;
      AcceptedIsNotFirst(g, pages, Now(), page);
      if !table.control.failed {
        NameLeaf(table.claims, prefix, leaf, value);
      }
      var index := ClaimWord(page, 8 + 4 * leaf, value, FreelistLeaf);
      more := index < |table.claims|;
      if more {
        ghost var before := Now();
        more := JudgeLeaf(index, leaf, first);
        GrownTwice(old(Now()), before, Now());
        NamesKept(before, Now(), prefix, leaf + 1);
        if more && reason == Complete && !table.control.failed {
          CleanLeaf(words, first, old(Now()), before, Now(), prefix, leaf, pending, index);
        }
      } else {
        LedgerLeaf(g, words, first, prefix, leaf, incoming.Keys);
      }
    }

    /** Accepts or refuses the leaf just claimed. */
    method JudgeLeaf(index: nat, leaf: nat, ghost first: nat) returns (more: bool)
      requires Good() && index < |table.claims| && prefix != []
      requires table.claims[index].target == Some(WordAt(words, prefix[|prefix| - 1], 8 + 4 * leaf))
      requires Kept(first, leaf) && leaf < LeafCount(words, prefix) <= Capacity(g) && (!table.control.failed ==> Told(first))
      modifies this`overrides, this`reason, this`incoming, this`evaluated, this`accepted, this`stop, table`claims, table.control
      ensures |table.claims| == |old(table.claims)|
      ensures old(table.control.failed) ==> table.control.failed
      ensures (old(table.control.stop) ==> table.control.stop) && (old(table.control.budget) ==> table.control.budget)
      ensures Kept(first, leaf + 1) && (!table.control.failed ==> Told(first))
      ensures Good() && Grown(old(Now()), Now())
      ensures !more ==> reason != Complete || table.control.failed
      ensures old(reason) != Complete ==> reason != Complete
      ensures reason == Complete && !table.control.failed ==> ClaimAccepted(old(Now()), Now(), index)
    {
      hide Ordered, Grown, Ledger, NeverSound;
      LedgerLeaf(g, words, first, prefix, leaf, incoming.Keys);
      more := Validate(index, LeafPage);
      if more {
        assert incoming.Keys == old(incoming.Keys) + {table.claims[index].target.value};
      } else {
        if !table.control.failed {
          LeafTold(first, leaf);
        }
        more := AfterRejectedLeaf(index);
      }
    }

    /** Only an interruption ends the trunk. */
    method AfterRejectedLeaf(index: nat) returns (more: bool)
      requires index < |table.claims|
      modifies this`stop, table.control`failed
      ensures old(table.control.failed) ==> table.control.failed
    {
      var read := table.control.Access();
      var given := table.claims[index].stop;
      var interrupted := given == Some(StopReason.Budget) || given == Some(Cancelled);
      if read && interrupted {
        StopAt(index);
      }
      more := read && !interrupted;
    }

    /** Where the walk stands between two trunks: the claim at `index` is pending. */
    ghost predicate AtTrunk(first: nat, index: nat)
      reads this, table, table.control
    {
      && Walking() && index < |table.claims|
      && table.claims[index].kind.FreelistTrunk? && table.claims[index].source == Page(LastOf(prefix))
      && CleanSoFar(first, LeafCount(words, prefix), index)
      && (!table.control.failed ==> NamedIn(table.claims, prefix))
      && Kept(first, LeafCount(words, prefix)) && (!table.control.failed ==> Told(first))
      && table.claims[index].target == NonZero(NextAfter(words, first, prefix))
    }

    /** Every claim so far is a link, and the last trunk has not been read yet. */
    ghost predicate CleanTrunk(first: nat)
      reads this, table, table.control
    {
      reason == Complete && !table.control.failed ==>
        accepted == Taken(words, prefix, 0) && TrunkChain(words, first, prefix) && AllLinks(table.claims)
    }

    /** Accepts the trunk that a claim names and reads what it lists; `next` is the claim of
        the trunk after it. */
    method ReadTrunk(index: nat, ghost first: nat) returns (more: bool, next: nat)
      requires AtTrunk(first, index) && table.claims[index].target.Some?
      modifies this`overrides, this`reason, this`incoming, this`evaluated, this`accepted, this`stop, this`prefix, table`claims, table.control
      ensures old(table.control.failed) ==> table.control.failed
      ensures (old(table.control.stop) ==> table.control.stop) && (old(table.control.budget) ==> table.control.budget)
      ensures !table.control.failed ==> Told(first)
      ensures Walking()
      ensures more ==> AtTrunk(first, next) && |accepted| > |old(accepted)|
      ensures !table.control.failed ==> NamedIn(table.claims, prefix)
      ensures !more ==> reason != Complete || table.control.failed
      ensures old(reason) != Complete ==> reason != Complete
    {
      more, next := false, index;
      if |prefix| >= trunkLimit {
        TrunkBudget(index);
        return;
      }
      var ok := AcceptTrunk(index, first);
      if ok {
        var page := prefix[|prefix| - 1];
        var nextWord, count := words(page, 0), words(page, 4);
        if nextWord.Some? && count.Some? {
          more, next := ReadListed(page, nextWord.value, count.value, first);
        } else {
          AcceptedIsFree(g, pages, Now(), page);
          ReadFailure(index);
        }
      }
    }

    method TrunkBudget(index: nat)
      requires Walking() && index < |table.claims|
      modifies this`reason, this`stop, table`claims, table.control
      ensures |table.claims| == |old(table.claims)|
      ensures old(table.control.failed) ==> table.control.failed
      ensures (old(table.control.stop) ==> table.control.stop) && (old(table.control.budget) ==> table.control.budget)
      ensures reason.BudgetStop? && table.control.budget
      ensures Walking() && reason != Complete
      ensures !table.control.failed && NamedIn(old(table.claims), prefix) ==> NamedIn(table.claims, prefix)
    {
      table.control.MarkBudget();
      Reject(index, table.claims[index].state, Some(StopReason.Budget));
      TrunksKept(old(Now()), Now(), prefix);
      reason := BudgetStop;
      StopAt(index);
    }

    method AcceptTrunk(index: nat, ghost first: nat) returns (ok: bool)
      requires AtTrunk(first, index) && table.claims[index].target.Some?
      modifies this`overrides, this`reason, this`incoming, this`evaluated, this`accepted, this`stop, this`prefix, table`claims, table.control
      ensures old(table.control.failed) ==> table.control.failed
      ensures (old(table.control.stop) ==> table.control.stop) && (old(table.control.budget) ==> table.control.budget)
      ensures (ok ==> Kept(first, 0)) && (!table.control.failed ==> Told(first))
      ensures Walking()
      ensures !ok ==> reason != Complete || table.control.failed
      ensures old(reason) != Complete ==> reason != Complete
      ensures ok ==> prefix != [] && prefix[|prefix| - 1] in incoming && |accepted| > |old(accepted)|
      ensures ok ==> CleanTrunk(first) && index < |table.claims|
      ensures !ok && !table.control.failed ==> NamedIn(table.claims, prefix)
      ensures ok && !table.control.failed ==> NamedIn(table.claims, prefix[..|prefix| - 1])
    {
      hide Ordered, Clean, NamedIn, Named, Trunks, Ledger, NeverSound, LeafCount, Grown;
      ok := JudgeTrunk(index, first);
      TrunksKept(old(Now()), Now(), prefix);
      NamesKept(old(Now()), Now(), prefix, 0);
      if ok {
        TrunkTaken(words, first, old(Now()), Now(), prefix, index);
        prefix := prefix + [table.claims[index].target.value];
        assert prefix[..|prefix| - 1] == old(prefix);
      } else {
        StopAt(index);
      }
    }

    method JudgeTrunk(index: nat, ghost first: nat) returns (ok: bool)
      requires Good() && index < |table.claims| && table.claims[index].target == Some(NextAfter(words, first, prefix))
      requires NextAfter(words, first, prefix) != 0
      requires Kept(first, LeafCount(words, prefix)) && (!table.control.failed ==> Told(first))
      modifies this`overrides, this`reason, this`incoming, this`evaluated, this`accepted, this`stop, table`claims, table.control
      ensures |table.claims| == |old(table.claims)|
      ensures old(table.control.failed) ==> table.control.failed
      ensures (old(table.control.stop) ==> table.control.stop) && (old(table.control.budget) ==> table.control.budget)
      ensures Good() && Grown(old(Now()), Now()) && (!table.control.failed ==> Told(first))
      ensures !ok ==> reason != Complete || table.control.failed
      ensures ok ==> reason == old(reason) && ClaimAccepted(old(Now()), Now(), index)
      ensures ok ==> Ledger(g, words, first, prefix + [NextAfter(words, first, prefix)], 0, incoming.Keys)
      ensures old(reason) != Complete ==> reason != Complete
    {
      hide Ordered, Grown, Ledger, NeverSound, LeafCount;
      ok := Validate(index, TrunkPage);
      if ok {
        AcceptedIsFree(g, pages, Now(), NextAfter(words, first, prefix));
        LedgerTrunk(g, words, first, prefix, old(incoming).Keys);
        assert incoming.Keys == old(incoming).Keys + {NextAfter(words, first, prefix)};
      } else if !table.control.failed {
        TrunkTold(first);
      }
    }

    /** Reads the pages listed by the trunk just accepted. */
    method ReadListed(page: nat, nextWord: nat, count: nat, ghost first: nat) returns (more: bool, next: nat)
      requires Walking() && prefix != [] && page == prefix[|prefix| - 1] && page in incoming
      requires words(page, 0) == Some(nextWord) && words(page, 4) == Some(count) && CleanTrunk(first)
      requires !table.control.failed ==> NamedIn(table.claims, prefix[..|prefix| - 1])
      requires Kept(first, 0) && (!table.control.failed ==> Told(first))
      modifies this`overrides, this`reason, this`incoming, this`evaluated, this`accepted, this`stop, table`claims, table.control
      ensures old(table.control.failed) ==> table.control.failed
      ensures (old(table.control.stop) ==> table.control.stop) && (old(table.control.budget) ==> table.control.budget)
      ensures !table.control.failed ==> Told(first)
      ensures Walking() && old(accepted) <= accepted
      ensures more ==> AtTrunk(first, next)
      ensures !more ==> reason != Complete || table.control.failed
      ensures old(reason) != Complete ==> reason != Complete
      ensures !table.control.failed ==> NamedIn(table.claims, prefix)
    {
      hide Ordered, Ledger, NeverSound, NamedIn, ListedPages, Leaves;
      AcceptedIsNotFirst(g, pages, Now(), page);
      if !table.control.failed {
        NameNext(table.claims, prefix, nextWord);
      }
      next := ClaimWord(page, 0, nextWord, FreelistTrunk);
      TrunksKept(old(Now()), Now(), prefix);
      more := false;
      if next < |table.claims| {
        if count > g.usableSize / 4 - 2 {
          CountSpoils(g, words, first, prefix, incoming.Keys);
          RejectTrunk(next);
        } else {
          ghost var before := table.claims[next];
          more := ReadLeaves(page, count, next, first);
          assert table.claims[next].kind == before.kind && table.claims[next].source == before.source;
        }
      }
    }

    method RejectTrunk(next: nat)
      requires Walking() && next < |table.claims|
      modifies this`reason, this`stop, table`claims, table.control`failed
      ensures |table.claims| == |old(table.claims)|
      ensures old(table.control.failed) ==> table.control.failed
      ensures Walking() && reason == InvalidStructure
      ensures !table.control.failed && NamedIn(old(table.claims), prefix) ==> NamedIn(table.claims, prefix)
    {
      Reject(next, Invalid, Some(InvalidReference));
      TrunksKept(old(Now()), Now(), prefix);
      reason := InvalidStructure;
      StopAt(next);
    }

    /** Follows the chain from the header until it ends or something stops it. */
    method Run(first: nat)
      requires table.claims == [] && Good() && accepted == [] && prefix == [] && reason == Complete
      modifies this`overrides, this`reason, this`incoming, this`evaluated, this`accepted, this`stop, this`prefix, table`claims, table.control
      ensures old(table.control.failed) ==> table.control.failed
      ensures (old(table.control.stop) ==> table.control.stop) && (old(table.control.budget) ==> table.control.budget)
      ensures !table.control.failed ==> Told(first)
      ensures Walking()
      ensures !table.control.failed ==> FreelistNames(table.claims)
      ensures reason == Complete && !table.control.failed ==> Sound(first)
    {
      var index: nat := ClaimWord(1, 32, first, FreelistTrunk);
      if index >= |table.claims| {
        return;
      }
      var more := true;
      while more && table.claims[index].target.Some?
        invariant old(table.control.failed) ==> table.control.failed
        invariant (old(table.control.stop) ==> table.control.stop) && (old(table.control.budget) ==> table.control.budget)
        invariant Walking() && (!table.control.failed ==> Told(first))
        invariant more ==> AtTrunk(first, index)
        invariant !more ==> reason != Complete || table.control.failed
        invariant !table.control.failed ==> NamedIn(table.claims, prefix)
        invariant |accepted| <= |pages|
        decreases if more then |pages| - |accepted| + 1 else 0
      {
        more, index := ReadTrunk(index, first);
        AcceptedFit(g, pages, Now());
      }
      if reason == Complete && !table.control.failed {
        CleanIsSound(g, pages, words, Now(), first, |accepted|, prefix, index);
      }
    }

    /** The walk reached the end of an undamaged chain. */
    ghost predicate Sound(first: nat)
      reads this, table
    {
      && g.Valid() && SoundFreelist(g, words, first, evaluated, prefix)
      && accepted == ListedPages(words, prefix)
      && (forall i :: 0 <= i < |table.claims| ==> table.claims[i].state.Validated? || table.claims[i].target.None?)
    }

    method CompareCount(first: nat, declared: nat)
      requires Walking() && (!table.control.failed ==> Told(first))
      requires reason == Complete && !table.control.failed ==> Sound(first)
      modifies this`reason
      ensures Walking() && (!table.control.failed ==> Judged(first, declared))
      ensures reason == Complete && !table.control.failed ==> Sound(first) && evaluated == declared
    {
      hide Ordered, SoundFreelist, Trunks;
      if reason == Complete && declared != evaluated {
        if !table.control.failed {
          Miscounted(g, words, first, evaluated, declared, prefix);
        }
        reason := InvalidStructure;
      }
    }

    /** Compares the header's count and keeps the trunks up to the first whose claim did not
        stay validated. */
    method Finish(first: nat, declared: nat) returns (kept: nat)
      requires Walking() && traversals == []
      requires reason == Complete && !table.control.failed ==> Sound(first)
      requires !table.control.failed ==> Told(first)
      modifies this`reason, this`stop, this`traversals, table.control`failed
      ensures !table.control.failed ==> Judged(first, declared)
      ensures old(table.control.failed) ==> table.control.failed
      ensures Walking()
      ensures !table.control.failed ==> LongestPrefix(Now(), prefix, kept)
      ensures !table.control.failed ==> Recorded(first, kept)
      ensures table.control.failed ==> traversals == []
      ensures reason == Complete && !table.control.failed ==> Sound(first) && evaluated == declared
    {
      hide Ordered, SoundFreelist, HasSoundFreelist, Trunks;
      CompareCount(first, declared);
      ghost var verdict := reason;
      kept := 0;
      while kept < |prefix|
        invariant old(table.control.failed) ==> table.control.failed
        invariant kept <= |prefix| && traversals == [] && reason == verdict
        invariant forall k :: 0 <= k < kept ==> TrunkValid(Now(), prefix[k])
        decreases |prefix| - kept
      {
        var read := table.control.Access();
        if !read {
          return;
        }
        TrunkIsNamed(Now(), prefix, kept);
        if !table.claims[incoming[prefix[kept]]].state.Validated? {
          StopAt(incoming[prefix[kept]]);
          break;
        }
        kept := kept + 1;
      }
      var written := table.control.Access();
      if written && first != 0 {
        traversals := [Traversal(FreelistChain, Page(1), prefix[..kept], stop)];
      }
    }

    ghost predicate Recorded(first: nat, kept: nat)
      reads this
    {
      && kept <= |prefix|
      && traversals == if first == 0 then [] else [Traversal(FreelistChain, Page(1), prefix[..kept], stop)]
    }
  }

  /** The claim at `index` accepted its page, and nothing else happened. */
  ghost predicate ClaimAccepted(s: State, t: State, index: nat) {
    && index < |s.claims| && s.claims[index].target.Some?
    && t.claims == s.claims[index := s.claims[index].(state := Validated)]
    && s.claims[index].target.value !in s.incoming && t.incoming == s.incoming[s.claims[index].target.value := index]
    && t.accepted == s.accepted + [s.claims[index].target.value]
  }

  function WordClaim(page: nat, offset: nat, value: nat, kind: RelationshipKind): Claim {
    Claim(FreelistId(page, offset), kind, Page(page),
      if value != 0 || kind.FreelistLeaf? then Some(value) else None,
      if value == 0 && kind.FreelistTrunk? then Terminal else Unresolved, None)
  }

  lemma Redispute(g: Geometry, pages: seq<PageInfo>, s: State, page: nat)
    requires g.Valid() && Ordered(g, pages, s) && page in s.overrides
    ensures Ordered(g, pages, s.(overrides := s.overrides[page := DisputedPage]))
  {
    var t := s.(overrides := s.overrides[page := DisputedPage]);
    forall p | p in t.incoming
      ensures AcceptedPage(g, pages, t, p)
    {
      assert AcceptedPage(g, pages, s, p);
    }
    forall j | 0 <= j < |t.claims|
      ensures ClaimInOrder(t, j)
    {
      assert ClaimInOrder(s, j);
    }
  }

  /** What the walk as a whole promises; `trunks` are the trunk pages it accepted and `kept`
      how many of them the recorded traversal retains. */
  ghost predicate FreelistResult(g: Geometry, pages: seq<PageInfo>, s: State, evaluated: nat, maxTotal: nat,
                                 traversals: seq<Traversal>, trunks: seq<nat>, kept: nat)
    requires g.Valid()
  {
    && evaluated == |s.accepted| && Distinct(s.accepted)
    && evaluated <= maxTotal && evaluated <= g.pageCount - 1
    && kept <= |trunks| && kept <= evaluated
    && (traversals == [] ||
      (|traversals| == 1 && traversals[0].kind.FreelistChain? && traversals[0].origin == Page(1) && traversals[0].prefix == trunks[..kept]))
  }

  /** The inventory lists the whole file, every word can be read, and no stop, budget or
      storage failure interfered. */
  ghost predicate Undisturbed(g: Geometry, pages: seq<PageInfo>, words: Words, control: WorkControl)
    reads control
  {
    !control.failed && !control.stop && !control.budget && |pages| == g.pageCount && Readable(g, pages, words)
  }

  /** The whole phase. A file whose header cannot be read yields nothing; otherwise the chain
      is followed, and the reason Complete is given to a sound freelist, all of whose pages were
      then accepted, and, unless something disturbed the walk, never withheld from one. */
  method Inspect(g: Geometry, pages: seq<PageInfo>, words: Words, maxTotal: nat, trunkLimit: nat, table: ClaimTable)
    returns (i: Inspector, ghost trunks: seq<nat>, ghost kept: nat)
    requires g.Valid() && table.claims == []
    modifies table`claims, table.control
    ensures old(table.control.failed) ==> table.control.failed
    ensures fresh(i) && i.g == g && i.pages == pages && i.words == words && i.table == table
    ensures FreelistLinks(g, pages, i.overrides, table.claims)
    ensures forall p :: p in i.overrides ==> Listed(pages, p) && p > 1
    ensures FreelistResult(g, pages, i.Now(), i.evaluated, maxTotal, i.traversals, trunks, kept)
    ensures !table.control.failed ==> FreelistNames(table.claims)
    ensures !table.control.failed ==>
      LongestPrefix(i.Now(), trunks, kept) && IsPath(ClaimEdges(table.claims), [1] + trunks[..kept])
    ensures Undisturbed(g, pages, words, table.control) ==>
      (i.reason == Complete <==> HasSoundFreelist(g, words, words(1, 32).value, words(1, 36).value))
    ensures !table.control.failed && i.reason == Complete ==>
      && words(1, 32).Some? && words(1, 36).Some? && kept == |trunks|
      && SoundFreelist(g, words, words(1, 32).value, words(1, 36).value, trunks) && i.accepted == ListedPages(words, trunks)
  {
    i := new Inspector(g, pages, words, maxTotal, trunkLimit, table);
    hide Ordered, FreelistLinks, SoundFreelist, HasSoundFreelist;
    trunks, kept := [], 0;
    var first, declared := words(1, 32), words(1, 36);
    if first.Some? && declared.Some? {
      i.reason := Complete;
      i.Run(first.value);
      trunks := i.prefix;
      kept := i.Finish(first.value, declared.value);
      if table.control.failed {
        kept := 0;
      } else {
        KeptIsPath(g, pages, i.Now(), trunks, kept);
      }
    } else {
      i.reason := Unreadable;
    }
    WalkResult(g, pages, i.Now());
  }

  lemma WalkResult(g: Geometry, pages: seq<PageInfo>, s: State)
    requires g.Valid() && Ordered(g, pages, s)
    ensures FreelistLinks(g, pages, s.overrides, s.claims)
    ensures Distinct(s.accepted) && |s.accepted| <= g.pageCount - 1
    ensures forall p :: p in s.overrides ==> Listed(pages, p) && p > 1
  {
    OrderedIsForest(g, pages, s);
    AcceptedFit(g, pages, s);
    forall p | p in s.overrides
      ensures Listed(pages, p) && p > 1
    {
      assert p in s.incoming.Keys;
      assert AcceptedPage(g, pages, s, p);
    }
  }
}
