/** Overflow chains seen as one next-page function. `next` maps a page to the page its
    pointer names, for every pointer that passed validation once; `marked` holds the pages
    whose pointer was withdrawn because it closed a cycle. */
module Chains {

  /** Each page of the chain points at the one after it, and no page repeats. */
  ghost predicate Chain(next: map<nat, nat>, path: seq<nat>) {
    && (forall k :: 0 <= k < |path| - 1 ==> path[k] in next && next[path[k]] == path[k + 1])
    && (forall a, b :: 0 <= a < b < |path| ==> path[a] != path[b])
  }

  /** The pages from which the chain takes a step are unmarked. */
  ghost predicate Unmarked(marked: set<nat>, path: seq<nat>) {
    forall k :: 0 <= k < |path| - 1 ==> path[k] !in marked
  }

  /** `loop` leads from the target of `page` back to `page` over unmarked pages. */
  ghost predicate LoopTo(next: map<nat, nat>, marked: set<nat>, page: nat, loop: seq<nat>) {
    && |loop| >= 1
    && Chain(next, loop) && Unmarked(marked, loop)
    && page in next && loop[0] == next[page] && loop[|loop| - 1] == page
  }

  ghost predicate OnLoop(next: map<nat, nat>, marked: set<nat>, page: nat) {
    exists loop :: LoopTo(next, marked, page, loop)
  }

  /** Every marked pointer really closes a cycle whose other pointers are intact. */
  ghost predicate MarkedLoops(next: map<nat, nat>, marked: set<nat>) {
    forall page :: page in marked ==> OnLoop(next, marked, page)
  }

  /** Adding the pointer of a page that had none keeps chains and loops. */
  lemma AddPointer(next: map<nat, nat>, marked: set<nat>, page: nat, target: nat)
    requires page !in next
    requires MarkedLoops(next, marked)
    ensures MarkedLoops(next[page := target], marked)
  {
    forall q | q in marked
      ensures OnLoop(next[page := target], marked, q)
    {
      var loop :| LoopTo(next, marked, q, loop);
      assert LoopTo(next[page := target], marked, q, loop);
    }
  }

  /** Chains are followed the same way from a common page, step by step. */
  lemma {:induction false} SameSteps(next: map<nat, nat>, p: seq<nat>, a: nat, q: seq<nat>, b: nat, n: nat)
    requires Chain(next, p) && Chain(next, q)
    requires a + n < |p| && b + n < |q| && p[a] == q[b]
    ensures p[a + n] == q[b + n]
  {
    if n > 0 {
      SameSteps(next, p, a, q, b, n - 1);
      assert next[p[a + n - 1]] == p[a + n - 1 + 1];
      assert next[q[b + n - 1]] == q[b + n - 1 + 1];
    }
  }

  /** Withdrawing the pointer that closes a chain onto itself disturbs no earlier loop. */
  lemma MarkPointer(next: map<nat, nat>, marked: set<nat>, path: seq<nat>, at: nat)
    requires at < |path|
    requires Chain(next, path) && Unmarked(marked, path)
    requires var last := path[|path| - 1]; last in next && last !in marked && next[last] == path[at]
    requires MarkedLoops(next, marked)
    ensures MarkedLoops(next, marked + {path[|path| - 1]})
  {
    var last := path[|path| - 1];
    var more := marked + {last};
    var own := path[at..];
    assert LoopTo(next, more, last, own) by {
      forall k | 0 <= k < |own| - 1
        ensures own[k] in next && next[own[k]] == own[k + 1]
        ensures own[k] !in more
      {
        assert path[at + k] in next && next[path[at + k]] == path[at + k + 1];
      }
    }
    forall q | q in marked
      ensures OnLoop(next, more, q)
    {
      var loop :| LoopTo(next, marked, q, loop);
      LoopAvoids(next, marked, path, at, q, loop);
      assert LoopTo(next, more, q, loop);
    }
  }

  /** A loop that steps off `last` would run along the path into `last` again. */
  lemma LoopAvoids(next: map<nat, nat>, marked: set<nat>, path: seq<nat>, at: nat, page: nat, loop: seq<nat>)
    requires at < |path|
    requires Chain(next, path) && Unmarked(marked, path)
    requires var last := path[|path| - 1]; last in next && last !in marked && next[last] == path[at]
    requires page in marked && LoopTo(next, marked, page, loop)
    ensures forall k :: 0 <= k < |loop| - 1 ==> loop[k] != path[|path| - 1]
  {
    forall k | 0 <= k < |loop| - 1
      ensures loop[k] != path[|path| - 1]
    {
      if loop[k] == path[|path| - 1] {
        assert loop[k + 1] == path[at];
        var mine, theirs := |path| - 1 - at, |loop| - 1 - (k + 1);
        if theirs < mine {
          SameSteps(next, path, at, loop, k + 1, theirs);
        } else {
          SameSteps(next, path, at, loop, k + 1, mine);
        }
        assert false;
      }
    }
  }

  /** If a chain uses a withdrawn pointer at position `i`, it met the loop of that pointer
      from outside: some page at or before `i` is entered twice, or the loop runs back to the
      very start of the chain. */
  lemma {:induction false} WithdrawnStep(next: map<nat, nat>, marked: set<nat>, path: seq<nat>, i: nat, loop: seq<nat>, j: nat)
    returns (meet: nat, other: nat)
    requires i + 1 < |path| && Chain(next, path)
    requires forall k :: 0 <= k < i ==> path[k] !in marked
    requires path[i] in marked && LoopTo(next, marked, path[i], loop)
    requires j <= i && i - j <= |loop| - 1
    requires path[j] == loop[|loop| - 1 - (i - j)]
    ensures meet <= j
    ensures other in next && other !in marked && next[other] == path[meet]
    ensures meet > 0 ==> path[meet - 1] != other && path[meet - 1] !in marked
    decreases j
  {
    var at := |loop| - 1 - (i - j);
    assert next[path[i]] == path[i + 1];
    if at == 0 {
      // The loop would start at the page after the withdrawn pointer, which comes later.
      assert false;
    } else if j == 0 || path[j - 1] != loop[at - 1] {
      assert next[loop[at - 1]] == loop[at - 1 + 1];
      meet, other := j, loop[at - 1];
    } else {
      meet, other := WithdrawnStep(next, marked, path, i, loop, j - 1);
    }
  }
}
