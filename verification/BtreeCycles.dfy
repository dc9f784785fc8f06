/** The cycles of the parent function that the validated child claims define, found by
    walking up from every page, and the claims they withdraw. */
module BtreeCycles {
  import opened Wrappers
  import opened Control
  import opened ClaimGraph
  import opened ClaimTables

  // ---------------------------------------------------------------- cycles of a parent map

  /** The page `n` steps above `p`; 0 stands for "above the root". */
  ghost function Up(parent: map<nat, nat>, p: nat, n: nat): nat
    decreases n
  {
    if n == 0 then p else if p in parent then Up(parent, parent[p], n - 1) else 0
  }

  ghost predicate OnCycle(parent: map<nat, nat>, p: nat) {
    p != 0 && exists n :: n >= 1 && Up(parent, p, n) == p
  }

  /** A duplicate-free list that the parent map goes around once. */
  ghost predicate IsCycle(parent: map<nat, nat>, cycle: seq<nat>) {
    && |cycle| >= 1
    && (forall a, b :: 0 <= a < b < |cycle| ==> cycle[a] != cycle[b])
    && (forall k :: 0 <= k < |cycle| ==> cycle[k] in parent)
    && (forall k :: 0 <= k < |cycle| - 1 ==> parent[cycle[k]] == cycle[k + 1])
    && parent[cycle[|cycle| - 1]] == cycle[0]
  }

  ghost predicate Listed(cycles: seq<seq<nat>>, p: nat) {
    exists c :: 0 <= c < |cycles| && p in cycles[c]
  }

  /** The cycles found among the pages in `done`, each once and nothing else. */
  ghost predicate CyclesWithin(parent: map<nat, nat>, done: set<nat>, cycles: seq<seq<nat>>) {
    && (forall c :: 0 <= c < |cycles| ==> IsCycle(parent, cycles[c]))
    && (forall c, p :: 0 <= c < |cycles| && p in cycles[c] ==> p in done)
    && (forall c, d, p :: 0 <= c < d < |cycles| && p in cycles[c] ==> p !in cycles[d])
    && (forall p :: p in done && OnCycle(parent, p) ==> Listed(cycles, p))
  }

  /** The list holds each cycle of the parent map exactly once, and nothing else. */
  ghost predicate AllCycles(parent: map<nat, nat>, cycles: seq<seq<nat>>) {
    && (forall c :: 0 <= c < |cycles| ==> IsCycle(parent, cycles[c]))
    && (forall c, d, p :: 0 <= c < d < |cycles| && p in cycles[c] ==> p !in cycles[d])
    && (forall p :: Listed(cycles, p) <==> OnCycle(parent, p))
  }

  lemma {:induction false} UpAdds(parent: map<nat, nat>, p: nat, m: nat, n: nat)
    requires 0 !in parent
    ensures Up(parent, p, m + n) == Up(parent, Up(parent, p, m), n)
    decreases m
  {
    if m > 0 && p in parent {
      UpAdds(parent, parent[p], m - 1, n);
    }
  }

  ghost predicate ClosedUp(parent: map<nat, nat>, pages: set<nat>) {
    forall p :: p in pages && p in parent ==> parent[p] in pages || parent[p] == 0
  }

  lemma {:induction false} UpStays(parent: map<nat, nat>, pages: set<nat>, p: nat, n: nat)
    requires 0 !in parent
    requires ClosedUp(parent, pages)
    requires p in pages || p == 0
    ensures Up(parent, p, n) in pages || Up(parent, p, n) == 0
    decreases n
  {
    if n > 0 && p in parent {
      UpStays(parent, pages, parent[p], n - 1);
    }
  }

  /** Going around often enough comes back after at least `bound` steps. */
  lemma {:induction false} Repeat(parent: map<nat, nat>, p: nat, n: nat, bound: nat) returns (m: nat)
    requires 0 !in parent
    requires n >= 1 && Up(parent, p, n) == p
    ensures m >= bound && Up(parent, p, m) == p
    decreases bound
  {
    if bound == 0 {
      m := 0;
    } else {
      var before := Repeat(parent, p, n, bound - 1);
      m := before + n;
      UpAdds(parent, p, before, n);
    }
  }

  /** A page that leads into a closed set without belonging to it lies on no cycle. */
  lemma LeadsAway(parent: map<nat, nat>, pages: set<nat>, p: nat, steps: nat)
    requires 0 !in parent
    requires ClosedUp(parent, pages)
    requires p !in pages
    requires Up(parent, p, steps) in pages || Up(parent, p, steps) == 0
    ensures !OnCycle(parent, p)
  {
    if OnCycle(parent, p) {
      var n :| n >= 1 && Up(parent, p, n) == p;
      var m := Repeat(parent, p, n, steps);
      UpAdds(parent, p, steps, m - steps);
      UpStays(parent, pages, Up(parent, p, steps), m - steps);
      assert false;
    }
  }

  lemma {:induction false} CycleUp(parent: map<nat, nat>, cycle: seq<nat>, k: nat, n: nat)
    requires IsCycle(parent, cycle)
    requires k + n < |cycle|
    ensures Up(parent, cycle[k], n) == cycle[k + n]
    decreases n
  {
    if n > 0 {
      CycleUp(parent, cycle, k + 1, n - 1);
    }
  }

  lemma ListedIsOnCycle(parent: map<nat, nat>, cycle: seq<nat>, p: nat)
    requires 0 !in parent
    requires IsCycle(parent, cycle)
    requires p in cycle
    ensures OnCycle(parent, p)
  {
    var k :| 0 <= k < |cycle| && cycle[k] == p;
    var last := |cycle| - 1;
    CycleUp(parent, cycle, k, last - k);
    UpAdds(parent, p, last - k, 1);
    assert Up(parent, cycle[last], 1) == Up(parent, cycle[0], 0) == cycle[0];
    CycleUp(parent, cycle, 0, k);
    UpAdds(parent, p, last - k + 1, k);
    assert Up(parent, p, last + 1) == p;
  }

  // ---------------------------------------------------------------- the walk up from one page

  /** `path` climbs from `start`, and `current` is the page it arrives at next (0 for none). */
  ghost predicate Climbs(parent: map<nat, nat>, start: nat, path: seq<nat>, current: nat) {
    && (forall a, b :: 0 <= a < b < |path| ==> path[a] != path[b])
    && (path == [] ==> current == start)
    && (path != [] ==> path[0] == start)
    && (forall k :: 0 <= k < |path| - 1 ==> path[k] in parent && parent[path[k]] == path[k + 1])
    && (path != [] ==>
          var top := path[|path| - 1]; current == if top in parent then parent[top] else 0)
    && 0 !in path
  }

  lemma {:induction false} ClimbUp(parent: map<nat, nat>, start: nat, path: seq<nat>, current: nat, k: nat, n: nat)
    requires Climbs(parent, start, path, current)
    requires k < |path|
    requires k + n <= |path|
    ensures Up(parent, path[k], n) == if k + n == |path| then current else path[k + n]
    decreases n
  {
    if n > 0 && k < |path| - 1 {
      ClimbUp(parent, start, path, current, k + 1, n - 1);
    }
  }

  ghost function Elements(path: seq<nat>): set<nat> {
    set k | 0 <= k < |path| :: path[k]
  }

  lemma ClimbCloses(parent: map<nat, nat>, done: set<nat>, start: nat, path: seq<nat>, current: nat)
    requires Climbs(parent, start, path, current)
    requires ClosedUp(parent, done)
    requires current == 0 || current in done || current in path
    ensures ClosedUp(parent, done + Elements(path))
  {
    var all := done + Elements(path);
    forall p | p in all && p in parent
      ensures parent[p] in all || parent[p] == 0
    {
      if p in path {
        var k :| 0 <= k < |path| && path[k] == p;
        assert k < |path| - 1 ==> path[k + 1] in Elements(path);
      }
    }
  }

  /** A climb that runs out, or reaches an explored page, met no new cycle. */
  lemma ClimbWithoutCycle(parent: map<nat, nat>, done: set<nat>, cycles: seq<seq<nat>>, start: nat, path: seq<nat>, current: nat)
    requires 0 !in parent && 0 !in done
    requires Climbs(parent, start, path, current)
    requires ClosedUp(parent, done) && CyclesWithin(parent, done, cycles)
    requires forall p :: p in path ==> p !in done
    requires current == 0 || current in done
    ensures ClosedUp(parent, done + Elements(path))
    ensures CyclesWithin(parent, done + Elements(path), cycles)
  {
    forall k | 0 <= k < |path|
      ensures !OnCycle(parent, path[k])
    {
      ClimbUp(parent, start, path, current, k, |path| - k);
      LeadsAway(parent, done, path[k], |path| - k);
    }
    ClimbCloses(parent, done, start, path, current);
  }

  /** The part of a climb before the position it returns to lies on no cycle. */
  lemma TailIsCycle(parent: map<nat, nat>, start: nat, path: seq<nat>, at: nat)
    requires 0 !in parent
    requires at < |path|
    requires Climbs(parent, start, path, path[at])
    ensures IsCycle(parent, path[at..])
    ensures forall k :: 0 <= k < at ==> !OnCycle(parent, path[k])
  {
    var cycle := path[at..];
    assert IsCycle(parent, cycle);
    forall p | p in Elements(cycle)
      ensures parent[p] in Elements(cycle)
    {
      var k :| 0 <= k < |cycle| && cycle[k] == p;
      assert cycle[if k == |cycle| - 1 then 0 else k + 1] in Elements(cycle);
    }
    forall k | 0 <= k < at
      ensures !OnCycle(parent, path[k])
    {
      ClimbUp(parent, start, path, path[at], k, at - k);
      assert path[at] == cycle[0];
      LeadsAway(parent, Elements(cycle), path[k], at - k);
    }
  }

  /** A climb that meets its own position `at` closes exactly one new cycle. */
  lemma ClimbWithCycle(parent: map<nat, nat>, done: set<nat>, cycles: seq<seq<nat>>, start: nat, path: seq<nat>, at: nat)
    requires 0 !in parent && 0 !in done
    requires at < |path|
    requires Climbs(parent, start, path, path[at])
    requires ClosedUp(parent, done) && CyclesWithin(parent, done, cycles)
    requires forall p :: p in path ==> p !in done
    ensures ClosedUp(parent, done + Elements(path))
    ensures CyclesWithin(parent, done + Elements(path), cycles + [path[at..]])
  {
    TailIsCycle(parent, start, path, at);
    ClimbCloses(parent, done, start, path, path[at]);
    AddCycle(parent, done, cycles, path, at);
  }

  lemma AddCycle(parent: map<nat, nat>, done: set<nat>, cycles: seq<seq<nat>>, path: seq<nat>, at: nat)
    requires at < |path|
    requires CyclesWithin(parent, done, cycles)
    requires forall p :: p in path ==> p !in done
    requires IsCycle(parent, path[at..])
    requires forall k :: 0 <= k < at ==> !OnCycle(parent, path[k])
    ensures CyclesWithin(parent, done + Elements(path), cycles + [path[at..]])
  {
    var cycle, more := path[at..], cycles + [path[at..]];
    var all := done + Elements(path);
    forall c, p | 0 <= c < |more| && p in more[c]
      ensures p in all
      ensures c == |cycles| ==> p !in done
    {
      if c == |cycles| {
        assert p in path;
      }
    }
    forall c, d, p | 0 <= c < d < |more| && p in more[c]
      ensures p !in more[d]
    {
      if d == |cycles| {
        assert p in done;
      }
    }
    forall p | p in all && OnCycle(parent, p)
      ensures Listed(more, p)
    {
      if p in done {
        var c :| 0 <= c < |cycles| && p in cycles[c];
        assert p in more[c];
      } else {
        var k :| 0 <= k < |path| && path[k] == p;
        assert cycle[k - at] == p;
        assert p in more[|cycles|];
      }
    }
  }

  /** Climbs from one unexplored page. `at` is the position the climb came back to, if it did. */
  method Climb(parent: map<nat, nat>, done: set<nat>, start: nat, control: WorkControl)
    returns (path: seq<nat>, current: nat, at: Option<nat>)
    requires start != 0 && start !in done
    modifies control`stop, control`failed
    ensures control.Later()
    ensures forall k :: 0 <= k < |path| ==> path[k] != 0 && path[k] !in done
    ensures at.Some? ==> at.value < |path|
    ensures at.Some? && !control.failed ==> Climbs(parent, start, path, path[at.value])
    ensures at.None? && !control.failed && !control.stop ==>
      Climbs(parent, start, path, current) && path != [] && path[0] == start && (current == 0 || current in done)
  {
    path, current, at := [], start, None;
    var positions: map<nat, nat> := map[];
    while current != 0 && current !in done
      invariant control.Later()
      invariant !control.failed ==> Climbs(parent, start, path, current)
      invariant forall k :: 0 <= k < |path| ==> path[k] != 0 && path[k] !in done && path[k] in positions
      invariant forall p :: p in positions ==> positions[p] < |path| && path[positions[p]] == p
      invariant current == 0 || current in parent.Values + {start}
      invariant positions.Keys <= parent.Values + {start}
      decreases (if current == 0 then 0 else 1), (parent.Values + {start}) - positions.Keys
    {
      var stopped := control.Stopped();
      if stopped {
        return;
      }
      if current in positions {
        var granted := control.ReserveMemory();
        if granted {
          at := Some(positions[current]);
        }
        return;
      }
      ghost var unexplored := (parent.Values + {start}) - positions.Keys;
      assert current in unexplored;
      positions := positions[current := |path|];
      assert (parent.Values + {start}) - positions.Keys == unexplored - {current};
      path := path + [current];
      var ok := control.Access();
      current := if ok && current in parent then parent[current] else 0;
    }
  }

  /** Follows parents from every page in turn; a page already explored ends the walk. */
  method FindCycles(parent: map<nat, nat>, pageCount: nat, control: WorkControl) returns (cycles: seq<seq<nat>>)
    requires !control.failed ==> 0 !in parent && forall p :: p in parent ==> p <= pageCount
    modifies control`stop, control`failed
    ensures control.Later()
    ensures !control.stop && !control.failed ==> AllCycles(parent, cycles)
  {
    cycles := [];
    var done: set<nat> := {};
    for start: nat := 1 to pageCount + 1
      invariant control.Later()
      invariant 0 !in done
      invariant !control.failed && !control.stop ==>
        ClosedUp(parent, done) && CyclesWithin(parent, done, cycles) && forall p :: 1 <= p < start ==> p in done
    {
      var stopped := control.Stopped();
      if stopped {
        return;
      }
      if start !in done {
        ghost var wasDone, wasCycles := done, cycles;
        var path, current, at := Climb(parent, done, start, control);
        if at.Some? {
          cycles := cycles + [path[at.value..]];
        }
        done := done + (set k | 0 <= k < |path| :: path[k]);
        if control.stop {
          return;
        }
        ghost var intact := !control.failed;
        if intact {
          ClimbExplored(parent, wasDone, wasCycles, start, path, current, at);
        }
      }
    }
    if !control.failed && !control.stop {
      CyclesComplete(parent, done, cycles, pageCount);
    }
  }

  lemma ClimbExplored(parent: map<nat, nat>, done: set<nat>, cycles: seq<seq<nat>>, start: nat, path: seq<nat>, current: nat, at: Option<nat>)
    requires 0 !in parent && 0 !in done
    requires ClosedUp(parent, done) && CyclesWithin(parent, done, cycles)
    requires forall p :: p in path ==> p !in done
    requires at.Some? ==> at.value < |path| && Climbs(parent, start, path, path[at.value])
    requires at.None? ==> Climbs(parent, start, path, current) && path != [] && (current == 0 || current in done)
    ensures ClosedUp(parent, done + Elements(path))
    ensures CyclesWithin(parent, done + Elements(path), if at.Some? then cycles + [path[at.value..]] else cycles)
    ensures start in done + Elements(path)
  {
    if at.Some? {
      ClimbWithCycle(parent, done, cycles, start, path, at.value);
    } else {
      ClimbWithoutCycle(parent, done, cycles, start, path, current);
    }
    assert path[0] == start;
  }

  lemma CyclesComplete(parent: map<nat, nat>, done: set<nat>, cycles: seq<seq<nat>>, pageCount: nat)
    requires 0 !in parent
    requires CyclesWithin(parent, done, cycles)
    requires forall p :: 1 <= p <= pageCount ==> p in done
    requires forall p :: p in parent ==> p <= pageCount
    ensures AllCycles(parent, cycles)
  {
    forall p
      ensures Listed(cycles, p) <==> OnCycle(parent, p)
    {
      if Listed(cycles, p) {
        var c :| 0 <= c < |cycles| && p in cycles[c];
        ListedIsOnCycle(parent, cycles[c], p);
      }
      if OnCycle(parent, p) {
        var n :| n >= 1 && Up(parent, p, n) == p;
        assert p in parent;
      }
    }
  }
}
