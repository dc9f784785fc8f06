/** The answers an inspection gets from outside while it works: a stop request, a refused
    memory reservation, an exhausted budget, a failed read or write of the private store.
    Each is nondeterministic, and each is latched: once raised it stays raised. */
module Control {

  class WorkControl {
    /** The stop latch: cancellation, operator stop, a phase or a memory ceiling. */
    var stop: bool
    /** The per-path page ceiling was binding for some traversal. */
    var budget: bool
    /** The ceiling on page identities over all traversals was reached. */
    var aggregate: bool
    /** The failure latch of the private store. */
    var failed: bool
    /** Whether the store, if it ever fails, fails beyond its spill budget; such a failure ends
        the session. */
    const unavailable: bool

    constructor (unavailable: bool)
      ensures !stop && !budget && !aggregate && !failed && this.unavailable == unavailable
    {
      stop, budget, aggregate, failed := false, false, false, false;
      this.unavailable := unavailable;
    }

    /** No latch is ever lowered. */
    twostate predicate Later()
      reads this
    {
      && (old(stop) ==> stop)
      && (old(budget) ==> budget)
      && (old(aggregate) ==> aggregate)
      && (old(failed) ==> failed)
    }

    /** Runs the budget check and reports the stop latch. The check looks at the store as well:
        an exhausted spill budget raises the latch. */
    method Stopped() returns (r: bool)
      modifies this`stop
      ensures r == stop
      ensures old(stop) ==> stop
      ensures failed && !unavailable ==> r
    {
      if !stop {
        stop := *;
      }
      if failed && !unavailable {
        stop := true;
      }
      r := stop;
    }

    /** A refused reservation always leaves the stop latch raised. */
    method ReserveMemory() returns (granted: bool)
      modifies this`stop
      ensures old(stop) ==> stop
      ensures !granted ==> stop
    {
      granted := *;
      if !granted {
        stop := true;
      }
    }

    /** One access to the private store; a raised latch makes every later access fail. */
    method Access() returns (ok: bool)
      modifies this`failed
      ensures ok == !failed
      ensures old(failed) ==> failed
    {
      if !failed {
        failed := *;
      }
      ok := !failed;
    }

    /** Puts an edited record back. This is tried even when the latch is raised, and may work
        then: the latch is looked at when a record is read, not when its guard is dropped. */
    method PutBack() returns (stored: bool)
      modifies this`failed
      ensures old(failed) ==> failed
      ensures !stored ==> failed
    {
      stored := *;
      if !stored {
        failed := true;
      }
    }

    /** A failure of the spill budget is cleared once its results have been contained. */
    method ClearBudgetStop()
      modifies this`failed
      ensures !failed
    {
      failed := false;
    }

    method MarkBudget()
      modifies this`budget
      ensures budget
    {
      budget := true;
    }

    method MarkAggregate()
      modifies this`budget, this`aggregate
      ensures budget && aggregate
    {
      budget, aggregate := true, true;
    }
  }
}
