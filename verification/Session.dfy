/** The locked sections of a session as they change its data in place. Each is proved to be
    the protocol step of the same name, so what all runs of the protocol keep holds of it. */
module SessionData {
  import opened Wrappers
  import P = SessionProtocol

  class InspectionSession {
    const limits: P.Limits
    var state: P.SessionState
    var snapshot: bool
    var topologyActive: bool
    var pendingStop: Option<P.SessionState>
    var activeChecks: nat
    var cancelVerification: bool
    var shuttingDown: bool
    ghost var stoppedUnverified: bool
    var published: Option<nat>
    var revisions: map<nat, P.Origin>
    var tasks: map<nat, P.Task>
    var jobs: map<nat, P.Job>

    constructor (limits: P.Limits)
      ensures Now() == P.Initial(limits)
    {
      this.limits := limits;
      state, snapshot, topologyActive, pendingStop := P.Scanning, false, false, None;
      activeChecks, cancelVerification, shuttingDown, stoppedUnverified := 0, false, false, false;
      published, revisions, tasks, jobs := None, map[], map[], map[];
    }

    ghost function Now(): P.Session
      reads this
    {
      P.Session(state, snapshot, topologyActive, pendingStop, activeChecks, cancelVerification, shuttingDown,
        stoppedUnverified, published, revisions, tasks, jobs, limits)
    }

    /** Compares the inputs with what was accepted; a difference invalidates for good. */
    method Validate(changed: bool) returns (valid: bool)
      modifies this`state
      ensures Now() == P.Validate(old(Now()), changed)
      ensures valid == P.Valid(Now())
    {
      if state.Invalidated? {
        return false;
      }
      if changed {
        state := P.Invalidated;
      }
      valid := !changed;
    }

    /** A stop or cancel request. When nothing is running the caller goes on to publish what
        there is. */
    method Stop(cancel: bool, changed: bool) returns (publishNow: bool)
      modifies this`state, this`cancelVerification, this`stoppedUnverified, this`pendingStop
      ensures Now() == P.Stop(old(Now()), cancel, changed)
      ensures publishNow ==> Now() == old(Now()) && state.Scanning? && activeChecks == 0 && !topologyActive
    {
      publishNow := false;
      var valid := Validate(changed);
      if !valid || !state.Scanning? {
        return;
      }
      var goal := if cancel then P.Cancelled else P.Stopped;
      if activeChecks > 0 {
        cancelVerification, stoppedUnverified := true, true;
        state := goal;
      } else if topologyActive {
        pendingStop := Some(goal);
        state := goal;
      } else {
        publishNow := true;
      }
    }

    /** The topology of `task` is done: what it will publish, if anything. */
    method Decide(task: nat, reason: Option<P.SessionState>)
      requires P.AtStage(Now(), task, P.Inspecting)
      modifies this`topologyActive, this`pendingStop, this`tasks
      ensures Now() == P.Decide(old(Now()), task, reason)
    {
      topologyActive := false;
      if state.Invalidated? {
        tasks := tasks[task := tasks[task].(stage := P.Over)];
      } else if pendingStop.Some? {
        tasks := tasks[task := P.Task(P.Decided, pendingStop.value, true, false)];
        pendingStop := None;
      } else if state.Scanning? {
        var goal := if reason.Some? && P.Goal(reason.value) then reason.value else tasks[task].goal;
        tasks := tasks[task := P.Task(P.Decided, goal, false, false)];
      } else {
        tasks := tasks[task := tasks[task].(stage := P.Over)];
      }
    }

    /** Publishes revision 1, if the decision still stands. */
    method Publish(task: nat, changed: bool) returns (done: bool)
      requires P.AtStage(Now(), task, P.Publishing)
      modifies this`state, this`tasks, this`published, this`revisions
      ensures Now() == P.Publish(old(Now()), task, changed)
      ensures P.Inv(old(Now())) ==> P.Inv(Now()) && (done && snapshot ==> old(published).None? && published == Some(1))
    {
      hide P.Inv, P.Later;
      ghost var before := Now();
      var valid := Validate(changed);
      done := PublishIfStanding(task, valid);
      P.PublishResult(before, task, changed);
    }

    method PublishIfStanding(task: nat, valid: bool) returns (done: bool)
      requires P.AtStage(Now(), task, P.Publishing) && valid == P.Valid(Now())
      modifies this`state, this`tasks, this`published, this`revisions
      ensures Now() == P.PublishIfStanding(old(Now()), task)
      ensures done <==> valid && P.MayPublish(old(Now()), old(tasks)[task])
      ensures done && snapshot ==> published == Some(1)
    {
      var goal, tookStop := tasks[task].goal, tasks[task].tookStop;
      tasks := tasks[task := tasks[task].(stage := P.Over)];
      done := valid && if tookStop then state == goal else state.Scanning?;
      if done {
        if snapshot {
          published := Some(1);
          revisions := revisions[1 := P.FromTopology(task)];
        }
        state := goal;
      }
    }

    /** Requests cancellation of one job. */
    method CancelDeep(id: nat)
      modifies this`jobs
      ensures Now() == P.Cancel(old(Now()), id)
    {
      if id in jobs && jobs[id].state.Pending? {
        jobs := jobs[id := jobs[id].(cancelRequested := true)];
      }
    }

    /** Decides about a job while it holds the list of jobs. */
    method AdmitDeep(id: nat, refused: Option<P.DeepState>) returns (admitted: bool)
      requires id in jobs && jobs[id].phase.Requested?
      requires refused.Some? ==> refused.value != P.Completed && refused.value != P.Pending
      modifies this`jobs
      ensures Now() == P.Admit(old(Now()), id, refused)
      ensures admitted ==> id in jobs && jobs[id].admitted && jobs[id].phase.Running?
    {
      var retained, active := 0, 0;
      ghost var seen, seenActive: set<nat> := {}, {};
      var rest := jobs.Keys;
      while rest != {}
        invariant rest <= jobs.Keys && seen == set i | i in jobs.Keys - rest && jobs[i].admitted
        invariant seenActive == set i | i in jobs.Keys - rest && jobs[i].admitted && jobs[i].state.Pending?
        invariant retained == |seen| && active == |seenActive|
        decreases |rest|
      {
        var i: nat :| i in rest;
        rest := rest - {i};
        if jobs[i].admitted {
          seen, retained := seen + {i}, retained + 1;
          if jobs[i].state.Pending? {
            seenActive, active := seenActive + {i}, active + 1;
          }
        }
      }
      assert seen == P.Admitted(Now()) && seenActive == P.Active(Now());
      var reason := if shuttingDown then Some(P.JobCancelled)
        else if retained >= limits.maxJobs || active >= limits.maxConcurrent then Some(P.BudgetStopped)
        else refused;
      admitted := reason.None?;
      if admitted {
        jobs := jobs[id := jobs[id].(admitted := true, phase := P.Running)];
      } else {
        jobs := jobs[id := P.Finish(jobs[id], reason.value)];
      }
    }

    /** Publishes a job's evidence as the next revision, or says why not. */
    method CommitDeep(id: nat, changed: bool) returns (outcome: P.DeepState)
      requires id in jobs && jobs[id].phase.Running?
      modifies this`state, this`jobs, this`published, this`revisions
      ensures Now() == P.Commit(old(Now()), id, changed)
      ensures id in jobs && jobs[id].state == outcome
      ensures P.Inv(old(Now())) ==> P.Inv(Now()) && P.Later(old(Now()), Now())
      ensures outcome.Completed? <==>
        !old(state).Invalidated? && !changed && old(published) == Some(old(jobs)[id].target)
        && !old(jobs)[id].cancelRequested && old(jobs)[id].target < P.MAX_REVISION
    {
      hide P.Inv, P.Later, P.Complete, P.Refuse;
      ghost var before := Now();
      var valid := Validate(changed);
      var j := jobs[id];
      outcome := if !valid then P.InvalidatedSnapshot
        else if published != Some(j.target) then P.StaleRevision
        else if j.cancelRequested then P.JobCancelled
        else if j.target >= P.MAX_REVISION then P.Failed
        else P.Completed;
      if outcome.Completed? {
        PublishEvidence(id);
      } else {
        jobs := jobs[id := P.Finish(j, outcome)];
        assert Now() == P.Refuse(P.Validate(before, changed), id, outcome) by {
          P.RefuseMeans(P.Validate(before, changed), id, outcome);
        }
      }
      P.CommitResult(before, id, changed);
    }

    /** The evidence of a job becomes the next revision. */
    method PublishEvidence(id: nat)
      requires id in jobs
      modifies this`jobs, this`published, this`revisions
      ensures Now() == P.Complete(old(Now()), id)
      ensures id in jobs && jobs[id].state.Completed?
    {
      var j := jobs[id];
      var r := j.target + 1;
      revisions := revisions[r := P.FromJob(id)];
      published := Some(r);
      jobs := jobs[id := j.(state := P.Completed, result := Some(r), phase := P.Finished)];
    }
  }
}
