/** The revision protocol of a session as atomic steps: every locked section of a scanner, a
    stopper, a deep worker or a canceller is one step, and any thread may take the next. */
module SessionProtocol {
  import opened Wrappers

  datatype SessionState = Scanning | Published | Cancelled | Stopped | Invalidated | Fatal

  /** Where one call of the publishing routine stands. */
  datatype Stage =
    | FirstCheck            // reading the inputs again before the topology
    | LeavingFirst(ok: bool) // the check is over but still counted as active
    | Entering
    | Inspecting            // owns the topology flag
    | Decided               // knows what it will publish
    | LastCheck
    | LeavingLast(ok: bool)
    | Publishing
    | Over

  /** One call of the publishing routine, or a query, which only verifies the inputs. */
  datatype Task = Task(stage: Stage, goal: SessionState, tookStop: bool, query: bool) {
    /** It took the stop that was left for a running topology. */
    predicate Token() {
      tookStop && !stage.Over?
    }

    /** Its verification counts as active. */
    predicate Checking() {
      stage.FirstCheck? || stage.LeavingFirst? || stage.LastCheck? || stage.LeavingLast?
    }
  }

  datatype DeepState = Pending | Completed | JobCancelled | BudgetStopped | InvalidTarget | StaleRevision | InvalidatedSnapshot | Failed

  datatype Phase = Requested | Running | Finished

  datatype Job = Job(target: nat, state: DeepState, result: Option<nat>, cancelRequested: bool, admitted: bool, phase: Phase)

  /** What a revision was made from. */
  datatype Origin = FromTopology(task: nat) | FromJob(job: nat)

  datatype Limits = Limits(maxJobs: nat, maxConcurrent: nat)

  const MAX_REVISION: nat := 0xFFFF_FFFF_FFFF_FFFF

  datatype Session = Session(
    state: SessionState,
    snapshot: bool,
    topologyActive: bool,
    pendingStop: Option<SessionState>,
    activeChecks: nat,
    cancelVerification: bool,
    shuttingDown: bool,
    /** A stop was taken while a verification was running. */
    stoppedUnverified: bool,
    published: Option<nat>,
    revisions: map<nat, Origin>,
    tasks: map<nat, Task>,
    jobs: map<nat, Job>,
    limits: Limits)

  function Initial(limits: Limits): Session {
    Session(Scanning, false, false, None, 0, false, false, false, None, map[], map[], map[], limits)
  }

  // ---------------------------------------------------------------- sections of scanning and stopping

  /** `validate`: an input that changed invalidates the session for good. */
  function Validate(s: Session, changed: bool): (r: Session)
    ensures r.published == s.published
    ensures r.tasks == s.tasks && r.activeChecks == s.activeChecks
  {
    if changed && !s.state.Invalidated? then s.(state := Invalidated) else s
  }

  predicate Valid(s: Session) {
    !s.state.Invalidated?
  }

  predicate AtStage(s: Session, t: nat, stage: Stage) {
    t in s.tasks && s.tasks[t].stage == stage
  }

  function SetTask(s: Session, t: nat, task: Task): (r: Session)
    ensures r.published == s.published
  {
    s.(tasks := s.tasks[t := task])
  }

  function SetStage(s: Session, t: nat, stage: Stage): (r: Session)
    requires t in s.tasks
    ensures r.published == s.published
  {
    SetTask(s, t, s.tasks[t].(stage := stage))
  }

  /** Reads the header, or finds that it cannot be read. */
  function ReadHeader(s: Session, changed: bool, readable: bool): (r: Session)
    ensures r.published == s.published
    ensures r.tasks == s.tasks && r.activeChecks == s.activeChecks
  {
    var v := Validate(s, changed);
    if !Valid(v) || !v.state.Scanning? || v.topologyActive || v.snapshot then v
    else if readable then v.(snapshot := true)
    else v.(state := Fatal)
  }

  predicate Goal(state: SessionState) {
    state.Published? || state.Cancelled? || state.Stopped?
  }

  /** Starts to publish: the inputs are verified first. */
  function BeginFinish(s: Session, t: nat, goal: SessionState, changed: bool): (r: Session)
    ensures r.published == s.published
  {
    var v := Validate(s, changed);
    if t in s.tasks || !Goal(goal) || !Valid(v) then v
    else SetTask(v, t, Task(FirstCheck, goal, false, false)).(activeChecks := v.activeChecks + 1)
  }

  /** A query, or a deep worker, starts to verify the inputs. */
  function BeginQuery(s: Session, t: nat, changed: bool): (r: Session)
    ensures r.published == s.published
  {
    var v := Validate(s, changed);
    if t in s.tasks || !Valid(v) then v
    else SetTask(v, t, Task(FirstCheck, Published, false, true)).(activeChecks := v.activeChecks + 1)
  }

  /** A verification ends: the inputs differ, it was interrupted, or they are the same. */
  datatype Check = Differ | Interrupted | Same

  function EndCheck(s: Session, t: nat, last: bool, check: Check, changed: bool): (r: Session)
    ensures r.published == s.published
  {
    if !AtStage(s, t, if last then LastCheck else FirstCheck) then s
    else
      var v := if check.Interrupted? then s else Validate(s, changed || check.Differ?);
      var ok := !check.Interrupted? && Valid(v);
      SetStage(v, t, if last then LeavingLast(ok) else LeavingFirst(ok))
  }

  /** The check stops counting as active only after the lock was given back. */
  function LeaveCheck(s: Session, t: nat): (r: Session)
    ensures r.published == s.published
  {
    if t !in s.tasks || s.activeChecks == 0 then s
    else
      var v := s.(activeChecks := s.activeChecks - 1);
      match s.tasks[t].stage
      case LeavingFirst(ok) => SetStage(v, t, if ok && !s.tasks[t].query then Entering else Over)
      case LeavingLast(ok) => SetStage(v, t, if ok then Publishing else Over)
      case _ => s
  }

  function EnterTopology(s: Session, t: nat, changed: bool): (r: Session)
    ensures r.published == s.published
  {
    if !AtStage(s, t, Entering) then s
    else
      var v := Validate(s, changed);
      if !Valid(v) || !v.state.Scanning? || v.topologyActive then SetStage(v, t, Over)
      else SetStage(v, t, Inspecting).(topologyActive := true)
  }

  /** The private store cannot be read any more. */
  function FailStorage(s: Session, t: nat): (r: Session)
    ensures r.published == s.published
  {
    if !AtStage(s, t, Inspecting) then s
    else SetStage(s, t, Over).(topologyActive := false, state := Fatal)
  }

  /** The topology is done. A stop that was left for it decides what is published; otherwise
      the work's own reason may turn the goal into a stop. */
  function Decide(s: Session, t: nat, reason: Option<SessionState>): (r: Session)
    ensures r.published == s.published
  {
    if !AtStage(s, t, Inspecting) then s
    else
      var v := s.(topologyActive := false);
      if v.state.Invalidated? then SetStage(v, t, Over)
      else if v.pendingStop.Some? then SetTask(v, t, Task(Decided, v.pendingStop.value, true, false)).(pendingStop := None)
      else if v.state.Scanning? then
        SetTask(v, t, Task(Decided, if reason.Some? && Goal(reason.value) then reason.value else s.tasks[t].goal, false, false))
      else SetStage(v, t, Over)
  }

  function BeginLastCheck(s: Session, t: nat, changed: bool): (r: Session)
    ensures r.published == s.published
  {
    if !AtStage(s, t, Decided) then s
    else
      var v := Validate(s, changed);
      if !Valid(v) then SetStage(v, t, Over) else SetStage(v, t, LastCheck).(activeChecks := v.activeChecks + 1)
  }

  predicate MayPublish(s: Session, task: Task) {
    if task.tookStop then s.state == task.goal else s.state.Scanning?
  }

  function Publish(s: Session, t: nat, changed: bool): Session {
    if !AtStage(s, t, Publishing) then s
    else
      PublishIfStanding(Validate(s, changed), t)
  }

  /** The decided outcome takes effect if it still stands. */
  function PublishIfStanding(v: Session, t: nat): Session
    requires t in v.tasks
  {
    var done := SetStage(v, t, Over);
    if !Valid(v) || !MayPublish(v, v.tasks[t]) then done
    else if v.snapshot then
      done.(state := v.tasks[t].goal, published := Some(1), revisions := v.revisions[1 := FromTopology(t)])
    else done.(state := v.tasks[t].goal)
  }

  function Stop(s: Session, cancel: bool, changed: bool): (r: Session)
    ensures r.published == s.published
    ensures r.tasks == s.tasks && r.activeChecks == s.activeChecks
  {
    var v, goal := Validate(s, changed), if cancel then Cancelled else Stopped;
    if !Valid(v) || !v.state.Scanning? then v
    else if v.activeChecks > 0 then v.(cancelVerification := true, state := goal, stoppedUnverified := true)
    else if v.topologyActive then v.(pendingStop := Some(goal), state := goal)
    else v
  }

  // ---------------------------------------------------------------- sections of deep jobs

  function Finish(j: Job, state: DeepState): Job {
    j.(state := state, result := None, phase := Finished)
  }

  function SetJob(s: Session, id: nat, j: Job): (r: Session)
    ensures r.published == s.published
    ensures r.tasks == s.tasks && r.activeChecks == s.activeChecks
  {
    s.(jobs := s.jobs[id := j])
  }

  /** A request for one revision's cell. `refused` is what scope and cell checks say. */
  function Request(s: Session, id: nat, target: nat, changed: bool, refused: Option<DeepState>): (r: Session)
    ensures r.published == s.published
    ensures r.tasks == s.tasks && r.activeChecks == s.activeChecks
  {
    if id in s.jobs then s
    else
      var v := Validate(s, changed);
      var j := Job(target, Pending, None, false, false, Requested);
      if !Valid(v) then SetJob(v, id, Finish(j, InvalidatedSnapshot))
      else if v.published.None? then SetJob(v, id, Finish(j, InvalidTarget))
      else if v.published.value != target then SetJob(v, id, Finish(j, StaleRevision))
      else if refused.Some? && refused.value != Completed && refused.value != Pending then SetJob(v, id, Finish(j, refused.value))
      else SetJob(v, id, j)
  }

  function Admitted(s: Session): set<nat> {
    set id | id in s.jobs && s.jobs[id].admitted
  }

  function Active(s: Session): set<nat> {
    set id | id in s.jobs && s.jobs[id].admitted && s.jobs[id].state.Pending?
  }

  /** Admission holds the list of jobs for the whole decision; rejected work is not kept. */
  function Admit(s: Session, id: nat, refused: Option<DeepState>): (r: Session)
    ensures r.published == s.published
    ensures r.tasks == s.tasks && r.activeChecks == s.activeChecks
  {
    if id !in s.jobs || !s.jobs[id].phase.Requested? then s
    else
      var j := s.jobs[id];
      if s.shuttingDown then SetJob(s, id, Finish(j, JobCancelled))
      else if |Admitted(s)| >= s.limits.maxJobs || |Active(s)| >= s.limits.maxConcurrent then SetJob(s, id, Finish(j, BudgetStopped))
      else if refused.Some? && refused.value != Completed && refused.value != Pending then SetJob(s, id, Finish(j, refused.value))
      else SetJob(s, id, j.(admitted := true, phase := Running))
  }

  /** A cancel is accepted only while the job is pending. */
  function Cancel(s: Session, id: nat): (r: Session)
    ensures r.published == s.published
    ensures r.tasks == s.tasks && r.activeChecks == s.activeChecks
  {
    if id in s.jobs && s.jobs[id].state.Pending? then SetJob(s, id, s.jobs[id].(cancelRequested := true)) else s
  }

  /** The worker gives up. */
  function Abandon(s: Session, id: nat, state: DeepState, changed: bool): (r: Session)
    ensures r.published == s.published
    ensures r.tasks == s.tasks && r.activeChecks == s.activeChecks
  {
    if id !in s.jobs || !s.jobs[id].phase.Running? || state.Completed? || state.Pending? then s
    else SetJob(Validate(s, changed), id, Finish(s.jobs[id], state))
  }

  /** The worker publishes its result as the next revision, if the session is still valid, the
      revision it read is still the latest, and nobody cancelled it. */
  function Commit(s: Session, id: nat, changed: bool): (r: Session)
    ensures r.tasks == s.tasks && r.activeChecks == s.activeChecks
  {
    if id !in s.jobs || !s.jobs[id].phase.Running? then s
    else
      var v, j := Validate(s, changed), s.jobs[id];
      if !Valid(v) then Refuse(v, id, InvalidatedSnapshot)
      else if v.published != Some(j.target) then Refuse(v, id, StaleRevision)
      else if j.cancelRequested then Refuse(v, id, JobCancelled)
      else if j.target >= MAX_REVISION then Refuse(v, id, Failed)
      else Complete(v, id)
  }

  function Refuse(s: Session, id: nat, outcome: DeepState): (r: Session)
    requires id in s.jobs
    ensures r.published == s.published
    ensures r.tasks == s.tasks && r.activeChecks == s.activeChecks
  {
    SetJob(s, id, Finish(s.jobs[id], outcome))
  }

  lemma RefuseMeans(s: Session, id: nat, outcome: DeepState)
    requires id in s.jobs
    ensures Refuse(s, id, outcome) == s.(jobs := s.jobs[id := Finish(s.jobs[id], outcome)])
  {
  }

  /** The evidence of a job becomes the next revision. */
  function Complete(s: Session, id: nat): (r: Session)
    requires id in s.jobs
    ensures r.tasks == s.tasks && r.activeChecks == s.activeChecks
  {
    var j := s.jobs[id];
    var number := j.target + 1;
    SetJob(s, id, j.(state := Completed, result := Some(number), phase := Finished))
      .(revisions := s.revisions[number := FromJob(id)], published := Some(number))
  }

  // ---------------------------------------------------------------- runs

  datatype Action =
    | DoObserve(changed: bool)
    | DoReadHeader(changed: bool, readable: bool)
    | DoBeginFinish(task: nat, goal: SessionState, changed: bool)
    | DoBeginQuery(task: nat, changed: bool)
    | DoEndCheck(task: nat, last: bool, check: Check, changed: bool)
    | DoLeaveCheck(task: nat)
    | DoEnterTopology(task: nat, changed: bool)
    | DoFailStorage(task: nat)
    | DoDecide(task: nat, reason: Option<SessionState>)
    | DoBeginLastCheck(task: nat, changed: bool)
    | DoPublish(task: nat, changed: bool)
    | DoStop(cancel: bool, changed: bool)
    | DoShutDown
    | DoRequest(job: nat, target: nat, changed: bool, refused: Option<DeepState>)
    | DoAdmit(job: nat, refused: Option<DeepState>)
    | DoCancel(job: nat)
    | DoAbandon(job: nat, state: DeepState, changed: bool)
    | DoCommit(job: nat, changed: bool)

  function Next(s: Session, a: Action): Session {
    match a
    case DoObserve(changed) => Validate(s, changed)
    case DoReadHeader(changed, readable) => ReadHeader(s, changed, readable)
    case DoBeginFinish(t, goal, changed) => BeginFinish(s, t, goal, changed)
    case DoBeginQuery(t, changed) => BeginQuery(s, t, changed)
    case DoEndCheck(t, last, check, changed) => EndCheck(s, t, last, check, changed)
    case DoLeaveCheck(t) => LeaveCheck(s, t)
    case DoEnterTopology(t, changed) => EnterTopology(s, t, changed)
    case DoFailStorage(t) => FailStorage(s, t)
    case DoDecide(t, reason) => Decide(s, t, reason)
    case DoBeginLastCheck(t, changed) => BeginLastCheck(s, t, changed)
    case DoPublish(t, changed) => Publish(s, t, changed)
    case DoStop(cancel, changed) => Stop(s, cancel, changed)
    case DoShutDown => s.(shuttingDown := true)
    case DoRequest(id, target, changed, refused) => Request(s, id, target, changed, refused)
    case DoAdmit(id, refused) => Admit(s, id, refused)
    case DoCancel(id) => Cancel(s, id)
    case DoAbandon(id, state, changed) => Abandon(s, id, state, changed)
    case DoCommit(id, changed) => Commit(s, id, changed)
  }

  function Run(limits: Limits, actions: seq<Action>): Session {
    if actions == [] then Initial(limits) else Next(Run(limits, actions[..|actions| - 1]), actions[|actions| - 1])
  }

  // ---------------------------------------------------------------- what every step keeps

  /** Revisions are numbered 1 to the published one: the first came from the topology and each
      later one from the job that completed with it. */
  ghost predicate Numbered(s: Session) {
    && (s.published.None? ==> s.revisions == map[])
    && (s.published.Some? ==>
         && s.published.value >= 1
         && (forall r :: r in s.revisions <==> 1 <= r <= s.published.value)
         && s.revisions[1].FromTopology?
         && (forall r :: 2 <= r <= s.published.value ==>
              s.revisions[r].FromJob? && s.revisions[r].job in s.jobs && s.jobs[s.revisions[r].job].result == Some(r)))
  }

  ghost predicate JobKept(s: Session, id: nat)
    requires id in s.jobs
  {
    var j := s.jobs[id];
    && (j.state.Pending? <==> !j.phase.Finished?)
    && (j.state.Completed? <==> j.result.Some?)
    && (j.phase.Requested? ==> !j.admitted) && (j.phase.Running? ==> j.admitted)
    && (j.cancelRequested ==> !j.state.Completed?)
    && (j.state.Completed? ==>
         j.result == Some(j.target + 1) && j.target + 1 in s.revisions && s.revisions[j.target + 1] == FromJob(id))
  }

  ghost predicate WithinLimits(s: Session) {
    |Admitted(s)| <= s.limits.maxJobs && |Active(s)| <= s.limits.maxConcurrent
  }

  /** There is at most one stop left for a topology to publish, and while there is one nothing
      has been published. */
  ghost predicate OneToken(s: Session) {
    && (forall t, u :: t in s.tasks && u in s.tasks && s.tasks[t].Token() && s.tasks[u].Token() ==> t == u)
    && (forall t :: t in s.tasks && s.tasks[t].Token() ==> s.pendingStop.None?)
    && (s.pendingStop.Some? ==> Goal(s.pendingStop.value))
    && (forall t :: t in s.tasks ==> Goal(s.tasks[t].goal))
  }

  ghost predicate TokenAlive(s: Session) {
    s.pendingStop.Some? || exists t :: t in s.tasks && s.tasks[t].Token()
  }

  ghost predicate Exclusive(s: Session) {
    && (TokenAlive(s) ==> !s.state.Scanning? && s.published.None? && !s.stoppedUnverified)
    && (s.published.Some? ==> !s.state.Scanning?)
    && (s.stoppedUnverified ==> !s.state.Scanning? && s.published.None?)
  }

  ghost predicate Inv(s: Session) {
    && Numbered(s) && (forall id :: id in s.jobs ==> JobKept(s, id)) && WithinLimits(s)
    && OneToken(s) && Exclusive(s)
  }

  /** What no step takes back. */
  ghost predicate Later(s: Session, t: Session) {
    && (forall r :: r in s.revisions ==> r in t.revisions && t.revisions[r] == s.revisions[r])
    && (s.published.Some? ==> t.published.Some? && t.published.value >= s.published.value)
    && (t.state.Scanning? ==> s.state.Scanning?)
    && (s.stoppedUnverified ==> t.stoppedUnverified) && t.limits == s.limits
    && (forall id :: id in s.jobs ==> id in t.jobs && JobLater(s.jobs[id], t.jobs[id]))
  }

  ghost predicate JobLater(j: Job, k: Job) {
    && k.target == j.target && (j.cancelRequested ==> k.cancelRequested) && (j.admitted ==> k.admitted)
    && (j.phase.Finished? ==> k == j)
  }

  // ---------------------------------------------------------------- every step keeps it

  ghost predicate Keeps(s: Session, t: Session) {
    Inv(t) && Later(s, t)
  }

  lemma KeepsTwice(s: Session, t: Session, u: Session)
    requires Keeps(s, t) && Keeps(t, u)
    ensures Keeps(s, u)
  {
    forall id | id in s.jobs
      ensures id in u.jobs && JobLater(s.jobs[id], u.jobs[id])
    {
      assert JobLater(s.jobs[id], t.jobs[id]) && JobLater(t.jobs[id], u.jobs[id]);
    }
  }

  lemma KeepsSame(s: Session)
    requires Inv(s)
    ensures Keeps(s, s)
  {
  }

  /** Steps that touch no job keep what is said of jobs. */
  lemma SameJobs(s: Session, t: Session)
    requires s.jobs == t.jobs && s.limits == t.limits
    requires forall r :: r in s.revisions ==> r in t.revisions && t.revisions[r] == s.revisions[r]
    ensures (forall id :: id in s.jobs ==> JobKept(s, id)) ==> forall id :: id in t.jobs ==> JobKept(t, id)
    ensures WithinLimits(s) ==> WithinLimits(t)
  {
    if forall id :: id in s.jobs ==> JobKept(s, id) {
      forall id | id in t.jobs
        ensures JobKept(t, id)
      {
        assert JobKept(s, id);
      }
    }
    assert Admitted(s) == Admitted(t) && Active(s) == Active(t);
  }

  lemma ValidateKeeps(s: Session, changed: bool)
    requires Inv(s)
    ensures Keeps(s, Validate(s, changed))
  {
    SameJobs(s, Validate(s, changed));
  }

  /** Moving one task along keeps the bookkeeping, if it gains no token. */
  lemma TaskMoves(s: Session, t: nat, task: Task)
    requires Inv(s) && Goal(task.goal) && (task.Token() ==> t in s.tasks && s.tasks[t].Token())
    ensures Keeps(s, SetTask(s, t, task))
  {
    var after := SetTask(s, t, task);
    SameJobs(s, after);
    assert TokenAlive(after) ==> TokenAlive(s);
  }

  lemma StageMoves(s: Session, t: nat, stage: Stage)
    requires Inv(s) && t in s.tasks && !s.tasks[t].stage.Over?
    ensures Keeps(s, SetStage(s, t, stage))
  {
    TaskMoves(s, t, s.tasks[t].(stage := stage));
  }

  lemma CountsKeep(s: Session, n: nat)
    requires Inv(s)
    ensures Keeps(s, s.(activeChecks := n))
  {
    SameJobs(s, s.(activeChecks := n));
  }

  /** A new task starts with a verification. */
  lemma NewTask(s: Session, v: Session, t: nat, task: Task)
    requires Keeps(s, v) && t !in v.tasks && task.stage.FirstCheck? && Goal(task.goal) && !task.tookStop
    ensures Keeps(s, SetTask(v, t, task).(activeChecks := v.activeChecks + 1))
  {
    TaskMoves(v, t, task);
    CountsKeep(SetTask(v, t, task), v.activeChecks + 1);
    hide Inv, Later;
    KeepsTwice(s, v, SetTask(v, t, task));
    KeepsTwice(s, SetTask(v, t, task), SetTask(v, t, task).(activeChecks := v.activeChecks + 1));
  }

  lemma BeginFinishKeeps(s: Session, t: nat, goal: SessionState, changed: bool)
    requires Inv(s)
    ensures Keeps(s, BeginFinish(s, t, goal, changed))
  {
    hide Inv, Later, Keeps;
    ValidateKeeps(s, changed);
    var v := Validate(s, changed);
    if !(t in s.tasks || !Goal(goal) || !Valid(v)) {
      NewTask(s, v, t, Task(FirstCheck, goal, false, false));
    }
  }

  lemma BeginQueryKeeps(s: Session, t: nat, changed: bool)
    requires Inv(s)
    ensures Keeps(s, BeginQuery(s, t, changed))
  {
    hide Inv, Later, Keeps;
    ValidateKeeps(s, changed);
    var v := Validate(s, changed);
    if !(t in s.tasks || !Valid(v)) {
      NewTask(s, v, t, Task(FirstCheck, Published, false, true));
    }
  }

  lemma AfterValidate(s: Session, changed: bool, t: Session)
    requires Inv(s)
    requires Inv(Validate(s, changed)) ==> Keeps(Validate(s, changed), t)
    ensures Keeps(s, t)
  {
    ValidateKeeps(s, changed);
    KeepsTwice(s, Validate(s, changed), t);
  }

  lemma EndCheckKeeps(s: Session, t: nat, last: bool, check: Check, changed: bool)
    requires Inv(s)
    ensures Keeps(s, EndCheck(s, t, last, check, changed))
  {
    hide Inv, Later, Keeps;
    KeepsSame(s);
    if AtStage(s, t, if last then LastCheck else FirstCheck) {
      var v := if check.Interrupted? then s else Validate(s, changed || check.Differ?);
      var ok := !check.Interrupted? && Valid(v);
      var stage := if last then LeavingLast(ok) else LeavingFirst(ok);
      if Inv(v) {
        StageMoves(v, t, stage);
      }
      if !check.Interrupted? {
        AfterValidate(s, changed || check.Differ?, SetStage(v, t, stage));
      }
    }
  }

  lemma LeaveCheckKeeps(s: Session, t: nat)
    requires Inv(s)
    ensures Keeps(s, LeaveCheck(s, t))
  {
    hide Inv, Later, Keeps;
    KeepsSame(s);
    if t in s.tasks && s.activeChecks > 0 {
      var v := s.(activeChecks := s.activeChecks - 1);
      CountsKeep(s, s.activeChecks - 1);
      KeepsInv(s, v);
      match s.tasks[t].stage
      case LeavingFirst(ok) => LeaveKeeps(s, v, t, if ok && !s.tasks[t].query then Entering else Over);
      case LeavingLast(ok) => LeaveKeeps(s, v, t, if ok then Publishing else Over);
      case _ =>
    }
  }

  lemma KeepsInv(s: Session, t: Session)
    requires Keeps(s, t)
    ensures Inv(t)
  {
  }

  lemma LeaveKeeps(s: Session, v: Session, t: nat, stage: Stage)
    requires Keeps(s, v) && t in v.tasks && !v.tasks[t].stage.Over?
    ensures Keeps(s, SetStage(v, t, stage))
  {
    StageMoves(v, t, stage);
    KeepsTwice(s, v, SetStage(v, t, stage));
  }

  lemma BeginLastCheckKeeps(s: Session, t: nat, changed: bool)
    requires Inv(s)
    ensures Keeps(s, BeginLastCheck(s, t, changed))
  {
    hide Inv, Later, Keeps;
    KeepsSame(s);
    if AtStage(s, t, Decided) {
      var v := Validate(s, changed);
      if Inv(v) {
        StageMoves(v, t, if Valid(v) then LastCheck else Over);
        KeepsInv(v, SetStage(v, t, if Valid(v) then LastCheck else Over));
        if Valid(v) {
          CountsKeep(SetStage(v, t, LastCheck), v.activeChecks + 1);
          KeepsTwice(v, SetStage(v, t, LastCheck), SetStage(v, t, LastCheck).(activeChecks := v.activeChecks + 1));
        }
      }
      AfterValidate(s, changed, BeginLastCheck(s, t, changed));
    }
  }

  /** Taking or giving back the topology flag, and leaving Scanning for good. */
  lemma FlagsKeep(s: Session, active: bool, snapshot: bool, fatal: bool)
    requires Inv(s)
    ensures Keeps(s, s.(topologyActive := active, snapshot := snapshot, state := if fatal then Fatal else s.state))
  {
    SameJobs(s, s.(topologyActive := active, snapshot := snapshot, state := if fatal then Fatal else s.state));
  }

  lemma EnterTopologyKeeps(s: Session, t: nat, changed: bool)
    requires Inv(s)
    ensures Keeps(s, EnterTopology(s, t, changed))
  {
    KeepsSame(s);
    ValidateKeeps(s, changed);
    hide Inv, Later;
    if AtStage(s, t, Entering) {
      var v := Validate(s, changed);
      var over := !Valid(v) || !v.state.Scanning? || v.topologyActive;
      var w := SetStage(v, t, if over then Over else Inspecting);
      StageMoves(v, t, if over then Over else Inspecting);
      KeepsTwice(s, v, w);
      if !over {
        FlagsKeep(w, true, w.snapshot, false);
        KeepsTwice(s, w, EnterTopology(s, t, changed));
      }
    }
  }

  lemma FailStorageKeeps(s: Session, t: nat)
    requires Inv(s)
    ensures Keeps(s, FailStorage(s, t))
  {
    KeepsSame(s);
    hide Inv, Later;
    if AtStage(s, t, Inspecting) {
      StageMoves(s, t, Over);
      FlagsKeep(SetStage(s, t, Over), false, s.snapshot, true);
      KeepsTwice(s, SetStage(s, t, Over), FailStorage(s, t));
    }
  }

  lemma ReadHeaderKeeps(s: Session, changed: bool, readable: bool)
    requires Inv(s)
    ensures Keeps(s, ReadHeader(s, changed, readable))
  {
    ValidateKeeps(s, changed);
    hide Inv, Later;
    var v := Validate(s, changed);
    if !(!Valid(v) || !v.state.Scanning? || v.topologyActive || v.snapshot) {
      FlagsKeep(v, v.topologyActive, readable, !readable);
      KeepsTwice(s, v, ReadHeader(s, changed, readable));
    }
  }

  /** Taking the stop that was left moves the one token from the session to the task. */
  lemma TokenMoves(s: Session, t: nat)
    requires Inv(s) && t in s.tasks && s.pendingStop.Some?
    ensures Keeps(s, SetTask(s, t, Task(Decided, s.pendingStop.value, true, false)).(pendingStop := None))
  {
    var after := SetTask(s, t, Task(Decided, s.pendingStop.value, true, false)).(pendingStop := None);
    SameJobs(s, after);
    assert TokenAlive(s);
  }

  lemma DecideKeeps(s: Session, t: nat, reason: Option<SessionState>)
    requires Inv(s)
    ensures Keeps(s, Decide(s, t, reason))
  {
    KeepsSame(s);
    if AtStage(s, t, Inspecting) {
      var v := s.(topologyActive := false);
      FlagsKeep(s, false, s.snapshot, false);
      if !v.state.Invalidated? && v.pendingStop.Some? {
        TokenMoves(v, t);
      } else if v.state.Scanning? {
        TaskMoves(v, t, Task(Decided, if reason.Some? && Goal(reason.value) then reason.value else s.tasks[t].goal, false, false));
      } else {
        StageMoves(v, t, Over);
      }
      hide Inv, Later;
      KeepsTwice(s, v, Decide(s, t, reason));
    }
  }

  /** Revision 1 is published by a task that may: nothing was published before, and no other
      stop is left to be published. */
  lemma FirstRevision(s: Session, t: nat)
    requires Inv(s) && t in s.tasks && !s.tasks[t].stage.Over? && MayPublish(s, s.tasks[t])
    ensures s.published.None?
    ensures Keeps(s, SetStage(s, t, Over).(state := s.tasks[t].goal))
    ensures Keeps(s, SetStage(s, t, Over).(state := s.tasks[t].goal, published := Some(1), revisions := s.revisions[1 := FromTopology(t)]))
  {
    var goal := SetStage(s, t, Over).(state := s.tasks[t].goal);
    var done := goal.(published := Some(1), revisions := s.revisions[1 := FromTopology(t)]);
    assert s.tasks[t].tookStop ==> s.tasks[t].Token() && TokenAlive(s);
    SameJobs(s, goal);
    SameJobs(s, done);
    assert !TokenAlive(goal) by {
      assert TokenAlive(goal) ==> TokenAlive(s);
    }
    assert !TokenAlive(done) by {
      assert TokenAlive(done) ==> TokenAlive(goal);
    }
  }

  lemma PublishKeeps(s: Session, t: nat, changed: bool)
    requires Inv(s)
    ensures Keeps(s, Publish(s, t, changed))
  {
    KeepsSame(s);
    ValidateKeeps(s, changed);
    hide Inv, Later;
    if AtStage(s, t, Publishing) {
      var v := Validate(s, changed);
      if !Valid(v) || !MayPublish(v, s.tasks[t]) {
        StageMoves(v, t, Over);
      } else {
        FirstRevision(v, t);
      }
      KeepsTwice(s, v, Publish(s, t, changed));
    }
  }

  /** A stop that is left for a running topology, or that is taken while the inputs are being
      verified, finds nothing published and no other stop. */
  lemma StopTaken(s: Session, goal: SessionState)
    requires Inv(s) && s.state.Scanning? && (goal.Cancelled? || goal.Stopped?)
    ensures Keeps(s, s.(cancelVerification := true, state := goal, stoppedUnverified := true))
    ensures Keeps(s, s.(pendingStop := Some(goal), state := goal))
  {
    var unverified, left := s.(cancelVerification := true, state := goal, stoppedUnverified := true), s.(pendingStop := Some(goal), state := goal);
    SameJobs(s, unverified);
    SameJobs(s, left);
    assert !TokenAlive(s);
    assert !TokenAlive(unverified);
  }

  lemma StopKeeps(s: Session, cancel: bool, changed: bool)
    requires Inv(s)
    ensures Keeps(s, Stop(s, cancel, changed))
  {
    hide Inv, Later, Keeps;
    var v, goal := Validate(s, changed), if cancel then Cancelled else Stopped;
    if Inv(v) {
      KeepsSame(v);
      if Valid(v) && v.state.Scanning? {
        StopTaken(v, goal);
      }
    }
    AfterValidate(s, changed, Stop(s, cancel, changed));
  }

  // ---------------------------------------------------------------- deep jobs

  lemma {:induction false} SetsFit(small: set<nat>, large: set<nat>)
    requires small <= large
    ensures |small| <= |large|
  {
    if small != {} {
      var x :| x in small;
      SetsFit(small - {x}, large - {x});
    }
  }

  /** A job that changes without being admitted takes no place from the limits. */
  lemma LimitsKeep(s: Session, id: nat, j: Job)
    requires WithinLimits(s)
    requires j.admitted ==> id in s.jobs && s.jobs[id].admitted && (j.state.Pending? ==> s.jobs[id].state.Pending?)
    ensures WithinLimits(SetJob(s, id, j))
  {
    SetsFit(Admitted(SetJob(s, id, j)), Admitted(s));
    SetsFit(Active(SetJob(s, id, j)), Active(s));
  }

  /** One job changes; no revision does. */
  lemma JobMoves(s: Session, id: nat, j: Job)
    requires Inv(s)
    requires id in s.jobs ==> !s.jobs[id].phase.Finished? && JobLater(s.jobs[id], j)
    requires !j.state.Completed? && JobKept(SetJob(s, id, j), id)
    requires j.admitted ==> id in s.jobs && s.jobs[id].admitted && (j.state.Pending? ==> s.jobs[id].state.Pending?)
    ensures Keeps(s, SetJob(s, id, j))
  {
    var after := SetJob(s, id, j);
    LimitsKeep(s, id, j);
    forall other | other in after.jobs
      ensures JobKept(after, other)
    {
      assert other != id ==> JobKept(s, other);
    }
    assert id in s.jobs ==> JobKept(s, id);
    assert TokenAlive(after) <==> TokenAlive(s);
  }

  lemma FinishKeeps(s: Session, id: nat, j: Job, state: DeepState)
    requires Inv(s) && !state.Completed? && !state.Pending?
    requires id in s.jobs ==> s.jobs[id] == j && !j.phase.Finished?
    requires id !in s.jobs ==> !j.admitted && !j.cancelRequested
    ensures Keeps(s, SetJob(s, id, Finish(j, state)))
  {
    JobMoves(s, id, Finish(j, state));
  }

  /** A new job that is refused at once, or waits for admission. */
  lemma NewJob(s: Session, id: nat, target: nat, refusal: Option<DeepState>)
    requires Inv(s) && id !in s.jobs && (refusal.Some? ==> !refusal.value.Completed? && !refusal.value.Pending?)
    ensures var j := Job(target, Pending, None, false, false, Requested);
      Keeps(s, SetJob(s, id, if refusal.Some? then Finish(j, refusal.value) else j))
  {
    var j := Job(target, Pending, None, false, false, Requested);
    JobMoves(s, id, if refusal.Some? then Finish(j, refusal.value) else j);
  }

  function Refusal(v: Session, target: nat, refused: Option<DeepState>): Option<DeepState> {
    if !Valid(v) then Some(InvalidatedSnapshot)
    else if v.published.None? then Some(InvalidTarget)
    else if v.published.value != target then Some(StaleRevision)
    else if refused.Some? && refused.value != Completed && refused.value != Pending then refused
    else None
  }

  lemma RequestKeeps(s: Session, id: nat, target: nat, changed: bool, refused: Option<DeepState>)
    requires Inv(s)
    ensures Keeps(s, Request(s, id, target, changed, refused))
  {
    hide Inv, Later, Keeps;
    KeepsSame(s);
    if id !in s.jobs {
      var v := Validate(s, changed);
      if Inv(v) {
        NewJob(v, id, target, Refusal(v, target, refused));
      }
      AfterValidate(s, changed, Request(s, id, target, changed, refused));
    }
  }

  lemma OneMorePlace(s: Session, id: nat)
    requires id in s.jobs && !s.jobs[id].admitted
    requires |Admitted(s)| < s.limits.maxJobs && |Active(s)| < s.limits.maxConcurrent
    ensures WithinLimits(SetJob(s, id, s.jobs[id].(admitted := true, phase := Running)))
  {
    var after := SetJob(s, id, s.jobs[id].(admitted := true, phase := Running));
    assert Admitted(after) == Admitted(s) + {id};
    assert Active(after) <= Active(s) + {id};
    SetsFit(Active(after), Active(s) + {id});
  }

  /** Admission checks both limits before it takes a place. */
  lemma AdmitOne(s: Session, id: nat)
    requires Inv(s) && id in s.jobs && s.jobs[id].phase.Requested?
    requires |Admitted(s)| < s.limits.maxJobs && |Active(s)| < s.limits.maxConcurrent
    ensures Keeps(s, SetJob(s, id, s.jobs[id].(admitted := true, phase := Running)))
  {
    var j := s.jobs[id].(admitted := true, phase := Running);
    var after := SetJob(s, id, j);
    assert JobKept(s, id);
    OneMorePlace(s, id);
    hide Admitted, Active;
    forall other | other in after.jobs
      ensures JobKept(after, other)
    {
      assert JobKept(s, other);
    }
    assert TokenAlive(after) <==> TokenAlive(s);
  }

  lemma AdmitKeeps(s: Session, id: nat, refused: Option<DeepState>)
    requires Inv(s)
    ensures Keeps(s, Admit(s, id, refused))
  {
    KeepsSame(s);
    if id in s.jobs && s.jobs[id].phase.Requested? {
      var full := |Admitted(s)| >= s.limits.maxJobs || |Active(s)| >= s.limits.maxConcurrent;
      if s.shuttingDown {
        FinishKeeps(s, id, s.jobs[id], JobCancelled);
      } else if full {
        FinishKeeps(s, id, s.jobs[id], BudgetStopped);
      } else if refused.Some? && refused.value != Completed && refused.value != Pending {
        FinishKeeps(s, id, s.jobs[id], refused.value);
      } else {
        AdmitOne(s, id);
      }
    }
  }

  lemma CancelKeeps(s: Session, id: nat)
    requires Inv(s)
    ensures Keeps(s, Cancel(s, id))
  {
    KeepsSame(s);
    if id in s.jobs && s.jobs[id].state.Pending? {
      assert JobKept(s, id);
      JobMoves(s, id, s.jobs[id].(cancelRequested := true));
    }
  }

  lemma AbandonKeeps(s: Session, id: nat, state: DeepState, changed: bool)
    requires Inv(s)
    ensures Keeps(s, Abandon(s, id, state, changed))
  {
    KeepsSame(s);
    if !(id !in s.jobs || !s.jobs[id].phase.Running? || state.Completed? || state.Pending?) {
      ValidateKeeps(s, changed);
      FinishKeeps(Validate(s, changed), id, s.jobs[id], state);
      hide Inv, Later, Keeps;
      AfterValidate(s, changed, Abandon(s, id, state, changed));
    }
  }

  /** A committed job adds exactly the next revision. */
  lemma CommitOne(s: Session, id: nat)
    requires Inv(s) && id in s.jobs && s.jobs[id].phase.Running? && !s.jobs[id].cancelRequested
    requires s.published == Some(s.jobs[id].target)
    ensures var r := s.jobs[id].target + 1;
      Keeps(s, SetJob(s, id, s.jobs[id].(state := Completed, result := Some(r), phase := Finished))
                 .(revisions := s.revisions[r := FromJob(id)], published := Some(r)))
  {
    var r := s.jobs[id].target + 1;
    var j := s.jobs[id].(state := Completed, result := Some(r), phase := Finished);
    var after := SetJob(s, id, j).(revisions := s.revisions[r := FromJob(id)], published := Some(r));
    assert JobKept(s, id);
    LimitsKeep(s, id, j);
    assert Admitted(after) == Admitted(SetJob(s, id, j)) && Active(after) == Active(SetJob(s, id, j));
    forall other | other in after.jobs
      ensures JobKept(after, other)
    {
      assert other != id ==> JobKept(s, other);
    }
    assert TokenAlive(after) <==> TokenAlive(s);
  }

  lemma CommitKeeps(s: Session, id: nat, changed: bool)
    requires Inv(s)
    ensures Keeps(s, Commit(s, id, changed))
  {
    KeepsSame(s);
    if id in s.jobs && s.jobs[id].phase.Running? {
      var v, j := Validate(s, changed), s.jobs[id];
      ValidateKeeps(s, changed);
      if !Valid(v) {
        FinishKeeps(v, id, j, InvalidatedSnapshot);
      } else if v.published != Some(j.target) {
        FinishKeeps(v, id, j, StaleRevision);
      } else if j.cancelRequested {
        FinishKeeps(v, id, j, JobCancelled);
      } else if j.target >= MAX_REVISION {
        FinishKeeps(v, id, j, Failed);
      } else {
        CommitOne(v, id);
      }
      hide Inv, Later, Keeps;
      AfterValidate(s, changed, Commit(s, id, changed));
    }
  }

  // ---------------------------------------------------------------- all runs

  lemma NextKeeps(s: Session, a: Action)
    requires Inv(s)
    ensures Keeps(s, Next(s, a))
  {
    hide Inv, Later, Keeps;
    match a
    case DoObserve(changed) => ValidateKeeps(s, changed);
    case DoReadHeader(changed, readable) => ReadHeaderKeeps(s, changed, readable);
    case DoBeginFinish(t, goal, changed) => BeginFinishKeeps(s, t, goal, changed);
    case DoBeginQuery(t, changed) => BeginQueryKeeps(s, t, changed);
    case DoEndCheck(t, last, check, changed) => EndCheckKeeps(s, t, last, check, changed);
    case DoLeaveCheck(t) => LeaveCheckKeeps(s, t);
    case DoEnterTopology(t, changed) => EnterTopologyKeeps(s, t, changed);
    case DoFailStorage(t) => FailStorageKeeps(s, t);
    case DoDecide(t, reason) => DecideKeeps(s, t, reason);
    case DoBeginLastCheck(t, changed) => BeginLastCheckKeeps(s, t, changed);
    case DoPublish(t, changed) => PublishKeeps(s, t, changed);
    case DoStop(cancel, changed) => StopKeeps(s, cancel, changed);
    case DoShutDown => ShutDownKeeps(s);
    case DoRequest(id, target, changed, refused) => RequestKeeps(s, id, target, changed, refused);
    case DoAdmit(id, refused) => AdmitKeeps(s, id, refused);
    case DoCancel(id) => CancelKeeps(s, id);
    case DoAbandon(id, state, changed) => AbandonKeeps(s, id, state, changed);
    case DoCommit(id, changed) => CommitKeeps(s, id, changed);
  }

  lemma ShutDownKeeps(s: Session)
    requires Inv(s)
    ensures Keeps(s, s.(shuttingDown := true))
  {
    SameJobs(s, s.(shuttingDown := true));
  }

  lemma InitialInv(limits: Limits)
    ensures Inv(Initial(limits))
  {
    assert Admitted(Initial(limits)) == {} && Active(Initial(limits)) == {};
  }

  lemma {:induction false} RunInv(limits: Limits, actions: seq<Action>)
    ensures Inv(Run(limits, actions))
  {
    if actions == [] {
      InitialInv(limits);
    } else {
      var rest := actions[..|actions| - 1];
      RunInv(limits, rest);
      NextKeeps(Run(limits, rest), actions[|actions| - 1]);
    }
  }

  /** From any point of a run to any later one. */
  lemma {:induction false} RunLater(limits: Limits, actions: seq<Action>, n: nat)
    requires n <= |actions|
    ensures Later(Run(limits, actions[..n]), Run(limits, actions))
  {
    RunInv(limits, actions[..n]);
    if n == |actions| {
      assert actions[..n] == actions;
      KeepsSame(Run(limits, actions));
    } else {
      var rest := actions[..|actions| - 1];
      assert rest[..n] == actions[..n];
      RunLater(limits, rest, n);
      RunInv(limits, rest);
      NextKeeps(Run(limits, rest), actions[|actions| - 1]);
      KeepsTwice(Run(limits, rest[..n]), Run(limits, rest), Run(limits, actions));
    }
  }

  /** A completed job made the revision after the one it read, and was not cancelled. */
  ghost predicate Delivered(s: Session, id: nat)
    requires id in s.jobs
  {
    var j := s.jobs[id];
    j.state.Completed? ==>
      && j.result == Some(j.target + 1) && j.target in s.revisions
      && j.target + 1 in s.revisions && s.revisions[j.target + 1] == FromJob(id)
      && !j.cancelRequested
  }

  ghost predicate SameResult(s: Session, a: nat, b: nat)
    requires a in s.jobs && b in s.jobs
  {
    s.jobs[a].state.Completed? && s.jobs[b].state.Completed? && s.jobs[a].result == s.jobs[b].result
  }

  lemma JobsOf(s: Session)
    requires Inv(s)
    ensures forall id :: id in s.jobs ==> Delivered(s, id)
    ensures forall a, b :: a in s.jobs && b in s.jobs && SameResult(s, a, b) ==> a == b
  {
    forall id | id in s.jobs
      ensures Delivered(s, id)
    {
      assert JobKept(s, id);
    }
    forall a, b | a in s.jobs && b in s.jobs && SameResult(s, a, b)
      ensures a == b
    {
      assert JobKept(s, a) && JobKept(s, b);
    }
  }

  /** Whatever the interleaving: revisions are numbered from 1 without a gap; a completed job
      made the revision after the one it read, and no other job made the same; a job whose
      cancel was accepted has not completed; and admission stays within its limits. */
  lemma JobsOfARun(limits: Limits, actions: seq<Action>)
    ensures var s := Run(limits, actions);
      && (forall r :: r in s.revisions <==> s.published.Some? && 1 <= r <= s.published.value)
      && (forall id :: id in s.jobs ==> Delivered(s, id))
      && (forall a, b :: a in s.jobs && b in s.jobs && SameResult(s, a, b) ==> a == b)
      && |Admitted(s)| <= limits.maxJobs && |Active(s)| <= limits.maxConcurrent
  {
    RunInv(limits, actions);
    RunLater(limits, actions, 0);
    JobsOf(Run(limits, actions));
    assert actions[..0] == [];
    hide Run;
    assert Run(limits, []).limits == limits by {
      LimitsOfInitial(limits);
    }
  }

  lemma LimitsOfInitial(limits: Limits)
    ensures Run(limits, []).limits == limits
  {
  }

  /** A job cancelled while it was pending has not completed at any later point. */
  lemma CancelledNeverCompletes(limits: Limits, actions: seq<Action>, n: nat, id: nat)
    requires n <= |actions|
    requires var s := Run(limits, actions[..n]); id in s.jobs && s.jobs[id].state.Pending? && s.jobs[id].cancelRequested
    ensures var t := Run(limits, actions); id in t.jobs && !t.jobs[id].state.Completed?
  {
    RunLater(limits, actions, n);
    RunInv(limits, actions);
    assert JobLater(Run(limits, actions[..n]).jobs[id], Run(limits, actions).jobs[id]);
    assert JobKept(Run(limits, actions), id);
  }

  /** How often a run puts a topology's graph under revision 1. */
  function Publications(limits: Limits, actions: seq<Action>): nat {
    if actions == [] then 0
    else
      var rest, last := actions[..|actions| - 1], actions[|actions| - 1];
      Publications(limits, rest) + if Publishes(Run(limits, rest), last) then 1 else 0
  }

  /** The step puts the topology's graph under revision 1. */
  predicate Publishes(s: Session, a: Action) {
    && a.DoPublish? && AtStage(s, a.task, Publishing) && s.snapshot
    && Valid(Validate(s, a.changed)) && MayPublish(Validate(s, a.changed), s.tasks[a.task])
  }

  /** Only publishing and committing change what is published. */
  lemma OthersPublishNothing(s: Session, a: Action)
    requires !a.DoPublish? && !a.DoCommit?
    ensures Next(s, a).published == s.published
  {
    hide Validate, ReadHeader, BeginFinish, BeginQuery, EndCheck, LeaveCheck, EnterTopology, FailStorage, Decide, BeginLastCheck, Stop,
      Request, Admit, Cancel, Abandon;
  }

  lemma PublishingStep(s: Session, a: Action)
    requires Inv(s)
    ensures Publishes(s, a) ==> s.published.None? && Next(s, a).published.Some?
    ensures !Publishes(s, a) ==> (Next(s, a).published.Some? <==> s.published.Some?)
  {
    if Publishes(s, a) {
      ValidateKeeps(s, a.changed);
      FirstRevision(Validate(s, a.changed), a.task);
    } else if a.DoPublish? {
      PublishRefused(s, a.task, a.changed);
    } else if a.DoCommit? {
      CommitNeedsRevision(s, a.job, a.changed);
    } else {
      OthersPublishNothing(s, a);
    }
    hide Validate, Publish, Commit, Inv;
  }

  lemma PublishResult(s: Session, t: nat, changed: bool)
    ensures Inv(s) ==> Inv(Publish(s, t, changed)) && (Publishes(s, DoPublish(t, changed)) ==> s.published.None?)
  {
    if Inv(s) {
      PublishKeeps(s, t, changed);
      PublishingStep(s, DoPublish(t, changed));
    }
  }

  lemma CommitResult(s: Session, id: nat, changed: bool)
    ensures Inv(s) ==> Inv(Commit(s, id, changed)) && Later(s, Commit(s, id, changed))
  {
    if Inv(s) {
      CommitKeeps(s, id, changed);
    }
  }

  lemma PublishRefused(s: Session, t: nat, changed: bool)
    requires !Publishes(s, DoPublish(t, changed))
    ensures Publish(s, t, changed).published == s.published
  {
  }

  lemma CommitNeedsRevision(s: Session, id: nat, changed: bool)
    ensures Commit(s, id, changed).published.Some? <==> s.published.Some?
  {
    hide Validate, SetJob, Finish;
  }

  /** A run publishes the topology at most once, and exactly when revisions exist. */
  lemma {:induction false} PublishedOnce(limits: Limits, actions: seq<Action>)
    ensures Publications(limits, actions) == if Run(limits, actions).published.Some? then 1 else 0
  {
    if actions != [] {
      var rest, last := actions[..|actions| - 1], actions[|actions| - 1];
      PublishedOnce(limits, rest);
      RunInv(limits, rest);
      PublishingStep(Run(limits, rest), last);
      hide Next, Inv, Publishes;
    }
  }

  /** Once a stop was taken while the inputs were being verified, nothing is ever published;
      and a session that left Scanning does not come back to it. */
  lemma StoppedStaysUnpublished(limits: Limits, actions: seq<Action>, n: nat)
    requires n <= |actions|
    ensures Run(limits, actions[..n]).stoppedUnverified ==> Run(limits, actions).published.None? && Run(limits, actions).revisions == map[]
    ensures !Run(limits, actions[..n]).state.Scanning? ==> !Run(limits, actions).state.Scanning?
  {
    RunLater(limits, actions, n);
    RunInv(limits, actions);
  }

  // ---------------------------------------------------------------- counting verifications

  function Checking(s: Session): set<nat> {
    set t | t in s.tasks && s.tasks[t].Checking()
  }

  /** The counter says how many verifications are running. */
  ghost predicate Tallied(s: Session) {
    s.activeChecks == |Checking(s)|
  }

  lemma CheckStarts(s: Session, t: nat, task: Task)
    requires Tallied(s) && task.Checking() && t !in Checking(s)
    ensures Tallied(SetTask(s, t, task).(activeChecks := s.activeChecks + 1))
  {
    assert Checking(SetTask(s, t, task).(activeChecks := s.activeChecks + 1)) == Checking(s) + {t};
  }

  lemma CheckEnds(s: Session, t: nat, task: Task)
    requires Tallied(s) && t in Checking(s) && !task.Checking()
    ensures s.activeChecks > 0 && Tallied(SetTask(s, t, task).(activeChecks := s.activeChecks - 1))
  {
    assert Checking(SetTask(s, t, task).(activeChecks := s.activeChecks - 1)) == Checking(s) - {t};
  }

  lemma LeaveOne(s: Session, t: nat, stage: Stage)
    requires Tallied(s) && t in s.tasks && (s.tasks[t].stage.LeavingFirst? || s.tasks[t].stage.LeavingLast?)
    requires stage.Entering? || stage.Publishing? || stage.Over?
    ensures s.activeChecks > 0 && Tallied(SetStage(s.(activeChecks := s.activeChecks - 1), t, stage))
  {
    CheckEnds(s, t, s.tasks[t].(stage := stage));
    var v := SetStage(s.(activeChecks := s.activeChecks - 1), t, stage);
    assert v == SetTask(s, t, s.tasks[t].(stage := stage)).(activeChecks := s.activeChecks - 1);
  }

  lemma LeaveTallied(s: Session, t: nat)
    requires Tallied(s)
    ensures Tallied(LeaveCheck(s, t))
  {
    if t in s.tasks && s.activeChecks > 0 {
      var stage := s.tasks[t].stage;
      if stage.LeavingFirst? {
        LeaveOne(s, t, if stage.ok && !s.tasks[t].query then Entering else Over);
      } else if stage.LeavingLast? {
        LeaveOne(s, t, if stage.ok then Publishing else Over);
      }
    }
  }

  lemma BeginLastTallied(s: Session, t: nat, changed: bool)
    requires Tallied(s)
    ensures Tallied(BeginLastCheck(s, t, changed))
  {
    if AtStage(s, t, Decided) {
      var v := Validate(s, changed);
      FlagsTallied(s, v);
      if Valid(v) {
        CheckStarts(v, t, v.tasks[t].(stage := LastCheck));
      } else {
        StageTallied(v, t, v.tasks[t].(stage := Over));
      }
    }
  }

  /** A task moves on without starting or ending a verification. */
  lemma StageTallied(s: Session, t: nat, task: Task)
    requires Tallied(s) && t in s.tasks && task.Checking() == s.tasks[t].Checking()
    ensures Tallied(SetTask(s, t, task))
  {
    assert Checking(SetTask(s, t, task)) == Checking(s);
  }

  lemma FlagsTallied(s: Session, u: Session)
    requires Tallied(s) && u.tasks == s.tasks && u.activeChecks == s.activeChecks
    ensures Tallied(u)
  {
    assert Checking(u) == Checking(s);
  }

  lemma EndCheckTallied(s: Session, t: nat, last: bool, check: Check, changed: bool)
    requires Tallied(s)
    ensures Tallied(EndCheck(s, t, last, check, changed))
  {
    if AtStage(s, t, if last then LastCheck else FirstCheck) {
      var v := if check.Interrupted? then s else Validate(s, changed || check.Differ?);
      var ok := !check.Interrupted? && Valid(v);
      FlagsTallied(s, v);
      StageTallied(v, t, v.tasks[t].(stage := if last then LeavingLast(ok) else LeavingFirst(ok)));
    }
  }

  lemma EnterTallied(s: Session, t: nat, changed: bool)
    requires Tallied(s)
    ensures Tallied(EnterTopology(s, t, changed))
  {
    if AtStage(s, t, Entering) {
      var v := Validate(s, changed);
      var over := !Valid(v) || !v.state.Scanning? || v.topologyActive;
      FlagsTallied(s, v);
      StageTallied(v, t, v.tasks[t].(stage := if over then Over else Inspecting));
      FlagsTallied(SetStage(v, t, if over then Over else Inspecting), EnterTopology(s, t, changed));
    }
  }

  lemma FailTallied(s: Session, t: nat)
    requires Tallied(s)
    ensures Tallied(FailStorage(s, t))
  {
    if AtStage(s, t, Inspecting) {
      StageTallied(s, t, s.tasks[t].(stage := Over));
      FlagsTallied(SetStage(s, t, Over), FailStorage(s, t));
    }
  }

  lemma DecideTallied(s: Session, t: nat, reason: Option<SessionState>)
    requires Tallied(s)
    ensures Tallied(Decide(s, t, reason))
  {
    if AtStage(s, t, Inspecting) {
      var v := s.(topologyActive := false);
      FlagsTallied(s, v);
      hide Tallied;
      if v.state.Invalidated? || (v.pendingStop.None? && !v.state.Scanning?) {
        StageTallied(v, t, v.tasks[t].(stage := Over));
      } else if v.pendingStop.Some? {
        StageTallied(v, t, Task(Decided, v.pendingStop.value, true, false));
        FlagsTallied(SetTask(v, t, Task(Decided, v.pendingStop.value, true, false)), Decide(s, t, reason));
      } else {
        StageTallied(v, t, Task(Decided, if reason.Some? && Goal(reason.value) then reason.value else s.tasks[t].goal, false, false));
      }
    }
  }

  lemma PublishTallied(s: Session, t: nat, changed: bool)
    requires Tallied(s)
    ensures Tallied(Publish(s, t, changed))
  {
    if AtStage(s, t, Publishing) {
      var v := Validate(s, changed);
      FlagsTallied(s, v);
      StageTallied(v, t, v.tasks[t].(stage := Over));
      FlagsTallied(SetStage(v, t, Over), Publish(s, t, changed));
    }
  }

  lemma OthersTallied(s: Session, a: Action)
    requires Tallied(s)
    requires a.DoObserve? || a.DoReadHeader? || a.DoStop? || a.DoShutDown? || a.DoRequest? || a.DoAdmit? || a.DoCancel? || a.DoAbandon? || a.DoCommit?
    ensures Tallied(Next(s, a))
  {
    hide Validate, ReadHeader, Stop, Request, Admit, Cancel, Abandon, Commit, Tallied;
    FlagsTallied(s, Next(s, a));
  }

  lemma NextTallied(s: Session, a: Action)
    requires Tallied(s)
    ensures Tallied(Next(s, a))
  {
    hide Tallied, Validate, LeaveCheck, BeginLastCheck, EndCheck, EnterTopology, FailStorage, Decide, Publish, BeginFinish, BeginQuery,
      ReadHeader, Stop, Request, Admit, Cancel, Abandon, Commit;
    match a
    case DoBeginFinish(t, goal, changed) => BeginFinishTallied(s, t, goal, changed);
    case DoBeginQuery(t, changed) => BeginQueryTallied(s, t, changed);
    case DoEndCheck(t, last, check, changed) => EndCheckTallied(s, t, last, check, changed);
    case DoLeaveCheck(t) => LeaveTallied(s, t);
    case DoEnterTopology(t, changed) => EnterTallied(s, t, changed);
    case DoFailStorage(t) => FailTallied(s, t);
    case DoDecide(t, reason) => DecideTallied(s, t, reason);
    case DoBeginLastCheck(t, changed) => BeginLastTallied(s, t, changed);
    case DoPublish(t, changed) => PublishTallied(s, t, changed);
    case _ => OthersTallied(s, a);
  }

  lemma BeginFinishTallied(s: Session, t: nat, goal: SessionState, changed: bool)
    requires Tallied(s)
    ensures Tallied(BeginFinish(s, t, goal, changed))
  {
    FlagsTallied(s, Validate(s, changed));
    if t !in s.tasks {
      CheckStarts(Validate(s, changed), t, Task(FirstCheck, goal, false, false));
    }
  }

  lemma BeginQueryTallied(s: Session, t: nat, changed: bool)
    requires Tallied(s)
    ensures Tallied(BeginQuery(s, t, changed))
  {
    FlagsTallied(s, Validate(s, changed));
    if t !in s.tasks {
      CheckStarts(Validate(s, changed), t, Task(FirstCheck, Published, false, true));
    }
  }

  /** Over every interleaving, the counter of active verifications never loses track: it counts
      the publishers and the queries that are verifying the inputs. */
  lemma {:induction false} RunTallied(limits: Limits, actions: seq<Action>)
    ensures Tallied(Run(limits, actions))
  {
    if actions == [] {
      assert Checking(Initial(limits)) == {};
    } else {
      RunTallied(limits, actions[..|actions| - 1]);
      NextTallied(Run(limits, actions[..|actions| - 1]), actions[|actions| - 1]);
    }
  }

  /** A stop that arrives while anyone verifies the inputs, be it a publisher or a query, is held
      as unverified, and the session publishes nothing from then on. */
  lemma StopDuringCheck(limits: Limits, actions: seq<Action>, n: nat, task: nat)
    requires n < |actions| && actions[n].DoStop?
    requires var s := Run(limits, actions[..n]);
      task in s.tasks && s.tasks[task].Checking() && Valid(Validate(s, actions[n].changed)) && s.state.Scanning?
    ensures Run(limits, actions[..n + 1]).stoppedUnverified
    ensures Run(limits, actions).published.None? && Run(limits, actions).revisions == map[]
  {
    var s := Run(limits, actions[..n]);
    RunTallied(limits, actions[..n]);
    assert task in Checking(s);
    assert |Checking(s)| > 0;
    assert actions[..n + 1][..n] == actions[..n] && actions[..n + 1][n] == actions[n];
    StoppedStaysUnpublished(limits, actions, n + 1);
  }
}
