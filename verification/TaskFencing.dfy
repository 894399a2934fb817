/**
 Lease-fenced execution of one queued task and its targets
 (net/inspections/executor.py:63-101, 390-478, net/access/executor.py:30-63,
 net/domain/sync_tasks.py:41-74, net/domain/executor.py:215-261).

 Workers begin a target in one transaction, do slow external work outside any transaction, and
 publish in another. In between the lease may expire, the task may be requeued, claimed again or
 cancelled; those queue transitions are the environment (net/inspections/queue.py:423-694). A worker
 waits for its threads before it claims again (net/inspections/worker.py:262-303).
 */
module TaskFencing {
  import opened Outcomes

  const MAX_TASK_ATTEMPTS := 3

  datatype Status = Queued | Running | Success | Partial | Failed | Cancelled {
    predicate Terminal() { !Queued? && !Running? }
  }

  datatype Task = Task(status: Status, worker: string, lease: Option<int>, attempts: nat)

  /** The task attempt and target attempt under which external data was fetched. */
  datatype Stamp = Stamp(task: nat, target: nat)

  /** `records` counts the inspection records created for the target; `published` stamps the stored result. */
  datatype Target = Target(status: Status, attempts: nat, records: nat, published: Option<Stamp>)

  /** What a worker thread holds between begin and publish: its target, its id and its attempt numbers. */
  datatype Job = Job(target: nat, worker: string, stamp: Stamp)

  /** `jobs` are in flight: their threads have begun a target and not ended yet. */
  datatype World = World(task: Task, targets: seq<Target>, jobs: set<Job>)

  predicate LiveLease(task: Task, worker: string, now: int) {
    worker != "" && task.status.Running? && task.worker == worker && task.lease.Some? && task.lease.value > now
  }

  // ---------------------------------------------------------------------------------------
  // Worker transactions
  // ---------------------------------------------------------------------------------------

  /** Which publication runs: they differ in the attempts they compare and in what they write. */
  datatype Kind =
    | Inspection         // execute_target: no attempt comparison, one record, lease checked again at the end
    | InspectionFailure  // persist_execution_failure: the same, without data
    | DomainOperation    // compares the task attempt
    | Synchronisation    // access and domain sync: compares task and target attempts

  datatype Publication = Publication(kind: Kind, job: Job, status: Status, now: int, later: int, stopped: bool)

  predicate MayBegin(task: Task, worker: string, now: int, expected: Option<nat>, stopped: bool) {
    LiveLease(task, worker, now) && (expected.None? || task.attempts == expected.value) && !stopped
  }

  function Begun(t: Target): Target {
    t.(status := Running, attempts := t.attempts + 1)
  }

  predicate AttemptsMatch(p: Publication, task: Task, t: Target) {
    && (p.kind.DomainOperation? ==> task.attempts == p.job.stamp.task)
    && (p.kind.Synchronisation? ==> task.attempts == p.job.stamp.task && t.attempts == p.job.stamp.target)
  }

  /** The publication commits; otherwise it reports itself stale, or rolls back. */
  predicate Commits(p: Publication, task: Task, t: Target) {
    && LiveLease(task, p.job.worker, p.now) && !p.stopped && t.status.Running? && AttemptsMatch(p, task, t)
    && (p.kind.Inspection? || p.kind.InspectionFailure? ==> LiveLease(task, p.job.worker, p.later))
  }

  function Published(p: Publication, t: Target): Target {
    Target(p.status, t.attempts,
           if p.kind.Inspection? || p.kind.InspectionFailure? then t.records + 1 else t.records,
           if p.kind.InspectionFailure? then None else Some(p.job.stamp))
  }

  class TaskTable {
    var task: Task
    var targets: seq<Target>

    constructor (task: Task, targets: seq<Target>)
      ensures this.task == task && this.targets == targets
    {
      this.task, this.targets := task, targets;
    }

    /** Returns the job when the target was started under this worker's live lease. */
    method BeginTarget(i: nat, worker: string, now: int, expected: Option<nat>, stopped: bool)
        returns (job: Option<Job>)
      requires i < |targets|
      modifies this`targets
      ensures var begins := MayBegin(task, worker, now, expected, stopped) && old(targets)[i].status.Queued?;
              && targets == (if begins then old(targets)[i := Begun(old(targets)[i])] else old(targets))
              && job == if begins then Some(Job(i, worker, Stamp(task.attempts, targets[i].attempts))) else None
      ensures job.Some? <==>
                && worker != "" && task.status.Running? && task.worker == worker
                && task.lease.Some? && now < task.lease.value && !stopped
                && (expected.Some? ==> task.attempts == expected.value) && old(targets)[i].status.Queued?
      ensures job.Some? ==> targets[i].status.Running? && targets[i].attempts == old(targets)[i].attempts + 1
    {
      var target := targets[i];
      if !LiveLease(task, worker, now) || (expected.Some? && task.attempts != expected.value) || stopped {
        return None;
      }
      if target.status.Terminal() {
        return None;
      }
      if !target.status.Queued? {
        return None;
      }
      target := target.(status := Running);
      target := target.(attempts := target.attempts + 1);
      targets := targets[i := target];
      return Some(Job(i, worker, Stamp(task.attempts, target.attempts)));
    }

    /** One publication transaction, of any kind; a late loss of the lease rolls the record back. */
    method Publish(p: Publication) returns (stale: bool)
      requires p.job.target < |targets|
      modifies this`targets
      ensures stale <==> !Commits(p, task, old(targets)[p.job.target])
      ensures targets == if stale then old(targets)
                else old(targets)[p.job.target := Published(p, old(targets)[p.job.target])]
    {
      var before := targets;
      var target := targets[p.job.target];
      if p.stopped || !LiveLease(task, p.job.worker, p.now) || !target.status.Running? {
        return true;
      }
      if (p.kind.DomainOperation? || p.kind.Synchronisation?) && task.attempts != p.job.stamp.task {
        return true;
      }
      if p.kind.Synchronisation? && target.attempts != p.job.stamp.target {
        return true;
      }
      if p.kind.Inspection? || p.kind.InspectionFailure? {
        target := target.(records := target.records + 1);
      }
      target := target.(status := p.status, published := if p.kind.InspectionFailure? then None else Some(p.job.stamp));
      targets := targets[p.job.target := target];
      if (p.kind.Inspection? || p.kind.InspectionFailure?) && !LiveLease(task, p.job.worker, p.later) {
        targets := before;
        return true;
      }
      return false;
    }
  }

  // ---------------------------------------------------------------------------------------
  // Runs
  // ---------------------------------------------------------------------------------------

  datatype Step =
    | Claim(worker: string, now: int, seconds: nat)
    | Renew(worker: string, now: int, seconds: nat)
    | Recover(now: int)
    | Cancel
    | Finish(worker: string, now: int)
    | Begin(target: nat, worker: string, now: int, expected: Option<nat>, stopped: bool)
    | Publish(publication: Publication)
    | End(job: Job)   // the thread is over, whether it published or not

  predicate AllTerminal(targets: seq<Target>) {
    forall i :: 0 <= i < |targets| ==> targets[i].status.Terminal()
  }

  function Outcome(targets: seq<Target>): (status: Status)
    ensures status.Terminal()
  {
    if forall i :: 0 <= i < |targets| ==> targets[i].status.Success? then Success
    else if exists i :: 0 <= i < |targets| && (targets[i].status.Success? || targets[i].status.Partial?) then Partial
    else Failed
  }

  /** Every target with one status replaced; lease recovery and cancellation work this way. */
  function Settle(targets: seq<Target>, from: set<Status>, to: Status): (targets': seq<Target>)
    ensures |targets'| == |targets|
    ensures forall i :: 0 <= i < |targets| ==>
              targets'[i] == if targets[i].status in from then targets[i].(status := to) else targets[i]
  {
    seq(|targets|, i requires 0 <= i < |targets| =>
      if targets[i].status in from then targets[i].(status := to) else targets[i])
  }

  function Closed(task: Task, status: Status): Task {
    task.(status := status, lease := None)
  }

  ghost predicate Enabled(w: World, step: Step) {
    match step
    case Claim(worker, _, _) => worker != ""
    case Begin(i, _, _, _, _) => i < |w.targets|
    case Publish(p) =>
      && p.job.target < |w.targets| && p.now <= p.later
      && (p.kind.InspectionFailure? || p.job in w.jobs)
      && (p.status.Success? || p.status.Partial? || p.status.Failed?)
      && (p.kind.InspectionFailure? ==> p.status.Failed?)
    case _ => true
  }

  ghost function Next(w: World, step: Step): (w': World)
    requires Enabled(w, step)
    ensures |w'.targets| == |w.targets|
  {
    match step
    case Claim(worker, now, seconds) =>
      if w.task.status.Queued?
      then w.(task := Task(Running, worker, Some(now + seconds), w.task.attempts + 1))
      else w
    case Renew(worker, now, seconds) =>
      if LiveLease(w.task, worker, now) then w.(task := w.task.(lease := Some(now + seconds))) else w
    case Recover(now) =>
      if !(w.task.status.Running? && w.task.lease.Some? && w.task.lease.value <= now) then w
      else if w.targets != [] && AllTerminal(w.targets) then w.(task := Closed(w.task, Outcome(w.targets)))
      else if w.task.attempts >= MAX_TASK_ATTEMPTS then
        var targets := Settle(w.targets, {Queued, Running}, Failed);
        w.(targets := targets, task := Closed(w.task, Outcome(targets)))
      else
        w.(targets := Settle(w.targets, {Running}, Queued),
            task := w.task.(status := Queued, worker := "", lease := None))
    case Cancel =>
      if w.task.status.Terminal() then w
      else w.(targets := Settle(w.targets, {Queued, Running}, Cancelled), task := Closed(w.task, Cancelled))
    case Finish(worker, now) =>
      if LiveLease(w.task, worker, now) && AllTerminal(w.targets)
      then w.(task := Closed(w.task, Outcome(w.targets))) else w
    case Begin(i, worker, now, expected, stopped) =>
      if MayBegin(w.task, worker, now, expected, stopped) && w.targets[i].status.Queued? then
        w.(targets := w.targets[i := Begun(w.targets[i])],
           jobs := w.jobs + {Job(i, worker, Stamp(w.task.attempts, w.targets[i].attempts + 1))})
      else w
    case Publish(p) =>
      if Commits(p, w.task, w.targets[p.job.target])
      then w.(targets := w.targets[p.job.target := Published(p, w.targets[p.job.target])]) else w
    case End(job) => w.(jobs := w.jobs - {job})
  }

  ghost predicate IsRun(w: World, run: seq<Step>)
    decreases run
  {
    run == [] || (Enabled(w, run[0]) && IsRun(Next(w, run[0]), run[1..]))
  }

  ghost function Last(w: World, run: seq<Step>): (w': World)
    requires IsRun(w, run)
    ensures |w'.targets| == |w.targets|
    decreases run
  {
    if run == [] then w else Last(Next(w, run[0]), run[1..])
  }

  ghost predicate TargetOk(t: Target) {
    t.records <= 1 && (t.records == 1 || t.published.Some? ==> t.status.Terminal())
  }

  ghost predicate JobOk(w: World, j: Job) {
    && j.target < |w.targets|
    && j.stamp.task <= w.task.attempts
    && j.stamp.target <= w.targets[j.target].attempts
    && (j.stamp.task == w.task.attempts ==>
          j.stamp.target == w.targets[j.target].attempts
          && (w.task.status.Running? ==> !w.targets[j.target].status.Queued?))
  }

  ghost predicate Inv(w: World) {
    && (w.task.status.Queued? ==> forall i :: 0 <= i < |w.targets| ==> !w.targets[i].status.Running?)
    && (forall i :: 0 <= i < |w.targets| ==> TargetOk(w.targets[i]))
    && (forall j :: j in w.jobs ==> JobOk(w, j))
  }

  /** A freshly queued task: nothing started, nothing claimed. */
  ghost predicate Initial(w: World) {
    && w.task == Task(Queued, "", None, 0) && w.jobs == {}
    && forall i :: 0 <= i < |w.targets| ==> w.targets[i] == Target(Queued, 0, 0, None)
  }

  lemma StepKeepsInv(w: World, step: Step)
    requires Inv(w) && Enabled(w, step)
    ensures Inv(Next(w, step))
  {
    var w' := Next(w, step);
    forall j | j in w'.jobs ensures JobOk(w', j) {
      assert j in w.jobs ==> JobOk(w, j);
    }
    forall i | 0 <= i < |w'.targets| ensures TargetOk(w'.targets[i]) {
      assert TargetOk(w.targets[i]);
    }
  }

  lemma {:induction false} RunKeepsInv(w: World, run: seq<Step>)
    requires Inv(w) && IsRun(w, run)
    ensures Inv(Last(w, run))
    decreases run
  {
    if run != [] {
      StepKeepsInv(w, run[0]);
      RunKeepsInv(Next(w, run[0]), run[1..]);
    }
  }

  /** However executions and failure handlers interleave, a target gets at most one inspection record. */
  lemma AtMostOneRecord(w: World, run: seq<Step>, i: nat)
    requires Initial(w) && IsRun(w, run) && i < |w.targets|
    ensures Last(w, run).targets[i].records <= 1
    ensures Last(w, run).targets[i].records == 1 ==> Last(w, run).targets[i].status.Terminal()
  {
    RunKeepsInv(w, run);
    assert TargetOk(Last(w, run).targets[i]);
  }

  /** A finished target never changes again: not its status, not its result, not its record. */
  lemma {:induction false} TerminalTargetsNeverChange(w: World, run: seq<Step>, i: nat)
    requires IsRun(w, run) && i < |w.targets| && w.targets[i].status.Terminal()
    ensures Last(w, run).targets[i] == w.targets[i]
    decreases run
  {
    if run != [] {
      TerminalTargetsNeverChange(Next(w, run[0]), run[1..], i);
    }
  }

  /** The worker holds the running task, and its lease has not run out yet. */
  ghost predicate HoldsTask(w: World, worker: string, now: int) {
    && worker != "" && w.task.status.Running? && w.task.worker == worker
    && w.task.lease.Some? && now < w.task.lease.value
  }

  /** Every change a worker makes to a target happens under that worker's live lease, on an active target. */
  lemma WorkerWritesAreFenced(w: World, step: Step, i: nat)
    requires Enabled(w, step) && i < |w.targets| && (step.Begin? || step.Publish?)
    requires Next(w, step).targets[i] != w.targets[i]
    ensures step.Begin? ==> i == step.target && HoldsTask(w, step.worker, step.now) && w.targets[i].status.Queued?
    ensures step.Publish? ==>
              && i == step.publication.job.target && w.targets[i].status.Running?
              && HoldsTask(w, step.publication.job.worker, step.publication.now)
              && (Next(w, step).targets[i].records != w.targets[i].records ==>
                    HoldsTask(w, step.publication.job.worker, step.publication.later))
  {
  }

  ghost predicate Inspects(p: Publication) { p.kind.Inspection? || p.kind.InspectionFailure? }

  /** And nothing else keeps a publication from being made: these are all its guards. */
  lemma PublicationIsMadeExactly(w: World, p: Publication)
    requires Enabled(w, Publish(p))
    ensures Commits(p, w.task, w.targets[p.job.target]) <==>
            && HoldsTask(w, p.job.worker, p.now) && !p.stopped && w.targets[p.job.target].status.Running?
            && (Inspects(p) ==> HoldsTask(w, p.job.worker, p.later))
            && (p.kind.DomainOperation? || p.kind.Synchronisation? ==> w.task.attempts == p.job.stamp.task)
            && (p.kind.Synchronisation? ==> w.targets[p.job.target].attempts == p.job.stamp.target)
  {
  }

  /** Step `step` commits an inspection, or the failure of one, for target `i`. */
  ghost predicate InspectionCommits(w: World, step: Step, i: nat) {
    && step.Publish? && Enabled(w, step) && Inspects(step.publication) && step.publication.job.target == i
    && Commits(step.publication, w.task, w.targets[i])
  }

  /** A committed inspection leaves exactly one record, and the status it was published with. */
  lemma CommittedInspectionHasARecord(w: World, step: Step, i: nat)
    requires Inv(w) && i < |w.targets| && InspectionCommits(w, step, i)
    ensures w.targets[i].records == 0 && Next(w, step).targets[i].records == 1
    ensures Next(w, step).targets[i].status == step.publication.status
    ensures step.publication.kind.Inspection? ==> Next(w, step).targets[i].published == Some(step.publication.job.stamp)
  {
    assert TargetOk(w.targets[i]);
  }

  /** Any other committed publication leaves no record, but its status and its data. */
  lemma OtherPublicationsLeaveNoRecord(w: World, p: Publication)
    requires Enabled(w, Publish(p)) && Commits(p, w.task, w.targets[p.job.target]) && !Inspects(p)
    ensures var t := Next(w, Publish(p)).targets[p.job.target];
            t.records == w.targets[p.job.target].records && t.status == p.status && t.published == Some(p.job.stamp)
  {
  }

  /** The statuses of the inspections that a run commits for target `i`. */
  ghost function Inspections(w: World, run: seq<Step>, i: nat): (statuses: seq<Status>)
    requires IsRun(w, run)
    decreases run
  {
    if run == [] then []
    else
      (if InspectionCommits(w, run[0], i) then [run[0].publication.status] else [])
      + Inspections(Next(w, run[0]), run[1..], i)
  }

  lemma {:induction false} NoSecondInspection(w: World, run: seq<Step>, i: nat)
    requires IsRun(w, run) && i < |w.targets| && w.targets[i].status.Terminal()
    ensures Inspections(w, run, i) == []
    decreases run
  {
    if run != [] {
      TerminalTargetsNeverChange(w, run[..1], i);
      assert run[..1][1..] == [];
      NoSecondInspection(Next(w, run[0]), run[1..], i);
    }
  }

  lemma {:induction false} RecordsAreInspections(w: World, run: seq<Step>, i: nat)
    requires Inv(w) && IsRun(w, run) && i < |w.targets| && w.targets[i].records == 0
    ensures Last(w, run).targets[i].records == |Inspections(w, run, i)| <= 1
    ensures Inspections(w, run, i) != [] ==> Last(w, run).targets[i].status == Inspections(w, run, i)[0]
    decreases run
  {
    if run != [] {
      StepKeepsInv(w, run[0]);
      var w' := Next(w, run[0]);
      if InspectionCommits(w, run[0], i) {
        CommittedInspectionHasARecord(w, run[0], i);
        assert TargetOk(w'.targets[i]);
        TerminalTargetsNeverChange(w', run[1..], i);
        NoSecondInspection(w', run[1..], i);
      } else {
        RecordsAreInspections(w', run[1..], i);
      }
    }
  }

  /**
   Over every run a target has exactly as many records as inspections of it were published, which is
   at most one, and it then ends with the status of that publication.
   */
  lemma RecordsExactly(w: World, run: seq<Step>, i: nat)
    requires Initial(w) && IsRun(w, run) && i < |w.targets|
    ensures Last(w, run).targets[i].records == |Inspections(w, run, i)| <= 1
    ensures Inspections(w, run, i) != [] ==> Last(w, run).targets[i].status == Inspections(w, run, i)[0]
  {
    RecordsAreInspections(w, run, i);
  }

  // ---------------------------------------------------------------------------------------
  // Freshness of published data
  // ---------------------------------------------------------------------------------------

  ghost predicate SameTenure(w: World, v: World) {
    v.task.status.Running? && v.task.attempts == w.task.attempts && v.task.worker == w.task.worker
  }

  lemma {:induction false} AttemptsOnlyGrow(w: World, run: seq<Step>)
    requires IsRun(w, run)
    ensures w.task.attempts <= Last(w, run).task.attempts
    ensures !w.task.status.Running? && Last(w, run).task.status.Running? ==>
              w.task.attempts < Last(w, run).task.attempts
    decreases run
  {
    if run != [] {
      AttemptsOnlyGrow(Next(w, run[0]), run[1..]);
    }
  }

  /** If the attempt number is unchanged while running, one claim held the task all along. */
  lemma {:induction false} OneClaimThroughout(w: World, run: seq<Step>, k: nat)
    requires IsRun(w, run) && w.task.status.Running? && k <= |run|
    requires Last(w, run).task.status.Running? && Last(w, run).task.attempts == w.task.attempts
    ensures IsRun(w, run[..k]) && SameTenure(w, Last(w, run[..k]))
    decreases run
  {
    if k > 0 {
      AttemptsOnlyGrow(Next(w, run[0]), run[1..]);
      OneClaimThroughout(Next(w, run[0]), run[1..], k - 1);
      assert run[..k][1..] == run[1..][..k - 1];
    }
  }

  /**
   A successful access or directory synchronisation publishes data fetched under the task attempt and
   target attempt that are current when it commits, and one claim covered everything in between.
   */
  lemma SynchronisationIsFresh(w: World, run: seq<Step>, p: Publication, k: nat)
    requires Inv(w) && IsRun(w, run) && p.kind.Synchronisation? && k <= |run|
    requires p.job in w.jobs && p.job.stamp.task == w.task.attempts && w.task.status.Running?
    requires Enabled(Last(w, run), Publish(p)) && Commits(p, Last(w, run).task, Last(w, run).targets[p.job.target])
    ensures Next(Last(w, run), Publish(p)).targets[p.job.target].published
            == Some(Stamp(Last(w, run).task.attempts, Last(w, run).targets[p.job.target].attempts))
    ensures IsRun(w, run[..k]) && SameTenure(w, Last(w, run[..k]))
  {
    OneClaimThroughout(w, run, k);
  }

  /** A worker claims only when none of its threads is in flight any more. */
  ghost predicate Joins(w: World, step: Step) {
    step.Claim? ==> forall j :: j in w.jobs ==> j.worker != step.worker
  }

  ghost predicate IsJoinedRun(w: World, run: seq<Step>)
    decreases run
  {
    run == [] || (Enabled(w, run[0]) && Joins(w, run[0]) && IsJoinedRun(Next(w, run[0]), run[1..]))
  }

  /** The jobs in flight of the worker that holds the task all belong to its present claim. */
  ghost predicate Current(w: World) {
    w.task.status.Running? ==> forall j :: j in w.jobs && j.worker == w.task.worker ==> j.stamp.task == w.task.attempts
  }

  lemma {:induction false} JoinedRunKeepsCurrent(w: World, run: seq<Step>)
    requires Inv(w) && Current(w) && IsJoinedRun(w, run)
    ensures IsRun(w, run) && Inv(Last(w, run)) && Current(Last(w, run))
    decreases run
  {
    if run != [] {
      StepKeepsInv(w, run[0]);
      JoinedRunKeepsCurrent(Next(w, run[0]), run[1..]);
    }
  }

  /**
   Inspection publications compare no attempts. They are fresh all the same: a worker joins its
   threads before it claims again, so the lease tells the attempts apart, even when one worker
   reclaims a task it has lost.
   */
  lemma InspectionIsFresh(w: World, run: seq<Step>, p: Publication)
    requires Initial(w) && IsJoinedRun(w, run) && p.kind.Inspection?
    requires IsRun(w, run) && Enabled(Last(w, run), Publish(p))
    requires Commits(p, Last(w, run).task, Last(w, run).targets[p.job.target])
    ensures Next(Last(w, run), Publish(p)).targets[p.job.target].published
            == Some(Stamp(Last(w, run).task.attempts, Last(w, run).targets[p.job.target].attempts))
  {
    JoinedRunKeepsCurrent(w, run);
    assert JobOk(Last(w, run), p.job);
  }

  // ---------------------------------------------------------------------------------------
  // What the join is needed for
  // ---------------------------------------------------------------------------------------

  /** An inspection publication that commits and stores data of another attempt than the present one. */
  ghost predicate PublishesOld(w: World, p: Publication) {
    && p.kind.Inspection? && Enabled(w, Publish(p)) && Commits(p, w.task, w.targets[p.job.target])
    && p.job.stamp != Stamp(w.task.attempts, w.targets[p.job.target].attempts)
  }

  ghost predicate WithinClaim(run: seq<Step>) {
    forall s :: s in run ==> !s.Claim?
  }

  /** The worker claims the task, and before anyone claims it again old data is published. */
  ghost predicate OldAfterClaim(w: World, claim: Step, run: seq<Step>, p: Publication) {
    claim.Claim? && Enabled(w, claim) && IsRun(Next(w, claim), run) && WithinClaim(run)
    && PublishesOld(Last(Next(w, claim), run), p)
  }

  /** How a world inside the claim made in the queued world `w` relates to `w`. */
  ghost predicate InClaim(w: World, worker: string, v: World) {
    && |v.targets| == |w.targets| && v.task.attempts == w.task.attempts + 1
    && (v.task.status.Running? ==> v.task.worker == worker)
    && (forall j :: j in v.jobs ==> j.stamp.task == v.task.attempts || j in w.jobs)
    && (forall i :: 0 <= i < |w.targets| && w.targets[i].status.Terminal() ==> v.targets[i].status.Terminal())
  }

  lemma {:induction false} RunStaysInClaim(w: World, worker: string, v: World, run: seq<Step>)
    requires InClaim(w, worker, v) && IsRun(v, run) && WithinClaim(run)
    ensures InClaim(w, worker, Last(v, run))
    decreases run
  {
    if run != [] {
      assert run[0] in run;
      assert InClaim(w, worker, Next(v, run[0]));
      assert forall s :: s in run[1..] ==> s in run;
      RunStaysInClaim(w, worker, Next(v, run[0]), run[1..]);
    }
  }

  lemma OldDataNeedsOverlap(w: World, claim: Step, run: seq<Step>, p: Publication)
    requires Inv(w) && w.task.status.Queued? && OldAfterClaim(w, claim, run, p)
    ensures p.job in w.jobs && p.job.worker == claim.worker && !w.targets[p.job.target].status.Terminal()
  {
    StepKeepsInv(w, claim);
    RunKeepsInv(Next(w, claim), run);
    RunStaysInClaim(w, claim.worker, Next(w, claim), run);
    assert JobOk(Last(Next(w, claim), run), p.job);
  }

  lemma OverlapPublishesOldData(w: World, j: Job) returns (claim: Step, run: seq<Step>, p: Publication)
    requires Inv(w) && w.task.status.Queued? && j in w.jobs && j.worker != ""
    requires !w.targets[j.target].status.Terminal()
    ensures claim.Claim? && claim.worker == j.worker && OldAfterClaim(w, claim, run, p)
  {
    assert JobOk(w, j);
    claim := Claim(j.worker, 0, 10);
    var begin := Begin(j.target, j.worker, 1, None, false);
    run, p := [begin], Publication(Inspection, j, Success, 2, 3, false);
    var v := Next(w, claim);
    assert IsRun(Next(v, begin), []) && run[1..] == [];
    assert Last(v, run) == Next(v, begin);
  }

  /**
   Without the join it would fail, and exactly then: a claim lets data of an earlier attempt be
   published if and only if it is made while a job of the same worker id is in flight on an
   unfinished target.
   */
  lemma OldDataExactly(w: World, worker: string)
    requires Inv(w) && w.task.status.Queued? && worker != ""
    ensures (exists claim: Step, run, p :: claim.Claim? && claim.worker == worker && OldAfterClaim(w, claim, run, p))
            <==> (exists j :: j in w.jobs && j.worker == worker && !w.targets[j.target].status.Terminal())
  {
    if claim: Step, run, p :| claim.Claim? && claim.worker == worker && OldAfterClaim(w, claim, run, p) {
      OldDataNeedsOverlap(w, claim, run, p);
    }
    if j :| j in w.jobs && j.worker == worker && !w.targets[j.target].status.Terminal() {
      var claim, run, p := OverlapPublishesOldData(w, j);
    }
  }

  /** A run may be extended by any enabled step. */
  lemma {:induction false} Extend(w: World, run: seq<Step>, step: Step)
    requires IsRun(w, run) && Enabled(Last(w, run), step)
    ensures IsRun(w, run + [step]) && Last(w, run + [step]) == Next(Last(w, run), step)
    decreases run
  {
    assert (run + [step])[0] == if run == [] then step else run[0];
    if run == [] {
      assert (run + [step])[1..] == [];
    } else {
      assert (run + [step])[1..] == run[1..] + [step];
      Extend(Next(w, run[0]), run[1..], step);
    }
  }

  /** A task can indeed be back in the queue while a thread of its last worker still collects. */
  lemma LeaseLostWhileCollecting() returns (w: World, run: seq<Step>)
    ensures Initial(w) && IsRun(w, run) && |w.targets| == 1
    ensures Last(w, run) == World(Task(Queued, "", None, 1), [Target(Queued, 1, 0, None)], {Job(0, "w", Stamp(1, 1))})
  {
    w := World(Task(Queued, "", None, 0), [Target(Queued, 0, 0, None)], {});
    Extend(w, [], Claim("w", 0, 30));
    run := [] + [Claim("w", 0, 30)];
    assert Last(w, run) == World(Task(Running, "w", Some(30), 1), [Target(Queued, 0, 0, None)], {});
    Extend(w, run, Begin(0, "w", 1, None, false));
    run := run + [Begin(0, "w", 1, None, false)];
    var v := World(Task(Running, "w", Some(30), 1), [Target(Running, 1, 0, None)], {Job(0, "w", Stamp(1, 1))});
    assert Last(w, run) == v;
    Extend(w, run, Recover(50));
    run := run + [Recover(50)];
    assert !v.targets[0].status.Terminal();
    assert Settle(v.targets, {Running}, Queued) == [Target(Queued, 1, 0, None)];
  }
}
