/**
 Alert work on finished targets, once each and fairly (net/alerts/service.py:436-495,
 net/alerts/task_summaries.py:75-126).

 A target's findings are applied in the transaction that marks it processed; a failed attempt
 rolls back and moves the target behind untouched work, so it cannot pin the batch.
 */
module AlertReconciliation {
  import opened Outcomes
  import opened AlertStates

  /** A target run; its index in the table is the primary key. */
  datatype Target = Target(
    terminal: bool, alerted: bool, scope: Scope, findings: seq<RawFinding>, finished: int,
    attempted: Option<int>, processed: bool, failed: bool)

  predicate Eligible(t: Target) {
    t.terminal && t.alerted && !t.processed
  }

  // ---------------------------------------------------------------------------------------
  // One target
  // ---------------------------------------------------------------------------------------

  function Attempted(t: Target, fails: bool, at: int): (t': Target) {
    if !Eligible(t) then t
    else if fails then t.(attempted := Some(at), failed := true)
    else t.(attempted := Some(at), failed := false, processed := true)
  }

  /** The alert tables after one attempt: moved by the normalised findings, or exactly as before. */
  ghost function AlertsAfter(a: Alerts, targets: seq<Target>, i: nat, fails: bool): (a': Alerts)
    requires i < |targets|
  {
    var t := targets[i];
    if fails || !Eligible(t) then a else Processed(a, i, t.scope, Normalised(t.findings), t.finished)
  }

  ghost function AlertsAfterBatch(a: Alerts, targets: seq<Target>, batch: seq<nat>, fails: set<nat>): (a': Alerts)
    requires forall k :: 0 <= k < |batch| ==> batch[k] < |targets|
  {
    if batch == [] then a
    else
      var last := |batch| - 1;
      AlertsAfter(AlertsAfterBatch(a, targets, batch[..last], fails), targets, batch[last], batch[last] in fails)
  }

  /** The targets after a batch of attempts, one after the other. */
  ghost function AttemptAll(
      targets: seq<Target>, batch: seq<nat>, fails: set<nat>, times: seq<int>): (targets': seq<Target>)
    requires |times| == |targets| && forall k :: 0 <= k < |batch| ==> batch[k] < |targets|
    ensures |targets'| == |targets|
  {
    if batch == [] then targets
    else
      var last := batch[|batch| - 1];
      var before := AttemptAll(targets, batch[..|batch| - 1], fails, times);
      before[last := Attempted(before[last], last in fails, times[last])]
  }

  lemma {:induction false} AttemptedOnce(targets: seq<Target>, batch: seq<nat>, fails: set<nat>, times: seq<int>,
      i: nat)
    requires |times| == |targets| && i < |targets| && forall k :: 0 <= k < |batch| ==> batch[k] < |targets|
    requires forall k, l :: 0 <= k < l < |batch| ==> batch[k] != batch[l]
    ensures AttemptAll(targets, batch, fails, times)[i]
            == if i in batch then Attempted(targets[i], i in fails, times[i]) else targets[i]
  {
    if batch != [] {
      var front := batch[..|batch| - 1];
      AttemptedOnce(targets, front, fails, times, i);
      assert batch == front + [batch[|batch| - 1]];
    }
  }

  class Reconciler {
    const store: AlertStore
    var targets: seq<Target>

    constructor (store: AlertStore, targets: seq<Target>)
      ensures this.store == store && this.targets == targets
    {
      this.store, this.targets := store, targets;
    }

    /**
     `failure` stands for an exception inside the transaction, after so many of its writes: they are
     undone, so the alert tables are as before. Otherwise the findings reach the tables in the very
     step that sets `processed`.
     */
    method ProcessPersistedTarget(i: nat, failure: Option<nat>, at: int)
      requires i < |targets|
      modifies this`targets, store
      ensures targets == old(targets)[i := Attempted(old(targets)[i], failure.Some?, at)]
      ensures store.Contents() == AlertsAfter(old(store.Contents()), old(targets), i, failure.Some?)
      ensures var t, t' := old(targets)[i], targets[i];
              if t.terminal && t.alerted && !t.processed then
                && t'.attempted == Some(at) && t'.processed == failure.None? && t'.failed == failure.Some?
                && store.Contents() == (
                  if failure.Some? then old(store.Contents())
                  else Processed(old(store.Contents()), i, t.scope, Normalised(t.findings), t.finished))
              else
                t' == t && store.Contents() == old(store.Contents())
    {
      var t := targets[i];
      if !t.alerted || !t.terminal || t.processed {
        return;
      }
      var states, events := store.states, store.events;
      var fs := NormalisedFindings(t.findings);
      var done := store.ProcessTargetFindings(i, t.scope, fs, t.finished, failure);
      if !done || failure.Some? {
        store.states, store.events := states, events;
        targets := targets[i := t.(attempted := Some(at), failed := true)];
        return;
      }
      targets := targets[i := t.(attempted := Some(at), failed := false, processed := true)];
    }

    /** The loop over a batch of distinct targets. */
    method AttemptBatch(batch: seq<nat>, failures: map<nat, nat>, times: seq<int>)
      requires |times| == |targets| && forall k :: 0 <= k < |batch| ==> batch[k] < |targets|
      requires forall k, l :: 0 <= k < l < |batch| ==> batch[k] != batch[l]
      modifies this`targets, store
      ensures targets == AttemptAll(old(targets), batch, failures.Keys, times)
      ensures store.Contents() == AlertsAfterBatch(old(store.Contents()), old(targets), batch, failures.Keys)
    {
      ghost var before := targets;
      for k := 0 to |batch|
        invariant targets == AttemptAll(before, batch[..k], failures.Keys, times)
        invariant store.Contents() == AlertsAfterBatch(old(store.Contents()), before, batch[..k], failures.Keys)
      {
        assert batch[..k + 1][..k] == batch[..k];
        AttemptedOnce(before, batch[..k], failures.Keys, times, batch[k]);
        ProcessPersistedTarget(
          batch[k], if batch[k] in failures then Some(failures[batch[k]]) else None, times[batch[k]]);
      }
      assert batch[..|batch|] == batch;
    }

    /**
     `times[i]` is the clock when target `i` is attempted in this cycle; `failures` says who fails, and after
     how many writes.
     */
    method ReconcileTerminalTargets(limit: nat, failures: map<nat, nat>, times: seq<int>)
      requires |times| == |targets|
      modifies this`targets, store
      ensures targets == Cycle(old(targets), limit, failures.Keys, times)
      ensures store.Contents()
                == AlertsAfterBatch(old(store.Contents()), old(targets), Batch(old(targets), limit), failures.Keys)
    {
      var batch := Batch(targets, limit);
      BatchIsOldest(targets, limit);
      CycleIsBatch(targets, limit, failures.Keys, times);
      AttemptBatch(batch, failures, times);
    }
  }

  // ---------------------------------------------------------------------------------------
  // The batch: `order_by(attempted nulls first, finished, pk)[:limit]`
  // ---------------------------------------------------------------------------------------

  predicate AttemptLess(a: Option<int>, b: Option<int>) {
    b.Some? && (a.None? || a.value < b.value)
  }

  predicate Precedes(targets: seq<Target>, i: nat, j: nat)
    requires i < |targets| && j < |targets|
  {
    var a, b := targets[i], targets[j];
    || AttemptLess(a.attempted, b.attempted)
    || (a.attempted == b.attempted && (a.finished < b.finished || (a.finished == b.finished && i < j)))
  }

  ghost predicate Sorted(targets: seq<Target>, order: seq<nat>) {
    && (forall k :: 0 <= k < |order| ==> order[k] < |targets|)
    && (forall k, l :: 0 <= k < l < |order| ==> Precedes(targets, order[k], order[l]))
  }

  function InsertTarget(targets: seq<Target>, i: nat, order: seq<nat>): (order': seq<nat>)
    requires i < |targets| && forall k :: 0 <= k < |order| ==> order[k] < |targets|
    ensures |order'| == |order| + 1 && forall x :: x in order' <==> x == i || x in order
  {
    if order == [] || Precedes(targets, i, order[0]) then [i] + order
    else [order[0]] + InsertTarget(targets, i, order[1..])
  }

  lemma {:induction false} InsertKeepsSorted(targets: seq<Target>, i: nat, order: seq<nat>)
    requires i < |targets| && Sorted(targets, order) && i !in order
    ensures Sorted(targets, InsertTarget(targets, i, order))
  {
    var order' := InsertTarget(targets, i, order);
    forall k | 0 <= k < |order'| ensures order'[k] < |targets| {
      assert order'[k] in order';
    }
    if order != [] && !Precedes(targets, i, order[0]) {
      InsertKeepsSorted(targets, i, order[1..]);
      var rest := InsertTarget(targets, i, order[1..]);
      forall k | 0 <= k < |rest| ensures Precedes(targets, order[0], rest[k]) {
        assert rest[k] in rest;
        if rest[k] == i { assert order[0] in order; }
      }
    }
  }

  /** The eligible targets among the first `n`, in processing order. */
  function Queue(targets: seq<Target>, n: nat): (order: seq<nat>)
    requires n <= |targets|
    ensures forall i: nat :: i in order <==> i < n && Eligible(targets[i])
  {
    if n == 0 then []
    else
      var order := Queue(targets, n - 1);
      assert forall k :: 0 <= k < |order| ==> order[k] in order;
      if Eligible(targets[n - 1]) then InsertTarget(targets, n - 1, order) else order
  }

  lemma {:induction false} QueueIsSorted(targets: seq<Target>, n: nat)
    requires n <= |targets|
    ensures Sorted(targets, Queue(targets, n))
  {
    if n > 0 {
      QueueIsSorted(targets, n - 1);
      assert n - 1 !in Queue(targets, n - 1);
      if Eligible(targets[n - 1]) {
        InsertKeepsSorted(targets, n - 1, Queue(targets, n - 1));
      }
    }
  }

  function Batch(targets: seq<Target>, limit: nat): (batch: seq<nat>)
    ensures forall k :: 0 <= k < |batch| ==> batch[k] < |targets|
  {
    var queue := Queue(targets, |targets|);
    assert forall k :: 0 <= k < |queue| ==> queue[k] in queue;
    if |queue| <= limit then queue else queue[..limit]
  }

  /** Everything chosen is eligible and chosen once, and precedes everything eligible that was not. */
  lemma BatchIsOldest(targets: seq<Target>, limit: nat)
    ensures var batch := Batch(targets, limit);
            && (forall k :: 0 <= k < |batch| ==> batch[k] < |targets| && Eligible(targets[batch[k]]))
            && (forall k, l :: 0 <= k < l < |batch| ==> batch[k] != batch[l])
            && |batch| <= limit
            && (forall j :: 0 <= j < |targets| && Eligible(targets[j]) && j !in batch ==>
                  |batch| == limit && forall i :: i in batch ==> Precedes(targets, i, j))
  {
    QueueIsSorted(targets, |targets|);
    var queue, batch := Queue(targets, |targets|), Batch(targets, limit);
    assert forall k :: 0 <= k < |batch| ==> batch[k] in queue;
    assert forall k :: 0 <= k < |batch| ==> batch[k] == queue[k];
    forall j | 0 <= j < |targets| && Eligible(targets[j]) && j !in batch
      ensures |batch| == limit && forall i :: i in batch ==> Precedes(targets, i, j)
    {
      assert j in queue;
      var k :| 0 <= k < |queue| && queue[k] == j;
      assert |batch| <= k;
    }
  }

  /** Who is served first, in words: those never attempted, then the longest ago; and then by finish time and key. */
  lemma BatchReads(targets: seq<Target>, limit: nat, i: nat, j: nat)
    requires i in Batch(targets, limit) && j < |targets| && j !in Batch(targets, limit)
    requires targets[j].terminal && targets[j].alerted && !targets[j].processed
    ensures var a, b := targets[i], targets[j];
            && (a.attempted.Some? ==> b.attempted.Some? && a.attempted.value <= b.attempted.value)
            && (a.attempted == b.attempted ==> a.finished < b.finished || (a.finished == b.finished && i < j))
  {
    BatchIsOldest(targets, limit);
    assert Eligible(targets[j]);
    assert Precedes(targets, i, j);
  }

  // ---------------------------------------------------------------------------------------
  // Cycles
  // ---------------------------------------------------------------------------------------

  ghost function Cycle(targets: seq<Target>, limit: nat, fails: set<nat>, times: seq<int>): (targets': seq<Target>)
    requires |times| == |targets|
    ensures |targets'| == |targets|
  {
    seq(|targets|, i requires 0 <= i < |targets| =>
      if i in Batch(targets, limit) then Attempted(targets[i], i in fails, times[i]) else targets[i])
  }

  /** Attempting the batch one by one is the cycle. */
  lemma CycleIsBatch(targets: seq<Target>, limit: nat, fails: set<nat>, times: seq<int>)
    requires |times| == |targets|
    ensures AttemptAll(targets, Batch(targets, limit), fails, times) == Cycle(targets, limit, fails, times)
  {
    var batch := Batch(targets, limit);
    BatchIsOldest(targets, limit);
    forall i | 0 <= i < |targets|
      ensures AttemptAll(targets, batch, fails, times)[i] == Cycle(targets, limit, fails, times)[i]
    {
      AttemptedOnce(targets, batch, fails, times, i);
    }
  }

  /** One cycle of a run: which targets would raise, and when each is attempted. */
  datatype Round = Round(fails: set<nat>, times: seq<int>)

  ghost function After(targets: seq<Target>, limit: nat, rounds: seq<Round>): (targets': seq<Target>)
    requires forall r :: r in rounds ==> |r.times| == |targets|
    ensures |targets'| == |targets|
  {
    if rounds == [] then targets
    else
      var before := After(targets, limit, rounds[..|rounds| - 1]);
      var r := rounds[|rounds| - 1];
      assert r in rounds;
      Cycle(before, limit, r.fails, r.times)
  }

  /** Still pending, and not attempted since the instant `since`. */
  ghost predicate IsWaiting(t: Target, since: int) {
    Eligible(t) && (t.attempted.None? || t.attempted.value <= since)
  }

  ghost function Waiting(targets: seq<Target>, since: int): (waiting: set<nat>) {
    set i: nat | i < |targets| && IsWaiting(targets[i], since)
  }

  ghost function ToSet(batch: seq<nat>): (members: set<nat>)
    ensures forall i :: i in members <==> i in batch
  {
    set i | i in batch
  }

  lemma {:induction false} DistinctSize(batch: seq<nat>)
    requires forall k, l :: 0 <= k < l < |batch| ==> batch[k] != batch[l]
    ensures |ToSet(batch)| == |batch|
  {
    if batch != [] {
      var front := batch[..|batch| - 1];
      DistinctSize(front);
      assert ToSet(batch) == ToSet(front) + {batch[|batch| - 1]};
    }
  }

  /** What a cycle leaves waiting is what was waiting and not in the batch. */
  lemma CycleRemovesBatch(targets: seq<Target>, limit: nat, fails: set<nat>, times: seq<int>, since: int)
    requires |times| == |targets| && forall i :: 0 <= i < |times| ==> since < times[i]
    ensures Waiting(Cycle(targets, limit, fails, times), since)
              == Waiting(targets, since) - ToSet(Batch(targets, limit))
  {
    BatchIsOldest(targets, limit);
    var batch, after := Batch(targets, limit), Cycle(targets, limit, fails, times);
    forall i: nat
      ensures i in Waiting(after, since) <==> i in Waiting(targets, since) && i !in batch
    {
      if i < |targets| {
        assert after[i] == if i in batch then Attempted(targets[i], i in fails, times[i]) else targets[i];
      }
    }
  }

  /** If somebody is left waiting, the whole batch was waiting, and it was full. */
  lemma BatchWasWaiting(targets: seq<Target>, limit: nat, since: int, j: nat)
    requires j in Waiting(targets, since) && j !in Batch(targets, limit)
    ensures |Batch(targets, limit)| == limit && ToSet(Batch(targets, limit)) <= Waiting(targets, since)
  {
    BatchIsOldest(targets, limit);
    var batch := Batch(targets, limit);
    forall i | i in batch ensures i in Waiting(targets, since) {
      assert Precedes(targets, i, j);
      assert Eligible(targets[i]);
    }
  }

  /** A cycle serves `limit` waiting targets, or all of them. */
  lemma CycleServesWaiting(targets: seq<Target>, limit: nat, fails: set<nat>, times: seq<int>, since: int)
    requires |times| == |targets| && forall i :: 0 <= i < |times| ==> since < times[i]
    ensures var waiting' := Waiting(Cycle(targets, limit, fails, times), since);
            && waiting' <= Waiting(targets, since)
            && (waiting' == {} || |waiting'| + limit == |Waiting(targets, since)|)
  {
    CycleRemovesBatch(targets, limit, fails, times, since);
    var batch, waiting := Batch(targets, limit), Waiting(targets, since);
    if j :| j in waiting - ToSet(batch) {
      BatchIsOldest(targets, limit);
      BatchWasWaiting(targets, limit, since, j);
      DistinctSize(batch);
    }
  }

  lemma OneMoreBatch(limit: nat, rounds: nat)
    ensures limit * (rounds + 1) == limit * rounds + limit
  {
  }

  /** Every cycle takes its share of the backlog, until nothing of it is left. */
  lemma {:induction false} BacklogShrinks(targets: seq<Target>, limit: nat, rounds: seq<Round>, since: int)
    requires forall r :: r in rounds ==> |r.times| == |targets| && forall i :: 0 <= i < |r.times| ==> since < r.times[i]
    ensures var waiting := Waiting(After(targets, limit, rounds), since);
            && waiting <= Waiting(targets, since)
            && (waiting == {} || |waiting| + limit * |rounds| == |Waiting(targets, since)|)
  {
    if rounds != [] {
      var last := |rounds| - 1;
      assert rounds[last] in rounds;
      BacklogShrinks(targets, limit, rounds[..last], since);
      CycleServesWaiting(
        After(targets, limit, rounds[..last]), limit, rounds[last].fails, rounds[last].times, since);
      OneMoreBatch(limit, last);
    }
  }

  /**
   Fairness: with no new arrivals, a clock that advances between cycles and any failures whatsoever,
   a backlog of `n` targets is attempted completely within the first ceil(n / limit) cycles.
   */
  lemma BacklogIsAttempted(targets: seq<Target>, limit: nat, rounds: seq<Round>, since: int)
    requires forall r :: r in rounds ==> |r.times| == |targets| && forall i :: 0 <= i < |r.times| ==> since < r.times[i]
    requires limit * |rounds| >= |Waiting(targets, since)|
    ensures forall i :: 0 <= i < |targets| ==> !IsWaiting(After(targets, limit, rounds)[i], since)
  {
    BacklogShrinks(targets, limit, rounds, since);
    var after := After(targets, limit, rounds);
    assert Waiting(after, since) == {};
    forall i | 0 <= i < |targets| ensures !IsWaiting(after[i], since) {
      assert IsWaiting(after[i], since) ==> i in Waiting(after, since);
    }
  }

  // ---------------------------------------------------------------------------------------
  // Once each
  // ---------------------------------------------------------------------------------------

  /** Attempts come from the executor and from the reconciliation cycles alike, in any order. */
  datatype Attempt = Attempt(target: nat, fails: bool, at: int)

  ghost function AfterAttempts(targets: seq<Target>, run: seq<Attempt>): (targets': seq<Target>)
    requires forall a :: a in run ==> a.target < |targets|
    ensures |targets'| == |targets|
  {
    if run == [] then targets
    else
      var a := run[|run| - 1];
      assert a in run;
      var before := AfterAttempts(targets, run[..|run| - 1]);
      before[a.target := Attempted(before[a.target], a.fails, a.at)]
  }

  /** How often the findings of target `i` reach the alert tables during a run. */
  ghost function Applications(targets: seq<Target>, run: seq<Attempt>, i: nat): (count: nat)
    requires (forall a :: a in run ==> a.target < |targets|) && i < |targets|
  {
    if run == [] then 0
    else
      var a := run[|run| - 1];
      Applications(targets, run[..|run| - 1], i)
      + if a.target == i && !a.fails && Eligible(AfterAttempts(targets, run[..|run| - 1])[i]) then 1 else 0
  }

  /** Findings are applied exactly once if the target ends up processed, and otherwise never. */
  lemma {:induction false} FindingsApplyOnce(targets: seq<Target>, run: seq<Attempt>, i: nat)
    requires (forall a :: a in run ==> a.target < |targets|) && i < |targets| && !targets[i].processed
    ensures Applications(targets, run, i) == if AfterAttempts(targets, run)[i].processed then 1 else 0
  {
    if run != [] {
      assert run[|run| - 1] in run;
      FindingsApplyOnce(targets, run[..|run| - 1], i);
    }
  }

  // ---------------------------------------------------------------------------------------
  // One summary per task
  // ---------------------------------------------------------------------------------------

  datatype Task = Task(summarised: bool, terminal: bool, targets: set<nat>, attempted: Option<int>, events: nat)

  predicate Settled(task: Task, targets: seq<Target>) {
    forall i | i in task.targets :: i < |targets| && targets[i].terminal && targets[i].processed
  }

  /** The summary transaction of one task; `fails` is any exception, which rolls everything back. */
  function Summarised(task: Task, targets: seq<Target>, fails: bool, at: int): (task': Task) {
    if !task.terminal || task.summarised then task
    else if fails || !Settled(task, targets) then task.(attempted := Some(at))
    else task.(attempted := Some(at), summarised := true, events := if task.events == 0 then 1 else task.events)
  }

  class SummaryDesk {
    var tasks: seq<Task>

    method ProcessTaskSummary(k: nat, targets: seq<Target>, fails: bool, at: int)
      requires k < |tasks|
      modifies this
      ensures tasks == old(tasks)[k := Summarised(old(tasks)[k], targets, fails, at)]
      ensures var task, task' := old(tasks)[k], tasks[k];
              if task.terminal && !task.summarised then
                && task'.attempted == Some(at)
                && (task'.summarised <==> !fails && forall i :: i in task.targets ==>
                      i < |targets| && targets[i].terminal && targets[i].processed)
                && task'.events == if task'.summarised && task.events == 0 then 1 else task.events
              else task' == task
    {
      var task := tasks[k];
      if !task.terminal || task.summarised {
        return;
      }
      task := task.(attempted := Some(at));
      tasks := tasks[k := task];
      if fails {
        return;
      }
      if exists i | i in task.targets :: i >= |targets| || !targets[i].terminal || !targets[i].processed {
        return;
      }
      if task.events == 0 {
        task := task.(events := 1);
      }
      tasks := tasks[k := task.(summarised := true)];
    }
  }

  /** One moment of a task's life: an attempt at its summary while the targets look like this. */
  datatype Moment = Moment(targets: seq<Target>, fails: bool, at: int)

  ghost function TaskAfter(task: Task, moments: seq<Moment>): (task': Task) {
    if moments == [] then task
    else
      var m := moments[|moments| - 1];
      Summarised(TaskAfter(task, moments[..|moments| - 1]), m.targets, m.fails, m.at)
  }

  ghost predicate SettledAt(task: Task, moments: seq<Moment>, k: int) {
    0 <= k < |moments| && Settled(task, moments[k].targets) && !moments[k].fails
  }

  /** However often it is retried, a task gets at most one summary, and none before its evidence settled. */
  lemma {:induction false} OneSummaryPerTask(task: Task, moments: seq<Moment>)
    requires task.events == 0 && !task.summarised
    ensures var after := TaskAfter(task, moments);
            && after.events == (if after.summarised then 1 else 0)
            && (after.summarised ==> task.terminal && exists k :: SettledAt(task, moments, k))
            && after.targets == task.targets && after.terminal == task.terminal
  {
    if moments != [] {
      var last := |moments| - 1;
      OneSummaryPerTask(task, moments[..last]);
      var before, after := TaskAfter(task, moments[..last]), TaskAfter(task, moments);
      if before.summarised {
        var k :| SettledAt(task, moments[..last], k);
        assert SettledAt(task, moments, k);
      } else if after.summarised {
        assert SettledAt(task, moments, last);
      }
    }
  }
}
