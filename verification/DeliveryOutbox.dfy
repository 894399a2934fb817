/**
 The alert outbox: due deliveries are claimed under lease tokens, sent outside the
 transaction, and finished only under the token they were claimed with
 (net/alerts/service.py:334-412).

 `Outbox` updates its tables in place, one method per database transaction. Each method is
 proved equal to a step function, and the runs of those steps carry the properties.
 */
module DeliveryOutbox {
  import opened Outcomes

  const RETRY_DELAY_SECONDS := 30
  const DELIVERY_LEASE_SECONDS := 30
  const MAX_DELIVERY_ATTEMPTS := 5

  datatype Status = Pending | Sending | Sent | Retry | Failed

  datatype EventStatus = EventPending | EventSending | Delivered | Partial | EventFailed

  /** One channel's copy of one event; the index in the table is the (created_at, pk) order. */
  datatype Delivery = Delivery(
    event: nat, status: Status, attempts: nat, maxAttempts: nat, token: string,
    leaseExpires: Option<int>, nextAttempt: Option<int>, delivered: Option<int>)
  {
    predicate Terminal() { status.Sent? || status.Failed? }

    /** The bound on what can still happen to a row that is not terminal. */
    function Measure(): int {
      2 * (maxAttempts - attempts) + if status.Sending? then 1 else 0
    }
  }

  datatype DeliveryResult = DeliveryResult(success: bool, retryable: bool)

  datatype Tables = Tables(rows: seq<Delivery>, events: seq<EventStatus>)

  // ---------------------------------------------------------------------------------------
  // One transaction, as a function
  // ---------------------------------------------------------------------------------------

  predicate AnyIs(rows: seq<Delivery>, event: nat, status: Status) {
    exists i :: 0 <= i < |rows| && rows[i].event == event && rows[i].status == status
  }

  predicate AllAre(rows: seq<Delivery>, event: nat, status: Status) {
    && HasDelivery(rows, event)
    && forall i :: 0 <= i < |rows| && rows[i].event == event ==> rows[i].status == status
  }

  predicate HasDelivery(rows: seq<Delivery>, event: nat) {
    exists i :: 0 <= i < |rows| && rows[i].event == event
  }

  /** The status an event has by looking at its deliveries alone. */
  function Aggregate(rows: seq<Delivery>, event: nat): (status: EventStatus) {
    if AllAre(rows, event, Sent) then Delivered
    else if AnyIs(rows, event, Sent) then Partial
    else if AllAre(rows, event, Failed) then EventFailed
    else if AnyIs(rows, event, Sending) then EventSending
    else EventPending
  }

  function Refresh(t: Tables, event: nat): (t': Tables)
    requires event < |t.events|
  {
    t.(events := t.events[event := Aggregate(t.rows, event)])
  }

  predicate Due(d: Delivery, now: int) {
    || d.status.Pending?
    || (d.status.Retry? && d.nextAttempt.Some? && d.nextAttempt.value <= now)
    || (d.status.Sending? && d.leaseExpires.Some? && d.leaseExpires.value <= now)
  }

  predicate Selected(d: Delivery, event: Option<nat>, now: int) {
    Due(d, now) && (event.None? || d.event == event.value)
  }

  predicate Exhausted(d: Delivery) {
    d.status.Sending? && d.attempts >= d.maxAttempts
  }

  function GivenUp(d: Delivery): Delivery {
    d.(status := Failed, leaseExpires := None, token := "")
  }

  function Claimed(d: Delivery, now: int, token: string): Delivery {
    d.(status := Sending, attempts := d.attempts + 1, leaseExpires := Some(now + DELIVERY_LEASE_SECONDS),
       token := token, nextAttempt := None)
  }

  function BatchSize(limit: int): nat {
    if limit > 1 then limit else 1
  }

  ghost predicate WellFormed(t: Tables) {
    forall i :: 0 <= i < |t.rows| ==> t.rows[i].event < |t.events|
  }

  /** A selected row is claimed, or given up when its attempts are used up. */
  ghost function Taken(t: Tables, now: int, token: string, i: nat): (t': Tables)
    requires WellFormed(t) && i < |t.rows|
    ensures WellFormed(t') && |t'.rows| == |t.rows| && |t'.events| == |t.events|
  {
    var d := t.rows[i];
    if Exhausted(d) then Refresh(t.(rows := t.rows[i := GivenUp(d)]), d.event)
    else t.(rows := t.rows[i := Claimed(d, now, token)])
  }

  /** The claim transaction from row `i` on, with `left` rows of the batch still to take. */
  ghost function ClaimFrom(
      t: Tables, event: Option<nat>, left: nat, now: int, tokens: seq<string>, i: nat): (t': Tables)
    requires WellFormed(t) && |tokens| == |t.rows| && i <= |t.rows|
    ensures WellFormed(t') && |t'.rows| == |t.rows| && |t'.events| == |t.events|
    decreases |t.rows| - i
  {
    if i == |t.rows| || left == 0 then t
    else if !Selected(t.rows[i], event, now) then ClaimFrom(t, event, left, now, tokens, i + 1)
    else
      ClaimFrom(Taken(t, now, tokens[i], i), event, left - 1, now, tokens, i + 1)
  }

  ghost function ClaimStep(t: Tables, event: Option<nat>, limit: int, now: int, tokens: seq<string>): (t': Tables)
    requires WellFormed(t) && |tokens| == |t.rows|
    ensures WellFormed(t') && |t'.rows| == |t.rows| && |t'.events| == |t.events|
  {
    ClaimFrom(t, event, BatchSize(limit), now, tokens, 0)
  }

  function Finished(d: Delivery, result: DeliveryResult, now: int): Delivery {
    var done := d.(leaseExpires := None, token := "");
    if result.success then done.(status := Sent, delivered := Some(now), nextAttempt := None)
    else if result.retryable && d.attempts < d.maxAttempts then
      done.(status := Retry, nextAttempt := Some(now + RETRY_DELAY_SECONDS), delivered := None)
    else done.(status := Failed, nextAttempt := None, delivered := None)
  }

  ghost function FinishStep(t: Tables, i: nat, token: string, result: DeliveryResult, now: int): (t': Tables)
    requires WellFormed(t) && i < |t.rows|
    ensures WellFormed(t') && |t'.rows| == |t.rows| && |t'.events| == |t.events|
  {
    var d := t.rows[i];
    if !d.status.Sending? || d.token != token then t
    else Refresh(t.(rows := t.rows[i := Finished(d, result, now)]), d.event)
  }

  function NewDelivery(event: nat, maxAttempts: nat): Delivery {
    Delivery(event, Pending, 0, maxAttempts, "", None, None, None)
  }

  /** A summary publishes one event with one PENDING delivery per channel; without channels it fails. */
  ghost function PublishStep(t: Tables, channels: nat, maxAttempts: nat): (t': Tables)
    requires WellFormed(t)
    ensures WellFormed(t')
  {
    Tables(t.rows + seq(channels, _ => NewDelivery(|t.events|, maxAttempts)),
           t.events + [if channels == 0 then EventFailed else EventPending])
  }

  /** Of the rows before `i`, the returned list holds exactly those claimed, each with its token. */
  ghost predicate HandedOut(before: seq<Delivery>, rows: seq<Delivery>, now: int, tokens: seq<string>,
                            claimed: seq<(nat, string)>, i: nat)
    requires i <= |before| == |rows| == |tokens|
  {
    && (forall c :: c in claimed ==> c.0 < i && c.1 == tokens[c.0])
    && (forall k :: 0 <= k < i ==> ((k, tokens[k]) in claimed <==> rows[k] == Claimed(before[k], now, tokens[k])))
  }

  /** One more row is left alone, given up or claimed; only a claim counts an attempt. */
  lemma HandOut(before: seq<Delivery>, rows: seq<Delivery>, now: int, tokens: seq<string>,
                claimed: seq<(nat, string)>, i: nat)
    requires i < |before| == |rows| == |tokens| && rows[i] == before[i]
    requires HandedOut(before, rows, now, tokens, claimed, i)
    ensures HandedOut(before, rows, now, tokens, claimed, i + 1)
    ensures HandedOut(before, rows[i := GivenUp(rows[i])], now, tokens, claimed, i + 1)
    ensures HandedOut(before, rows[i := Claimed(rows[i], now, tokens[i])], now, tokens,
                      claimed + [(i, tokens[i])], i + 1)
  {
    assert Claimed(before[i], now, tokens[i]).attempts == before[i].attempts + 1;
  }

  lemma NoneLeft(before: seq<Delivery>, rows: seq<Delivery>, now: int, tokens: seq<string>,
                 claimed: seq<(nat, string)>, i: nat)
    requires i <= |before| == |rows| == |tokens| && forall k :: i <= k < |rows| ==> rows[k] == before[k]
    requires HandedOut(before, rows, now, tokens, claimed, i)
    ensures HandedOut(before, rows, now, tokens, claimed, |rows|)
  {
    forall k | i <= k < |rows| ensures rows[k] != Claimed(before[k], now, tokens[k]) {
      assert Claimed(before[k], now, tokens[k]).attempts == before[k].attempts + 1;
    }
  }

  // ---------------------------------------------------------------------------------------
  // The tables, updated in place
  // ---------------------------------------------------------------------------------------

  class Outbox {
    var rows: seq<Delivery>
    var events: seq<EventStatus>

    ghost function Contents(): Tables
      reads this
    {
      Tables(rows, events)
    }

    constructor ()
      ensures Contents() == Tables([], [])
    {
      rows, events := [], [];
    }

    method EventStatus(event: nat)
      requires event < |events|
      modifies this`events
      ensures Contents() == Refresh(old(Contents()), event)
    {
      var status := EventPending;
      if AllAre(rows, event, Sent) {
        status := Delivered;
      } else if AnyIs(rows, event, Sent) {
        status := Partial;
      } else if AllAre(rows, event, Failed) {
        status := EventFailed;
      } else if AnyIs(rows, event, Sending) {
        status := EventSending;
      }
      events := events[event := status];
    }

    /** `tokens[i]` is the fresh token row `i` gets if this transaction claims it. */
    method ClaimDeliveries(event: Option<nat>, limit: int, now: int, tokens: seq<string>)
        returns (claimed: seq<(nat, string)>)
      requires WellFormed(Contents()) && |tokens| == |rows|
      modifies this
      ensures Contents() == ClaimStep(old(Contents()), event, limit, now, tokens)
      ensures HandedOut(old(rows), rows, now, tokens, claimed, |rows|)
      ensures |claimed| <= if limit > 1 then limit else 1
    {
      claimed := [];
      var left := BatchSize(limit);
      var i := 0;
      ghost var before := rows;
      while i < |rows| && left > 0
        invariant i <= |rows| == |tokens| == |before| && WellFormed(Contents())
        invariant forall k :: i <= k < |rows| ==> rows[k] == before[k]
        invariant ClaimFrom(Contents(), event, left, now, tokens, i)
                  == ClaimStep(old(Contents()), event, limit, now, tokens)
        invariant HandedOut(before, rows, now, tokens, claimed, i)
        invariant |claimed| + left <= BatchSize(limit)
      {
        HandOut(before, rows, now, tokens, claimed, i);
        if Selected(rows[i], event, now) {
          left := left - 1;
          var taken := TakeRow(i, now, tokens[i]);
          if taken {
            claimed := claimed + [(i, tokens[i])];
          }
        }
        i := i + 1;
      }
      NoneLeft(before, rows, now, tokens, claimed, i);
    }

    method TakeRow(i: nat, now: int, token: string) returns (claimed: bool)
      requires WellFormed(Contents()) && i < |rows|
      modifies this
      ensures Contents() == Taken(old(Contents()), now, token, i)
      ensures claimed <==> !Exhausted(old(rows)[i])
    {
      var d := rows[i];
      claimed := !Exhausted(d);
      if claimed {
        rows := rows[i := Claimed(d, now, token)];
      } else {
        rows := rows[i := GivenUp(d)];
        EventStatus(d.event);
      }
    }

    method FinishDelivery(i: nat, token: string, result: DeliveryResult, now: int)
      requires WellFormed(Contents()) && i < |rows|
      modifies this
      ensures Contents() == FinishStep(old(Contents()), i, token, result, now)
    {
      var d := rows[i];
      if !d.status.Sending? || d.token != token {
        return;
      }
      d := d.(leaseExpires := None, token := "");
      if result.success {
        d := d.(status := Sent, delivered := Some(now), nextAttempt := None);
      } else if result.retryable && d.attempts < d.maxAttempts {
        d := d.(status := Retry, nextAttempt := Some(now + RETRY_DELAY_SECONDS), delivered := None);
      } else {
        d := d.(status := Failed, nextAttempt := None, delivered := None);
      }
      rows := rows[i := d];
      EventStatus(d.event);
    }

    /** The outbox part of a task summary: event and delivery rows in one transaction. */
    method PublishSummary(channels: nat, maxAttempts: nat)
      requires WellFormed(Contents())
      modifies this
      ensures Contents() == PublishStep(old(Contents()), channels, maxAttempts)
    {
      var event := |events|;
      events := events + [EventPending];
      var created := [];
      for k := 0 to channels
        invariant created == seq(k, _ => NewDelivery(event, maxAttempts))
      {
        created := created + [NewDelivery(event, maxAttempts)];
      }
      rows := rows + created;
      if created == [] {
        events := events[event := EventFailed];
      }
    }
  }

  // ---------------------------------------------------------------------------------------
  // Runs
  // ---------------------------------------------------------------------------------------

  datatype Step =
    | Claim(event: Option<nat>, limit: int, at: int, tokens: seq<string>)
    | Finish(row: nat, token: string, result: DeliveryResult, at: int)
    | Publish(channels: nat, maxAttempts: nat)

  /** The tables and every token ever handed out: tokens are never drawn twice. */
  datatype World = World(tables: Tables, issued: set<string>)

  ghost predicate Enabled(w: World, step: Step) {
    && WellFormed(w.tables)
    && match step
       case Claim(_, _, _, tokens) =>
         && |tokens| == |w.tables.rows|
         && (forall i :: 0 <= i < |tokens| ==> tokens[i] != "" && tokens[i] !in w.issued)
         && (forall i, j :: 0 <= i < j < |tokens| ==> tokens[i] != tokens[j])
       case Finish(row, _, _, _) => row < |w.tables.rows|
       case Publish(_, maxAttempts) => 1 <= maxAttempts <= MAX_DELIVERY_ATTEMPTS
  }

  ghost function Next(w: World, step: Step): (w': World)
    requires Enabled(w, step)
    ensures |w'.tables.rows| >= |w.tables.rows|
  {
    match step
    case Claim(event, limit, at, tokens) =>
      World(ClaimStep(w.tables, event, limit, at, tokens), w.issued + set i | 0 <= i < |tokens| :: tokens[i])
    case Finish(row, token, result, at) => World(FinishStep(w.tables, row, token, result, at), w.issued)
    case Publish(channels, maxAttempts) => World(PublishStep(w.tables, channels, maxAttempts), w.issued)
  }

  ghost predicate IsRun(w: World, run: seq<Step>)
    decreases run
  {
    WellFormed(w.tables) && (run == [] || (Enabled(w, run[0]) && IsRun(Next(w, run[0]), run[1..])))
  }

  ghost function Last(w: World, run: seq<Step>): (w': World)
    requires IsRun(w, run)
    ensures WellFormed(w'.tables) && |w'.tables.rows| >= |w.tables.rows|
    decreases run
  {
    if run == [] then w else Last(Next(w, run[0]), run[1..])
  }

  ghost predicate RowOk(d: Delivery, issued: set<string>) {
    && 1 <= d.maxAttempts && d.attempts <= d.maxAttempts
    && (d.status.Sending? <==> d.token != "")
    && (d.status.Sending? <==> d.leaseExpires.Some?)
    && (d.status.Sending? ==> d.token in issued && d.attempts >= 1)
    && (d.status.Retry? ==> d.attempts < d.maxAttempts && d.nextAttempt.Some?)
    && (d.status.Pending? ==> d.attempts < d.maxAttempts)
    && (d.status.Sent? <==> d.delivered.Some?)
  }

  /** Stored event statuses may lag in one way only: still PENDING while a delivery is being sent. */
  ghost predicate EventOk(t: Tables, event: nat)
    requires event < |t.events|
  {
    HasDelivery(t.rows, event) ==>
      || t.events[event] == Aggregate(t.rows, event)
      || (t.events[event].EventPending? && Aggregate(t.rows, event).EventSending?)
  }

  ghost predicate Inv(w: World) {
    && WellFormed(w.tables)
    && (forall i :: 0 <= i < |w.tables.rows| ==> RowOk(w.tables.rows[i], w.issued))
    && (forall e :: 0 <= e < |w.tables.events| ==> EventOk(w.tables, e))
  }

  /** Changing one row leaves the aggregate of every other event alone. */
  lemma OtherEventsUnaffected(rows: seq<Delivery>, i: nat, d: Delivery, event: nat)
    requires i < |rows| && d.event == rows[i].event != event
    ensures Aggregate(rows[i := d], event) == Aggregate(rows, event)
    ensures HasDelivery(rows[i := d], event) <==> HasDelivery(rows, event)
  {
    var rows' := rows[i := d];
    assert forall k :: 0 <= k < |rows| && rows[k].event == event ==> rows'[k] == rows[k];
    assert forall k :: 0 <= k < |rows| && rows'[k].event == event ==> rows'[k] == rows[k];
  }

  lemma RefreshedEventsOk(t: Tables, i: nat, d: Delivery)
    requires WellFormed(t) && i < |t.rows| && d.event == t.rows[i].event
    requires forall e :: 0 <= e < |t.events| ==> EventOk(t, e)
    ensures var t' := Refresh(t.(rows := t.rows[i := d]), d.event);
            forall e :: 0 <= e < |t.events| ==> EventOk(t', e)
  {
    var t' := Refresh(t.(rows := t.rows[i := d]), d.event);
    forall e | 0 <= e < |t.events| ensures EventOk(t', e) {
      assert EventOk(t, e);
      if e != d.event {
        OtherEventsUnaffected(t.rows, i, d, e);
      }
    }
  }

  /** A claim moves the aggregate only from PENDING to SENDING, which is the lag that is allowed. */
  lemma ClaimedEventsOk(t: Tables, i: nat, now: int, token: string)
    requires WellFormed(t) && i < |t.rows| && !t.rows[i].Terminal()
    requires forall e :: 0 <= e < |t.events| ==> EventOk(t, e)
    ensures var t' := t.(rows := t.rows[i := Claimed(t.rows[i], now, token)]);
            forall e :: 0 <= e < |t.events| ==> EventOk(t', e)
  {
    var d := Claimed(t.rows[i], now, token);
    var rows' := t.rows[i := d];
    forall e | 0 <= e < |t.events| ensures EventOk(t.(rows := rows'), e) {
      assert EventOk(t, e);
      if e != d.event {
        OtherEventsUnaffected(t.rows, i, d, e);
      } else {
        assert rows'[i].event == e && t.rows[i].event == e;
        assert AnyIs(rows', e, Sending) && !AllAre(rows', e, Sent) && !AllAre(rows', e, Failed);
        assert HasDelivery(t.rows, e) && !AllAre(t.rows, e, Sent) && !AllAre(t.rows, e, Failed);
        assert AnyIs(rows', e, Sent) <==> AnyIs(t.rows, e, Sent) by {
          if AnyIs(rows', e, Sent) {
            var k :| 0 <= k < |rows'| && rows'[k].event == e && rows'[k].status == Sent;
            assert t.rows[k] == rows'[k];
          }
          if AnyIs(t.rows, e, Sent) {
            var k :| 0 <= k < |t.rows| && t.rows[k].event == e && t.rows[k].status == Sent;
            assert t.rows[k] == rows'[k];
          }
        }
      }
    }
  }

  ghost predicate FreshTokens(tokens: seq<string>, issued: set<string>) {
    forall k :: 0 <= k < |tokens| ==> tokens[k] != "" && tokens[k] in issued
  }

  lemma {:induction false} ClaimKeepsInv(
      t: Tables, event: Option<nat>, left: nat, now: int, tokens: seq<string>, i: nat, issued: set<string>)
    requires Inv(World(t, issued)) && |tokens| == |t.rows| && i <= |t.rows| && FreshTokens(tokens, issued)
    ensures Inv(World(ClaimFrom(t, event, left, now, tokens, i), issued))
    decreases |t.rows| - i
  {
    if i == |t.rows| || left == 0 {
    } else if !Selected(t.rows[i], event, now) {
      ClaimKeepsInv(t, event, left, now, tokens, i + 1, issued);
    } else {
      var d := t.rows[i];
      if Exhausted(d) {
        RefreshedEventsOk(t, i, GivenUp(d));
      } else {
        ClaimedEventsOk(t, i, now, tokens[i]);
      }
      ClaimKeepsInv(Taken(t, now, tokens[i], i), event, left - 1, now, tokens, i + 1, issued);
    }
  }

  lemma PublishKeepsInv(w: World, channels: nat, maxAttempts: nat)
    requires Inv(w) && 1 <= maxAttempts <= MAX_DELIVERY_ATTEMPTS
    ensures Inv(World(PublishStep(w.tables, channels, maxAttempts), w.issued))
  {
    var t, t' := w.tables, PublishStep(w.tables, channels, maxAttempts);
    forall e | 0 <= e < |t'.events| ensures EventOk(t', e) {
      if e < |t.events| {
        assert EventOk(t, e);
        SameDeliveries(t.rows, t'.rows, e);
      } else if HasDelivery(t'.rows, e) {
        assert forall k :: 0 <= k < |t'.rows| && t'.rows[k].event == e ==> t'.rows[k].status == Pending;
      }
    }
  }

  lemma SameDeliveries(rows: seq<Delivery>, more: seq<Delivery>, event: nat)
    requires rows <= more && forall k :: |rows| <= k < |more| ==> more[k].event != event
    ensures Aggregate(more, event) == Aggregate(rows, event)
    ensures HasDelivery(more, event) <==> HasDelivery(rows, event)
  {
    assert forall k :: 0 <= k < |rows| ==> more[k] == rows[k];
  }

  lemma StepKeepsInv(w: World, step: Step)
    requires Inv(w) && Enabled(w, step)
    ensures Inv(Next(w, step))
  {
    match step
    case Claim(event, limit, at, tokens) =>
      var issued := Next(w, step).issued;
      assert Inv(World(w.tables, issued));
      ClaimKeepsInv(w.tables, event, BatchSize(limit), at, tokens, 0, issued);
    case Finish(row, token, result, at) =>
      RefreshedEventsOk(w.tables, row, Finished(w.tables.rows[row], result, at));
    case Publish(channels, maxAttempts) =>
      PublishKeepsInv(w, channels, maxAttempts);
  }

  /** Over every interleaving of claims, expiries, late finishes and new summaries the tables stay sound. */
  lemma {:induction false} RunKeepsInv(w: World, run: seq<Step>)
    requires Inv(w) && IsRun(w, run)
    ensures Inv(Last(w, run))
    decreases run
  {
    if run != [] {
      StepKeepsInv(w, run[0]);
      RunKeepsInv(Next(w, run[0]), run[1..]);
    }
  }

  ghost const START := World(Tables([], []), {})

  lemma ReachableTablesAreSound(run: seq<Step>)
    requires IsRun(START, run)
    ensures Inv(Last(START, run))
  {
    RunKeepsInv(START, run);
  }

  // ---------------------------------------------------------------------------------------
  // What one step can do to one row
  // ---------------------------------------------------------------------------------------

  function Touched(d: Delivery, now: int, token: string): Delivery {
    if Exhausted(d) then GivenUp(d) else Claimed(d, now, token)
  }

  /** A claim touches exactly the oldest selected rows, as many as the batch allows. */
  lemma {:induction false} ClaimTakesOldest(t: Tables, event: Option<nat>, left: nat, now: int, tokens: seq<string>,
      i: nat, k: nat)
    requires WellFormed(t) && |tokens| == |t.rows| && i <= |t.rows| && k < |t.rows|
    ensures ClaimFrom(t, event, left, now, tokens, i).rows[k] ==
            if i <= k && Selected(t.rows[k], event, now) && SelectedIn(t.rows, event, now, i, k) < left
            then Touched(t.rows[k], now, tokens[k]) else t.rows[k]
    decreases |t.rows| - i
  {
    if i == |t.rows| || left == 0 {
    } else if !Selected(t.rows[i], event, now) {
      ClaimTakesOldest(t, event, left, now, tokens, i + 1, k);
      if i < k { SelectedInStep(t.rows, event, now, i, k); }
    } else {
      var t1 := Taken(t, now, tokens[i], i);
      ClaimTakesOldest(t1, event, left - 1, now, tokens, i + 1, k);
      if i < k {
        SelectedInStep(t.rows, event, now, i, k);
        SelectedInSame(t.rows, t1.rows, event, now, i + 1, k);
      }
    }
  }

  /** How many rows in `[i, k)` are selected. */
  ghost function SelectedIn(rows: seq<Delivery>, event: Option<nat>, now: int, i: nat, k: nat): (count: nat)
    requires k <= |rows|
    decreases k
  {
    if k <= i then 0
    else SelectedIn(rows, event, now, i, k - 1) + if Selected(rows[k - 1], event, now) then 1 else 0
  }

  lemma {:induction false} SelectedInStep(rows: seq<Delivery>, event: Option<nat>, now: int, i: nat, k: nat)
    requires i < k <= |rows|
    ensures SelectedIn(rows, event, now, i, k) ==
            SelectedIn(rows, event, now, i + 1, k) + if Selected(rows[i], event, now) then 1 else 0
  {
    if i + 1 < k {
      SelectedInStep(rows, event, now, i, k - 1);
    }
  }

  lemma {:induction false} SelectedInSame(rows: seq<Delivery>, rows': seq<Delivery>, event: Option<nat>, now: int,
      i: nat, k: nat)
    requires i <= |rows| && k <= |rows| == |rows'| && rows[i..] == rows'[i..]
    ensures SelectedIn(rows, event, now, i, k) == SelectedIn(rows', event, now, i, k)
  {
    if i < k {
      SelectedInSame(rows, rows', event, now, i, k - 1);
      assert rows[k - 1] == rows[i..][k - 1 - i] == rows'[k - 1];
    }
  }

  /** The only ways a row ever changes, and each of them is fenced. */
  lemma RowStep(w: World, step: Step, k: nat)
    requires Inv(w) && Enabled(w, step) && k < |w.tables.rows|
    ensures var d, d' := w.tables.rows[k], Next(w, step).tables.rows[k];
            || d' == d
            || (step.Claim? && Due(d, step.at) && d' == Touched(d, step.at, step.tokens[k]))
            || (step.Finish? && step.row == k && d.status.Sending? && step.token == d.token
                && d' == Finished(d, step.result, step.at))
  {
    if step.Claim? {
      ClaimTakesOldest(w.tables, step.event, BatchSize(step.limit), step.at, step.tokens, 0, k);
    }
  }

  /**
   SENT and FAILED are final, and on every other row each effective step strictly decreases
   2 * (max_attempts - attempt_count) + (1 if SENDING).
   */
  lemma EffectiveStepsDecrease(w: World, step: Step, k: nat)
    requires Inv(w) && Enabled(w, step) && k < |w.tables.rows|
    ensures var d, d' := w.tables.rows[k], Next(w, step).tables.rows[k];
            && d'.maxAttempts == d.maxAttempts && d'.event == d.event
            && (d.Terminal() ==> d' == d)
            && (d' != d ==> 0 <= d'.Measure() < d.Measure())
  {
    RowStep(w, step, k);
    StepKeepsInv(w, step);
    assert RowOk(w.tables.rows[k], w.issued);
    assert RowOk(Next(w, step).tables.rows[k], Next(w, step).issued);
  }

  /** The number of steps of a run that change row `k`. */
  ghost function Changes(w: World, run: seq<Step>, k: nat): (count: nat)
    requires IsRun(w, run) && k < |w.tables.rows|
    decreases run
  {
    if run == [] then 0
    else (if Next(w, run[0]).tables.rows[k] != w.tables.rows[k] then 1 else 0) + Changes(Next(w, run[0]), run[1..], k)
  }

  /** The number of steps of a run that claim row `k` for sending. */
  ghost function Claims(w: World, run: seq<Step>, k: nat): (count: nat)
    requires IsRun(w, run) && k < |w.tables.rows|
    decreases run
  {
    if run == [] then 0
    else (if Next(w, run[0]).tables.rows[k].attempts != w.tables.rows[k].attempts then 1 else 0)
         + Claims(Next(w, run[0]), run[1..], k)
  }

  /** A delivery is claimed at most max_attempts times in its life, and changes at most twice as often. */
  lemma {:induction false} AttemptsAreBounded(w: World, run: seq<Step>, k: nat)
    requires Inv(w) && IsRun(w, run) && k < |w.tables.rows|
    ensures var d, d' := w.tables.rows[k], Last(w, run).tables.rows[k];
            && d'.attempts == d.attempts + Claims(w, run, k) <= d.maxAttempts
            && Changes(w, run, k) <= d.Measure() - d'.Measure()
            && (d.Terminal() ==> d' == d)
    decreases run
  {
    if run == [] {
      assert RowOk(w.tables.rows[k], w.issued);
    } else {
      EffectiveStepsDecrease(w, run[0], k);
      RowStep(w, run[0], k);
      StepKeepsInv(w, run[0]);
      AttemptsAreBounded(Next(w, run[0]), run[1..], k);
    }
  }

  /** Fencing over runs: once a token is no longer row `k`'s current one, finishing with it never changes anything. */
  lemma {:induction false} StaleTokensStayDead(w: World, run: seq<Step>, k: nat, token: string,
      result: DeliveryResult, at: int)
    requires Inv(w) && IsRun(w, run) && k < |w.tables.rows|
    requires token != "" && token in w.issued && w.tables.rows[k].token != token
    ensures Last(w, run).tables.rows[k].token != token
    ensures FinishStep(Last(w, run).tables, k, token, result, at) == Last(w, run).tables
    decreases run
  {
    RunKeepsInv(w, run);
    if run != [] {
      RowStep(w, run[0], k);
      StepKeepsInv(w, run[0]);
      assert RowOk(w.tables.rows[k], w.issued) && RowOk(Next(w, run[0]).tables.rows[k], Next(w, run[0]).issued);
      StaleTokensStayDead(Next(w, run[0]), run[1..], k, token, result, at);
    }
  }

  /** DELIVERED, PARTIAL and FAILED are never stale: they are stored exactly when the deliveries say so. */
  lemma SettledStatusesAreExact(w: World, run: seq<Step>, event: nat)
    requires Inv(w) && IsRun(w, run) && event < |Last(w, run).tables.events|
    requires HasDelivery(Last(w, run).tables.rows, event)
    ensures var t := Last(w, run).tables;
            && (t.events[event].Delivered? <==> AllAre(t.rows, event, Sent))
            && (t.events[event].Partial? <==> AnyIs(t.rows, event, Sent) && !AllAre(t.rows, event, Sent))
            && (t.events[event].EventFailed? <==> AllAre(t.rows, event, Failed))
  {
    RunKeepsInv(w, run);
    var t := Last(w, run).tables;
    assert EventOk(t, event);
    if AllAre(t.rows, event, Failed) && AnyIs(t.rows, event, Sent) {
      assert false;
    }
    if AllAre(t.rows, event, Sent) && AllAre(t.rows, event, Failed) {
      assert false;
    }
  }

  // ---------------------------------------------------------------------------------------
  // What the outcomes mean
  // ---------------------------------------------------------------------------------------

  /** A finish under the current token: sent on success, tried again in 30 seconds while it may, failed otherwise. */
  lemma FinishMeans(w: World, k: nat, result: DeliveryResult, at: int)
    requires Inv(w) && k < |w.tables.rows| && w.tables.rows[k].status.Sending?
    ensures var d := w.tables.rows[k];
            var d' := FinishStep(w.tables, k, d.token, result, at).rows[k];
            && (d'.status.Sent? <==> result.success)
            && (d'.status.Retry? <==> !result.success && result.retryable && d.attempts < d.maxAttempts)
            && (d'.status.Failed? <==> !result.success && (!result.retryable || d.attempts == d.maxAttempts))
            && (d'.status.Sent? ==> d'.delivered == Some(at))
            && (d'.status.Retry? ==> d'.nextAttempt == Some(at + 30))
            && d'.token == "" && d'.leaseExpires.None? && d'.attempts == d.attempts
  {
    assert RowOk(w.tables.rows[k], w.issued);
  }

  /** Another token, or none to finish, changes nothing. */
  lemma FinishIsFenced(t: Tables, k: nat, token: string, result: DeliveryResult, at: int)
    requires WellFormed(t) && k < |t.rows|
    ensures !t.rows[k].status.Sending? || t.rows[k].token != token ==> FinishStep(t, k, token, result, at) == t
    ensures FinishStep(t, k, token, result, at).rows == t.rows[k := FinishStep(t, k, token, result, at).rows[k]]
  {
  }

  /** The row waits for nothing but a worker: it is new, its retry has come, or its lease has run out. */
  predicate MayBeTaken(d: Delivery, now: int) {
    || d.status.Pending?
    || (d.status.Retry? && d.nextAttempt.Some? && d.nextAttempt.value <= now)
    || (d.status.Sending? && d.leaseExpires.Some? && d.leaseExpires.value <= now)
  }

  /** A claimed row might be taken; it is sending for 30 seconds then, or failed if its attempts are used up. */
  lemma ClaimMeans(w: World, event: Option<nat>, limit: int, at: int, tokens: seq<string>, k: nat)
    requires Inv(w) && Enabled(w, Claim(event, limit, at, tokens)) && k < |w.tables.rows|
    requires Next(w, Claim(event, limit, at, tokens)).tables.rows[k] != w.tables.rows[k]
    ensures var d, d' := w.tables.rows[k], Next(w, Claim(event, limit, at, tokens)).tables.rows[k];
            && MayBeTaken(d, at) && (event.Some? ==> d.event == event.value)
            && if d.status.Sending? && d.attempts == d.maxAttempts
               then d'.status.Failed? && d'.token == "" && d'.attempts == d.attempts
               else d'.status.Sending? && d'.token == tokens[k] && d'.leaseExpires == Some(at + 30)
                    && d'.attempts == d.attempts + 1
  {
    ClaimTakesOldest(w.tables, event, BatchSize(limit), at, tokens, 0, k);
    assert RowOk(w.tables.rows[k], w.issued);
  }

  /** And every row that may be taken is changed, unless the batch is already full of older ones. */
  lemma ClaimReaches(w: World, event: Option<nat>, limit: int, at: int, tokens: seq<string>, k: nat)
    requires Inv(w) && Enabled(w, Claim(event, limit, at, tokens)) && k < |w.tables.rows|
    requires MayBeTaken(w.tables.rows[k], at) && (event.Some? ==> w.tables.rows[k].event == event.value)
    requires SelectedIn(w.tables.rows, event, at, 0, k) < if limit > 1 then limit else 1
    ensures Next(w, Claim(event, limit, at, tokens)).tables.rows[k] != w.tables.rows[k]
  {
    ClaimTakesOldest(w.tables, event, BatchSize(limit), at, tokens, 0, k);
    assert RowOk(w.tables.rows[k], w.issued);
  }

  /** A summary adds one event with one new delivery per channel, and fails at once without channels. */
  lemma PublishMeans(t: Tables, channels: nat, maxAttempts: nat)
    requires WellFormed(t)
    ensures var t' := PublishStep(t, channels, maxAttempts);
            && |t'.events| == |t.events| + 1 && t.events <= t'.events && t.rows <= t'.rows
            && |t'.rows| == |t.rows| + channels
            && (t'.events[|t.events|].EventFailed? <==> channels == 0)
            && forall k :: |t.rows| <= k < |t'.rows| ==>
                 && t'.rows[k].event == |t.events| && t'.rows[k].status.Pending?
                 && t'.rows[k].attempts == 0 && t'.rows[k].maxAttempts == maxAttempts && t'.rows[k].token == ""
  {
  }

  /** An event's status by its deliveries: all sent, some sent, all failed, one on its way, or still waiting. */
  lemma AggregateReads(rows: seq<Delivery>, event: nat)
    requires HasDelivery(rows, event)
    ensures var all := (status: Status) =>
              forall i :: 0 <= i < |rows| && rows[i].event == event ==> rows[i].status == status;
            var some := (status: Status) =>
              exists i :: 0 <= i < |rows| && rows[i].event == event && rows[i].status == status;
            && (Aggregate(rows, event).Delivered? <==> all(Sent))
            && (Aggregate(rows, event).Partial? <==> some(Sent) && !all(Sent))
            && (Aggregate(rows, event).EventFailed? <==> all(Failed))
            && (Aggregate(rows, event).EventSending? <==> some(Sending) && !some(Sent))
  {
  }

  /** The step reports success for row `k` under the token the row holds at that moment. */
  ghost predicate ReportsSuccess(w: World, step: Step, k: nat)
    requires k < |w.tables.rows|
  {
    step.Finish? && step.row == k && w.tables.rows[k].status.Sending? && step.token == w.tables.rows[k].token
    && step.result.success
  }

  ghost predicate SucceedsIn(w: World, run: seq<Step>, k: nat)
    requires IsRun(w, run)
    decreases run
  {
    run != [] && ((k < |w.tables.rows| && ReportsSuccess(w, run[0], k)) || SucceedsIn(Next(w, run[0]), run[1..], k))
  }

  /** A row becomes sent by no step but the report of a success. */
  lemma SentBySuccess(w: World, step: Step, k: nat)
    requires Inv(w) && Enabled(w, step) && k < |Next(w, step).tables.rows|
    requires k < |w.tables.rows| ==> !w.tables.rows[k].status.Sent?
    ensures Next(w, step).tables.rows[k].status.Sent? <==> k < |w.tables.rows| && ReportsSuccess(w, step, k)
  {
    if k < |w.tables.rows| {
      RowStep(w, step, k);
      if step.Finish? && step.row == k && w.tables.rows[k].status.Sending? && step.token == w.tables.rows[k].token {
        FinishMeans(w, k, step.result, step.at);
      }
    }
  }

  lemma {:induction false} SentStaysSent(w: World, run: seq<Step>, k: nat)
    requires Inv(w) && IsRun(w, run) && k < |w.tables.rows| && w.tables.rows[k].status.Sent?
    ensures Last(w, run).tables.rows[k].status.Sent?
  {
    AttemptsAreBounded(w, run, k);
  }

  /** Over every run a delivery ends sent if and only if some finish under its then current token reported success. */
  lemma {:induction false} SentExactly(w: World, run: seq<Step>, k: nat)
    requires Inv(w) && IsRun(w, run) && k < |Last(w, run).tables.rows|
    requires k < |w.tables.rows| ==> !w.tables.rows[k].status.Sent?
    ensures Last(w, run).tables.rows[k].status.Sent? <==> SucceedsIn(w, run, k)
    decreases run
  {
    if run != [] {
      StepKeepsInv(w, run[0]);
      var w' := Next(w, run[0]);
      if k < |w'.tables.rows| {
        SentBySuccess(w, run[0], k);
        if w'.tables.rows[k].status.Sent? {
          SentStaysSent(w', run[1..], k);
        } else {
          SentExactly(w', run[1..], k);
        }
      } else {
        SentExactly(w', run[1..], k);
      }
    }
  }

  /** So an event is delivered only if each of its deliveries, and there is one, had such a success. */
  lemma DeliveredMeansSuccess(run: seq<Step>, event: nat)
    requires IsRun(START, run) && event < |Last(START, run).tables.events|
    requires HasDelivery(Last(START, run).tables.rows, event)
    ensures var t := Last(START, run).tables;
            t.events[event].Delivered? <==>
              forall k :: 0 <= k < |t.rows| && t.rows[k].event == event ==> SucceedsIn(START, run, k)
  {
    SettledStatusesAreExact(START, run, event);
    var t := Last(START, run).tables;
    forall k | 0 <= k < |t.rows| ensures t.rows[k].status.Sent? <==> SucceedsIn(START, run, k) {
      SentExactly(START, run, k);
    }
  }
}
