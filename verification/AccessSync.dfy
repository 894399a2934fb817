/**
 Access record collection: one task at a time per source, a cursor that the published windows
 advance, and bounded paging (net/access/tasks.py:34-64, net/access/executor.py:30-63,
 net/access/adapters.py:123-156). Instants are microseconds.
 */
module AccessSync {
  import opened Outcomes

  const SECOND := 1_000_000
  const MAX_SYNC_WINDOW := 7 * 24 * 3600 * SECOND
  const MAX_PAGES := 100
  const PAGE_SIZE := 1000
  const MAX_EVENTS := 10000

  datatype Event = Event(id: string, at: int, person: string)

  // ---------------------------------------------------------------------------------------
  // Fetching
  // ---------------------------------------------------------------------------------------

  /** The platform's answer to one page request; an item that is no valid event is None. */
  datatype Reply = Refused | Page(items: seq<Option<Event>>)

  /** What happens at page `k`: the answer, and whether the task was cancelled before asking. */
  datatype Turn = Turn(cancelled: bool, reply: Reply)

  datatype FetchError = WasCancelled | PlatformError | LimitExceeded | TooManyPages

  function ValidItems(items: seq<Option<Event>>): (events: Option<seq<Event>>)
    ensures events.Some? <==> forall i :: 0 <= i < |items| ==> items[i].Some?
    ensures events.Some? ==> |events.value| == |items| && forall i :: 0 <= i < |items| ==>
              items[i] == Some(events.value[i])
  {
    if items == [] then Some([])
    else
      var rest := ValidItems(items[1..]);
      if items[0].None? || rest.None? then None else Some([items[0].value] + rest.value)
  }

  /** The page loop. `requests` counts the HTTP requests made. */
  method FetchEvents(turns: seq<Turn>) returns (result: Result<seq<Event>, FetchError>, requests: nat)
    requires |turns| == MAX_PAGES
    ensures requests <= 11
    ensures result.Ok? ==> IsComplete(turns, requests, result.value)
    ensures result.Ok? ==> |result.value| <= 10000
    ensures result.Ok? ==> (requests - 1) * 1000 <= |result.value| < requests * 1000
    ensures result.Err? ==> !exists n: nat, events :: IsComplete(turns, n, events) && |events| <= MAX_EVENTS
  {
    var events: seq<Event> := [];
    requests := 0;
    for k := 0 to MAX_PAGES
      invariant requests == k && FullPages(turns, k, events) && |events| == k * PAGE_SIZE <= MAX_EVENTS
    {
      if turns[k].cancelled {
        NothingBeyond(turns, k, events);
        return Err(WasCancelled), requests;
      }
      requests := requests + 1;
      if turns[k].reply.Refused? {
        NothingBeyond(turns, k, events);
        return Err(PlatformError), requests;
      }
      var page := turns[k].reply.items;
      if |page| > PAGE_SIZE || |events| + |page| > MAX_EVENTS {
        NothingBeyond(turns, k, events);
        return Err(LimitExceeded), requests;
      }
      var parsed := ValidItems(page);
      if parsed.None? {
        NothingBeyond(turns, k, events);
        return Err(PlatformError), requests;
      }
      events := events + parsed.value;
      if |page| < PAGE_SIZE {
        return Ok(events), requests;
      }
    }
    result := Err(TooManyPages);
  }

  /** The first `n` turns all answered with full pages of valid events, which together are `events`. */
  ghost predicate FullPages(turns: seq<Turn>, n: nat, events: seq<Event>)
    decreases n
  {
    n <= |turns| &&
    if n == 0 then events == []
    else
      && AnswersValidly(turns[n - 1]) && |turns[n - 1].reply.items| == PAGE_SIZE <= |events|
      && FullPages(turns, n - 1, events[..|events| - PAGE_SIZE])
      && Some(events[|events| - PAGE_SIZE..]) == ValidItems(turns[n - 1].reply.items)
  }

  ghost predicate AnswersValidly(t: Turn) {
    !t.cancelled && t.reply.Page? && ValidItems(t.reply.items).Some?
  }

  /** `events` are all pages up to and including the first short one, which is page `n`. */
  ghost predicate IsComplete(turns: seq<Turn>, n: nat, events: seq<Event>) {
    && 0 < n <= |turns| && AnswersValidly(turns[n - 1])
    && var last := turns[n - 1].reply.items;
       && |last| < PAGE_SIZE && |last| <= |events|
       && FullPages(turns, n - 1, events[..|events| - |last|])
       && Some(events[|events| - |last|..]) == ValidItems(last)
  }

  lemma {:induction false} FullPagesSize(turns: seq<Turn>, n: nat, events: seq<Event>)
    requires FullPages(turns, n, events)
    ensures |events| == n * PAGE_SIZE
    decreases n
  {
    if n > 0 {
      FullPagesSize(turns, n - 1, events[..|events| - PAGE_SIZE]);
    }
  }

  /** A page that refuses, is cancelled, is invalid or overflows leaves no complete answer at all. */
  lemma NothingBeyond(turns: seq<Turn>, k: nat, events: seq<Event>)
    requires k < |turns| && FullPages(turns, k, events)
    requires AnswersValidly(turns[k]) ==>
               |turns[k].reply.items| > PAGE_SIZE || |events| + |turns[k].reply.items| > MAX_EVENTS
    ensures !exists n: nat, all :: IsComplete(turns, n, all) && |all| <= MAX_EVENTS
  {
    forall n: nat, all | IsComplete(turns, n, all) ensures |all| > MAX_EVENTS {
      var front := all[..|all| - |turns[n - 1].reply.items|];
      if n - 1 < k {
        PageIsFull(turns, k, events, n - 1);
      } else {
        FullPagesSize(turns, n - 1, front);
        FullPagesSize(turns, k, events);
        if n - 1 > k {
          PageIsFull(turns, n - 1, front, k);
        }
      }
    }
  }

  lemma {:induction false} PageIsFull(turns: seq<Turn>, n: nat, events: seq<Event>, k: nat)
    requires FullPages(turns, n, events) && k < n
    ensures AnswersValidly(turns[k]) && |turns[k].reply.items| == PAGE_SIZE
    ensures |events| >= (k + 1) * PAGE_SIZE
    decreases n
  {
    FullPagesSize(turns, n, events);
    if k < n - 1 {
      PageIsFull(turns, n - 1, events[..|events| - PAGE_SIZE], k);
    }
  }

  // ---------------------------------------------------------------------------------------
  // The source, its tasks and its records
  // ---------------------------------------------------------------------------------------

  datatype Window = Window(start: int, end: int)

  /** What a platform is asked for: local times printed to the second. */
  function Requested(w: Window): (seconds: (int, int)) {
    (w.start / SECOND, w.end / SECOND)
  }

  /** The seconds are those the window begins and ends in. */
  lemma RequestedReads(w: Window)
    ensures var (start, end) := Requested(w);
            && start * 1_000_000 <= w.start < (start + 1) * 1_000_000
            && end * 1_000_000 <= w.end < (end + 1) * 1_000_000
  {
  }

  /** One source: at most one active task (a unique key), and the windows published so far. */
  datatype Source = Source(
    cursor: Option<int>, lookback: nat, active: Option<Window>,
    records: map<string, Event>, published: seq<Window>)

  datatype EnqueueError = Busy | BadWindow

  function NextWindow(s: Source, end: int): Window {
    Window(if s.cursor.Some? then s.cursor.value else end - s.lookback, end)
  }

  function Later(a: Option<int>, b: int): int {
    if a.Some? && a.value > b then a.value else b
  }

  /** Rows that conflict with a stored or an earlier event id are ignored. */
  function Stored(records: map<string, Event>, events: seq<Event>): (records': map<string, Event>) {
    if events == [] then records
    else
      var before := Stored(records, events[..|events| - 1]);
      var e := events[|events| - 1];
      if e.id in before then before else before[e.id := e]
  }

  predicate Storable(events: seq<Event>) {
    forall i :: 0 <= i < |events| ==> 0 < |events[i].id| <= 255
  }

  class AccessDesk {
    var source: Source

    constructor (cursor: Option<int>, lookback: nat)
      ensures source == Source(cursor, lookback, None, map[], [])
    {
      source := Source(cursor, lookback, None, map[], []);
    }

    /** Queue a task without an explicit start. */
    method Enqueue(end: int) returns (result: Result<Window, EnqueueError>)
      modifies this
      ensures source == Enqueued(old(source), end)
      ensures result.Ok? <==> source != old(source)
      ensures result.Ok? ==> source.active == Some(result.value)
      ensures var start := if old(source).cursor.Some? then old(source).cursor.value else end - old(source).lookback;
              && (result.Ok? <==> old(source).active.None? && 0 < end - start <= 604_800_000_000)
              && (result.Ok? ==> result.value == Window(start, end))
              && (result == Err(Busy) <==> old(source).active.Some? && 0 < end - start <= 604_800_000_000)
      ensures source.cursor == old(source).cursor && source.records == old(source).records
      ensures source.published == old(source).published
    {
      var start := if source.cursor.Some? then source.cursor.value else end - source.lookback;
      if start >= end || end - start > MAX_SYNC_WINDOW {
        return Err(BadWindow);
      }
      if source.active.Some? {
        return Err(Busy);
      }
      var window := Window(start, end);
      source := source.(active := Some(window));
      return Ok(window);
    }

    /** Publish what was fetched for the active window; `matches` says the source is unchanged since queueing. */
    method Publish(fetched: Result<seq<Event>, FetchError>, matches: bool)
      requires source.active.Some?
      modifies this
      ensures source == Finished(old(source), fetched, matches)
      ensures source.active.None?
      ensures var window := old(source).active.value;
              if matches && fetched.Ok? && forall e :: e in fetched.value ==> 0 < |e.id| <= 255 then
                && source.published == old(source).published + [window]
                && source.cursor == Some(if old(source).cursor.Some? && old(source).cursor.value > window.end
                                         then old(source).cursor.value else window.end)
                && (forall e :: e in fetched.value ==> e.id in source.records)
              else
                source == old(source).(active := None)
    {
      var window := source.active.value;
      if !matches || fetched.Err? || !Storable(fetched.value) {
        source := source.(active := None);
        return;
      }
      var records := source.records;
      for i := 0 to |fetched.value|
        invariant records == Stored(source.records, fetched.value[..i])
      {
        assert fetched.value[..i + 1][..i] == fetched.value[..i];
        if fetched.value[i].id !in records {
          records := records[fetched.value[i].id := fetched.value[i]];
        }
      }
      assert fetched.value[..|fetched.value|] == fetched.value;
      forall e | e in fetched.value ensures e.id in records {
        StoredIsExact(source.records, fetched.value, e.id);
      }
      source := source.(records := records, cursor := Some(Later(source.cursor, window.end)),
                        active := None, published := source.published + [window]);
    }
  }

  ghost function Enqueued(s: Source, end: int): (s': Source) {
    var w := NextWindow(s, end);
    if w.start >= w.end || w.end - w.start > MAX_SYNC_WINDOW || s.active.Some? then s else s.(active := Some(w))
  }

  ghost function Finished(s: Source, fetched: Result<seq<Event>, FetchError>, matches: bool): (s': Source)
    requires s.active.Some?
  {
    if !matches || fetched.Err? || !Storable(fetched.value) then s.(active := None)
    else
      Source(Some(Later(s.cursor, s.active.value.end)), s.lookback, None,
             Stored(s.records, fetched.value), s.published + [s.active.value])
  }

  // ---------------------------------------------------------------------------------------
  // Runs
  // ---------------------------------------------------------------------------------------

  datatype Step =
    | Queue(end: int)
    | Settle(fetched: Result<seq<Event>, FetchError>, matches: bool)
    | Abandon   // cancelled, or out of attempts

  ghost function Next(s: Source, step: Step): (s': Source) {
    match step
    case Queue(end) => Enqueued(s, end)
    case Settle(fetched, matches) => if s.active.Some? then Finished(s, fetched, matches) else s
    case Abandon => s.(active := None)
  }

  ghost function After(s: Source, steps: seq<Step>): (s': Source) {
    if steps == [] then s else Next(After(s, steps[..|steps| - 1]), steps[|steps| - 1])
  }

  /** The events of the windows a run published. */
  ghost function Returned(s: Source, steps: seq<Step>): (events: seq<Event>) {
    if steps == [] then []
    else
      var before := After(s, steps[..|steps| - 1]);
      var step := steps[|steps| - 1];
      Returned(s, steps[..|steps| - 1]) +
      if step.Settle? && before.active.Some? && step.matches && step.fetched.Ok? && Storable(step.fetched.value)
      then step.fetched.value else []
  }

  /** Published windows join end to start, up to the cursor; an active window continues them. */
  ghost predicate Joined(s: Source) {
    && (forall k :: 0 <= k < |s.published| ==> s.published[k].start < s.published[k].end)
    && (forall k :: 0 <= k < |s.published| - 1 ==> s.published[k].end == s.published[k + 1].start)
    && (s.published != [] ==> s.cursor == Some(s.published[|s.published| - 1].end))
    && (s.active.Some? ==> s.active.value.start < s.active.value.end
                           && (s.cursor.Some? ==> s.active.value.start == s.cursor.value))
  }

  lemma StepKeepsJoined(s: Source, step: Step)
    requires Joined(s)
    ensures Joined(Next(s, step))
    ensures s.cursor.Some? ==> Next(s, step).cursor.Some? && s.cursor.value <= Next(s, step).cursor.value
  {
  }

  /** Without explicit starts the published windows leave no gap, and the cursor never moves back. */
  lemma {:induction false} WindowsJoin(s: Source, steps: seq<Step>)
    requires s.published == [] && s.active.None?
    ensures Joined(After(s, steps))
    ensures s.cursor.Some? ==> After(s, steps).cursor.Some? && s.cursor.value <= After(s, steps).cursor.value
  {
    if steps != [] {
      WindowsJoin(s, steps[..|steps| - 1]);
      StepKeepsJoined(After(s, steps[..|steps| - 1]), steps[|steps| - 1]);
    }
  }

  /** From any point of a run on, the cursor only moves forward. */
  lemma {:induction false} CursorOnlyAdvances(s: Source, steps: seq<Step>, k: nat)
    requires k <= |steps| && After(s, steps[..k]).cursor.Some?
    ensures After(s, steps).cursor.Some? && After(s, steps[..k]).cursor.value <= After(s, steps).cursor.value
  {
    if k < |steps| {
      assert steps[..|steps| - 1][..k] == steps[..k];
      CursorOnlyAdvances(s, steps[..|steps| - 1], k);
    } else {
      assert steps[..k] == steps;
    }
  }

  /**
   Every instant from the first published start to the cursor lies in a published window, and in what was
   requested for it.
   */
  lemma {:induction false} EveryInstantIsCovered(published: seq<Window>, t: int)
    requires published != []
    requires forall k :: 0 <= k < |published| ==> published[k].start < published[k].end
    requires forall k :: 0 <= k < |published| - 1 ==> published[k].end == published[k + 1].start
    requires published[0].start <= t < published[|published| - 1].end
    ensures exists k :: 0 <= k < |published| && published[k].start <= t < published[k].end
                        && Requested(published[k]).0 <= t / SECOND <= Requested(published[k]).1
  {
    var last := |published| - 1;
    if published[last].start <= t {
      assert Requested(published[last]).0 <= t / SECOND <= Requested(published[last]).1;
    } else {
      EveryInstantIsCovered(published[..last], t);
      var k :| 0 <= k < last && published[..last][k].start <= t < published[..last][k].end
               && Requested(published[..last][k]).0 <= t / SECOND <= Requested(published[..last][k]).1;
      assert published[k] == published[..last][k];
    }
  }

  ghost predicate Mentions(events: seq<Event>, id: string) {
    exists i :: 0 <= i < |events| && events[i].id == id
  }

  lemma MentionsFront(events: seq<Event>, id: string)
    requires events != []
    ensures Mentions(events, id) <==> Mentions(events[..|events| - 1], id) || events[|events| - 1].id == id
  {
    var last := |events| - 1;
    if i :| 0 <= i < |events| && events[i].id == id {
      if i < last { assert events[..last][i].id == id; }
    }
    if i :| 0 <= i < last && events[..last][i].id == id {
      assert events[i].id == id;
    }
  }

  lemma {:induction false} StoredIsExact(records: map<string, Event>, events: seq<Event>, id: string)
    ensures id in Stored(records, events) <==> id in records || Mentions(events, id)
    ensures id in records ==> id in Stored(records, events) && Stored(records, events)[id] == records[id]
  {
    if events != [] {
      StoredIsExact(records, events[..|events| - 1], id);
      MentionsFront(events, id);
    }
  }

  /** Of several events with one id the first is stored, unless the id was known before. */
  lemma {:induction false} FirstEventIsStored(records: map<string, Event>, events: seq<Event>, i: nat)
    requires i < |events| && events[i].id !in records && !Mentions(events[..i], events[i].id)
    ensures events[i].id in Stored(records, events) && Stored(records, events)[events[i].id] == events[i]
  {
    var last := |events| - 1;
    if i < last {
      assert events[..last][..i] == events[..i];
      FirstEventIsStored(records, events[..last], i);
    } else {
      StoredIsExact(records, events[..last], events[i].id);
    }
  }

  lemma {:induction false} StoredInStages(records: map<string, Event>, a: seq<Event>, b: seq<Event>)
    ensures Stored(Stored(records, a), b) == Stored(records, a + b)
  {
    if b == [] {
      assert a + b == a;
    } else {
      StoredInStages(records, a, b[..|b| - 1]);
      assert (a + b)[..|a + b| - 1] == a + b[..|b| - 1];
    }
  }

  lemma {:induction false} RecordsAreReturned(s: Source, steps: seq<Step>)
    ensures After(s, steps).records == Stored(s.records, Returned(s, steps))
  {
    if steps != [] {
      var last := |steps| - 1;
      RecordsAreReturned(s, steps[..last]);
      var before, step := After(s, steps[..last]), steps[last];
      if step.Settle? && before.active.Some? && step.matches && step.fetched.Ok? && Storable(step.fetched.value) {
        StoredInStages(s.records, Returned(s, steps[..last]), step.fetched.value);
      } else {
        assert Returned(s, steps) == Returned(s, steps[..last]);
      }
    }
  }

  /** Every event returned for a published window is stored, once per event id, and nothing else is. */
  lemma ReturnedEventsAreStoredOnce(s: Source, steps: seq<Step>)
    ensures After(s, steps).records == Stored(s.records, Returned(s, steps))
    ensures forall id :: id in After(s, steps).records <==>
              id in s.records || Mentions(Returned(s, steps), id)
  {
    RecordsAreReturned(s, steps);
    forall id ensures id in After(s, steps).records <==>
        id in s.records || Mentions(Returned(s, steps), id)
    {
      StoredIsExact(s.records, Returned(s, steps), id);
    }
  }
}
