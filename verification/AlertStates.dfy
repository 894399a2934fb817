/**
 Findings and the alert state kept for every key (net/alerts/service.py:43-78, 139-236).

 A result's findings are grouped per key, then every known observation moves that key's state.
 `AlertStore.ProcessTargetFindings` updates the tables in place and is proved equal to a
 per-key step; what a whole history of results leaves behind is proved about that step.
 */
module AlertStates {
  import opened Outcomes

  // ---------------------------------------------------------------------------------------
  // Findings
  // ---------------------------------------------------------------------------------------

  datatype Observed = Abnormal | Normal | Unknown

  /** A value handed in by a result: its texts as they come. */
  datatype RawFinding =
    | NotAFinding
    | RawFinding(key: string, severity: string, title: string, detail: string, state: string)

  datatype Finding = Finding(key: string, severity: string, title: string, detail: string, state: Observed)

  predicate IsSpace(c: char) {
    c == ' ' || c == '\t' || c == '\n' || c == '\r'
  }

  function Strip(s: string): (t: string)
    ensures t != "" ==> !IsSpace(t[0]) && !IsSpace(t[|t| - 1])
    ensures |t| <= |s|
  {
    if s != "" && IsSpace(s[0]) then Strip(s[1..])
    else if s != "" && IsSpace(s[|s| - 1]) then Strip(s[..|s| - 1])
    else s
  }

  /** Only blanks are taken away, and only at the ends. */
  lemma {:induction false} StripReads(s: string)
    ensures exists i, j :: IsStripped(s, i, j)
  {
    if s != "" && IsSpace(s[0]) {
      StripReads(s[1..]);
      var i, j :| IsStripped(s[1..], i, j);
      assert s[1..][i..j] == s[i + 1..j + 1];
      assert IsStripped(s, i + 1, j + 1);
    } else if s != "" && IsSpace(s[|s| - 1]) {
      StripReads(s[..|s| - 1]);
      var i, j :| IsStripped(s[..|s| - 1], i, j);
      assert s[..|s| - 1][i..j] == s[i..j];
      assert IsStripped(s, i, j);
    } else {
      assert IsStripped(s, 0, |s|);
    }
  }

  ghost predicate IsStripped(s: string, i: int, j: int) {
    && 0 <= i <= j <= |s| && Strip(s) == s[i..j]
    && (forall k :: 0 <= k < i ==> IsSpace(s[k])) && (forall k :: j <= k < |s| ==> IsSpace(s[k]))
  }

  function Cut(s: string, limit: nat): string {
    if |s| <= limit then s else s[..limit]
  }

  function Lower(s: string): (t: string)
    ensures |t| == |s|
  {
    seq(|s|, i requires 0 <= i < |s| => if 'A' <= s[i] <= 'Z' then (s[i] as int + 32) as char else s[i])
  }

  /** A missing state means abnormal; a blank one is no state at all. */
  function ParseState(state: string): Option<Observed> {
    if state == "" || Lower(Strip(state)) == "abnormal" then Some(Abnormal)
    else if Lower(Strip(state)) == "normal" then Some(Normal)
    else if Lower(Strip(state)) == "unknown" then Some(Unknown)
    else None
  }

  lemma PlainStates()
    ensures ParseState("abnormal") == Some(Abnormal)
    ensures ParseState("normal") == Some(Normal)
    ensures ParseState("unknown") == Some(Unknown)
  {
    assert Lower("abnormal") == "abnormal" && Lower("normal") == "normal" && Lower("unknown") == "unknown";
  }

  function FindingDict(raw: RawFinding): (finding: Option<Finding>) {
    match raw
    case NotAFinding => None
    case RawFinding(key, severity, title, detail, state) =>
      if Strip(key) == "" || Strip(severity) == "" || Strip(title) == "" || ParseState(state).None? then None
      else Some(Finding(Cut(Strip(key), 191), Cut(Strip(severity), 16), Cut(Strip(title), 500),
                        Cut(Strip(detail), 2000), ParseState(state).value))
  }

  /** A finding needs a key, a severity, a title and a state that is one of three words or missing altogether. */
  lemma FindingReads(raw: RawFinding)
    ensures FindingDict(raw).Some? <==>
            && raw.RawFinding? && Strip(raw.key) != "" && Strip(raw.severity) != "" && Strip(raw.title) != ""
            && (raw.state == "" || Lower(Strip(raw.state)) in {"abnormal", "normal", "unknown"})
    ensures FindingDict(raw).Some? ==>
              var f := FindingDict(raw).value;
              && (f.state.Normal? <==> Lower(Strip(raw.state)) == "normal")
              && (f.state.Unknown? <==> Lower(Strip(raw.state)) == "unknown")
              && f.key <= Strip(raw.key) && |f.key| <= 191 && f.severity <= Strip(raw.severity) && |f.severity| <= 16
              && f.title <= Strip(raw.title) && |f.title| <= 500 && f.detail <= Strip(raw.detail) && |f.detail| <= 2000
              && (|Strip(raw.key)| <= 191 ==> f.key == Strip(raw.key))
  {
    if raw.RawFinding? && raw.state == "" {
      assert Lower(Strip(raw.state)) == "";
    }
  }

  function SeverityRank(severity: string): nat {
    if severity == "critical" then 2 else if severity == "warning" then 1 else 0
  }

  /** Does `finding` displace the one already grouped under its key? */
  predicate Displaces(finding: Finding, current: Finding) {
    || (!current.state.Abnormal? && finding.state.Abnormal?)
    || (current.state == finding.state && SeverityRank(finding.severity) > SeverityRank(current.severity))
  }

  ghost function Grouped(findings: seq<RawFinding>): (grouped: map<string, Finding>) {
    if findings == [] then map[]
    else
      var grouped := Grouped(findings[..|findings| - 1]);
      match FindingDict(findings[|findings| - 1])
      case None => grouped
      case Some(f) => if f.key !in grouped || Displaces(f, grouped[f.key]) then grouped[f.key := f] else grouped
  }

  /** Some valid finding of the list is about `key`. */
  ghost predicate Mentions(findings: seq<RawFinding>, key: string, f: Finding) {
    exists i :: 0 <= i < |findings| && FindingDict(findings[i]) == Some(f) && f.key == key
  }

  lemma MentionsFront(findings: seq<RawFinding>, key: string, f: Finding)
    requires findings != []
    ensures Mentions(findings, key, f) <==>
            Mentions(findings[..|findings| - 1], key, f)
            || (FindingDict(findings[|findings| - 1]) == Some(f) && f.key == key)
  {
    if Mentions(findings, key, f) {
      MentionsEarlier(findings, key, f);
    }
    if Mentions(findings[..|findings| - 1], key, f) {
      MentionsMore(findings, key, f);
    }
  }

  lemma MentionsEarlier(findings: seq<RawFinding>, key: string, f: Finding)
    requires findings != [] && Mentions(findings, key, f)
    ensures Mentions(findings[..|findings| - 1], key, f)
            || (FindingDict(findings[|findings| - 1]) == Some(f) && f.key == key)
  {
    var last := |findings| - 1;
    var i :| 0 <= i < |findings| && FindingDict(findings[i]) == Some(f) && f.key == key;
    if i < last {
      assert findings[..last][i] == findings[i];
    }
  }

  lemma MentionsMore(findings: seq<RawFinding>, key: string, f: Finding)
    requires findings != [] && Mentions(findings[..|findings| - 1], key, f)
    ensures Mentions(findings, key, f)
  {
    var last := |findings| - 1;
    var i :| 0 <= i < last && FindingDict(findings[..last][i]) == Some(f) && f.key == key;
    assert findings[..last][i] == findings[i];
  }

  /** `g` is the outcome for its key: abnormal if possible, and of the highest severity in its state. */
  ghost predicate Strongest(findings: seq<RawFinding>, key: string, g: Finding) {
    && Mentions(findings, key, g)
    && (g.state.Abnormal? <==> exists f :: Mentions(findings, key, f) && f.state.Abnormal?)
    && (forall f :: Mentions(findings, key, f) && f.state == g.state ==>
          SeverityRank(f.severity) <= SeverityRank(g.severity))
  }

  /**
   A key is abnormal exactly when some valid finding for it is abnormal, and then it carries the
   highest severity among the abnormal ones: ambiguous data can never produce a recovery.
   */
  lemma {:induction false} AbnormalEvidenceWins(findings: seq<RawFinding>, key: string)
    ensures key in Grouped(findings) <==> exists f :: Mentions(findings, key, f)
    ensures key in Grouped(findings) ==> Strongest(findings, key, Grouped(findings)[key])
  {
    if findings != [] {
      var front, last := findings[..|findings| - 1], FindingDict(findings[|findings| - 1]);
      AbnormalEvidenceWins(front, key);
      forall f ensures Mentions(findings, key, f) <==> Mentions(front, key, f) || (last == Some(f) && f.key == key) {
        MentionsFront(findings, key, f);
      }
      if key in Grouped(front) {
        StrongestStep(findings, front, key, Grouped(front)[key], last);
      } else if last.Some? && last.value.key == key {
        assert Mentions(findings, key, last.value);
      }
    }
  }

  /** In words: among the findings in the state that won, critical goes before warning, and warning before the rest. */
  lemma HighestSeverityIsKept(findings: seq<RawFinding>, key: string, f: Finding)
    requires Mentions(findings, key, f) && key in Grouped(findings) && f.state == Grouped(findings)[key].state
    ensures f.severity == "critical" ==> Grouped(findings)[key].severity == "critical"
    ensures f.severity == "warning" ==> Grouped(findings)[key].severity in {"critical", "warning"}
  {
    AbnormalEvidenceWins(findings, key);
  }

  lemma StrongestStep(findings: seq<RawFinding>, front: seq<RawFinding>, key: string, g: Finding, last: Option<Finding>)
    requires Strongest(front, key, g)
    requires forall f :: Mentions(findings, key, f) <==> Mentions(front, key, f) || (last == Some(f) && f.key == key)
    ensures if last.Some? && last.value.key == key && Displaces(last.value, g) then Strongest(findings, key, last.value)
            else Strongest(findings, key, g)
  {
    if last.Some? && last.value.key == key {
      assert Mentions(findings, key, last.value);
    }
    assert Mentions(findings, key, g);
  }

  ghost predicate IsAbout(raw: RawFinding, key: string) {
    FindingDict(raw).Some? && FindingDict(raw).value.key == key
  }

  /** Finding `i` is the first valid one of its key. */
  ghost predicate FirstOfKey(findings: seq<RawFinding>, i: nat, f: Finding) {
    i < |findings| && FindingDict(findings[i]) == Some(f) && forall k :: 0 <= k < i ==> !IsAbout(findings[k], f.key)
  }

  lemma {:induction false} NotGrouped(findings: seq<RawFinding>, key: string)
    requires forall k :: 0 <= k < |findings| ==> !IsAbout(findings[k], key)
    ensures key !in Grouped(findings)
  {
    if findings != [] {
      assert !IsAbout(findings[|findings| - 1], key);
      NotGrouped(findings[..|findings| - 1], key);
    }
  }

  lemma GroupedStateStep(findings: seq<RawFinding>, key: string)
    requires findings != [] && key in Grouped(findings[..|findings| - 1])
    ensures key in Grouped(findings)
    ensures Grouped(findings)[key].state.Abnormal?
            || Grouped(findings)[key].state == Grouped(findings[..|findings| - 1])[key].state
  {
  }

  lemma {:induction false} FirstStateStands(findings: seq<RawFinding>, i: nat, f: Finding)
    requires FirstOfKey(findings, i, f)
    ensures f.key in Grouped(findings)
    ensures Grouped(findings)[f.key].state.Abnormal? || Grouped(findings)[f.key].state == f.state
  {
    var last := |findings| - 1;
    if i < last {
      FirstStateStands(findings[..last], i, f);
      GroupedStateStep(findings, f.key);
    } else {
      NotGrouped(findings[..last], f.key);
    }
  }

  /**
   The exact grouped state: abnormal if any valid finding for the key is, and otherwise the state of
   the first valid one. A normal duplicate therefore counts only when it comes first.
   */
  lemma GroupedStateIsExact(findings: seq<RawFinding>, i: nat, f: Finding)
    requires FirstOfKey(findings, i, f)
    ensures f.key in Grouped(findings)
    ensures Grouped(findings)[f.key].state ==
            if exists g :: Mentions(findings, f.key, g) && g.state.Abnormal? then Abnormal else f.state
  {
    FirstStateStands(findings, i, f);
    AbnormalEvidenceWins(findings, f.key);
  }

  ghost predicate DistinctKeys(fs: seq<Finding>) {
    forall i, j :: 0 <= i < j < |fs| ==> fs[i].key != fs[j].key
  }

  /** The order of texts: by the first character that differs, and a prefix comes first. */
  predicate TextLess(a: string, b: string) {
    b != "" && (a == "" || a[0] < b[0] || (a[0] == b[0] && TextLess(a[1..], b[1..])))
  }

  ghost predicate DifferAt(a: string, b: string, k: int) {
    0 <= k < |a| && k < |b| && a[..k] == b[..k] && a[k] < b[k]
  }

  lemma {:induction false} TextLessReads(a: string, b: string)
    ensures TextLess(a, b) <==> (a <= b && a != b) || exists k :: DifferAt(a, b, k)
  {
    if a != "" && b != "" {
      if a[0] == b[0] {
        TextLessReads(a[1..], b[1..]);
        PrefixTail(a, b);
        if k :| DifferAt(a[1..], b[1..], k) {
          assert a[..k + 1] == [a[0]] + a[1..][..k] && b[..k + 1] == [b[0]] + b[1..][..k];
          assert DifferAt(a, b, k + 1);
        }
        if k :| DifferAt(a, b, k) {
          assert a[1..][..k - 1] == a[..k][1..] && b[1..][..k - 1] == b[..k][1..];
          assert DifferAt(a[1..], b[1..], k - 1);
        }
      } else {
        if k :| DifferAt(a, b, k) {
          assert k == 0 by {
            if k > 0 { SameStart(a, b, k); }
          }
        }
        if a[0] < b[0] {
          assert DifferAt(a, b, 0);
        }
      }
    }
  }

  lemma SameStart(a: string, b: string, k: int)
    requires DifferAt(a, b, k) && k > 0
    ensures a[0] == b[0]
  {
    assert a[..k][0] == b[..k][0];
  }

  lemma PrefixTail(a: string, b: string)
    requires a != "" && b != "" && a[0] == b[0]
    ensures (a <= b && a != b) <==> (a[1..] <= b[1..] && a[1..] != b[1..])
  {
    assert a == [a[0]] + a[1..] && b == [b[0]] + b[1..];
  }

  lemma {:induction false} TextLessIsTotal(a: string, b: string)
    ensures TextLess(a, b) || TextLess(b, a) <==> a != b
    ensures !(TextLess(a, b) && TextLess(b, a))
  {
    if a != "" && b != "" {
      TextLessIsTotal(a[1..], b[1..]);
      assert a == [a[0]] + a[1..] && b == [b[0]] + b[1..];
    }
  }

  lemma {:induction false} TextLessIsTransitive(a: string, b: string, c: string)
    requires TextLess(a, b) && TextLess(b, c)
    ensures TextLess(a, c)
  {
    if a != "" && a[0] == b[0] == c[0] {
      TextLessIsTransitive(a[1..], b[1..], c[1..]);
    }
  }

  ghost predicate Ascending(keys: seq<string>) {
    forall i, j :: 0 <= i < j < |keys| ==> TextLess(keys[i], keys[j])
  }

  function InsertKey(key: string, keys: seq<string>): (keys': seq<string>)
    ensures forall k :: k in keys' <==> k == key || k in keys
  {
    if keys == [] || TextLess(key, keys[0]) then [key] + keys else [keys[0]] + InsertKey(key, keys[1..])
  }

  function SortKeys(keys: seq<string>): (sorted: seq<string>)
    ensures forall k :: k in sorted <==> k in keys
  {
    if keys == [] then [] else InsertKey(keys[0], SortKeys(keys[1..]))
  }

  lemma {:induction false} InsertKeepsAscending(key: string, keys: seq<string>)
    requires Ascending(keys) && key !in keys
    ensures Ascending(InsertKey(key, keys))
  {
    if keys != [] {
      TextLessIsTotal(key, keys[0]);
      if TextLess(key, keys[0]) {
        forall j | 1 <= j < |keys| ensures TextLess(key, keys[j]) {
          TextLessIsTransitive(key, keys[0], keys[j]);
        }
      } else {
        InsertKeepsAscending(key, keys[1..]);
        var rest := InsertKey(key, keys[1..]);
        forall j | 0 <= j < |rest| ensures TextLess(keys[0], rest[j]) {
          assert rest[j] in rest;
        }
      }
    }
  }

  lemma {:induction false} SortedAscends(keys: seq<string>)
    requires forall i, j :: 0 <= i < j < |keys| ==> keys[i] != keys[j]
    ensures Ascending(SortKeys(keys))
  {
    if keys != [] {
      SortedAscends(keys[1..]);
      InsertKeepsAscending(keys[0], SortKeys(keys[1..]));
    }
  }

  /** The keys of the valid findings, in the order they were first met. */
  ghost function KeysMet(findings: seq<RawFinding>): (keys: seq<string>)
    ensures forall key :: key in keys <==> key in Grouped(findings)
    ensures forall i, j :: 0 <= i < j < |keys| ==> keys[i] != keys[j]
  {
    if findings == [] then []
    else
      var keys := KeysMet(findings[..|findings| - 1]);
      match FindingDict(findings[|findings| - 1])
      case None => keys
      case Some(f) => if f.key in keys then keys else keys + [f.key]
  }

  /** One finding per key, by ascending key. */
  ghost function Normalised(findings: seq<RawFinding>): (fs: seq<Finding>) {
    var keys := SortKeys(KeysMet(findings));
    seq(|keys|, i requires 0 <= i < |keys| => assert keys[i] in keys; Grouped(findings)[keys[i]])
  }

  lemma {:induction false} GroupedUnderItsKey(findings: seq<RawFinding>, key: string)
    requires key in Grouped(findings)
    ensures Grouped(findings)[key].key == key
  {
    AbnormalEvidenceWins(findings, key);
  }

  lemma NormalisedAt(findings: seq<RawFinding>, i: nat)
    requires i < |SortKeys(KeysMet(findings))|
    ensures var key := SortKeys(KeysMet(findings))[i];
            && key in Grouped(findings) && Normalised(findings)[i] == Grouped(findings)[key]
            && Normalised(findings)[i].key == key
  {
    assert SortKeys(KeysMet(findings))[i] in SortKeys(KeysMet(findings));
    GroupedUnderItsKey(findings, SortKeys(KeysMet(findings))[i]);
  }

  /** The normalised list goes by strictly ascending key. */
  lemma NormalisedAscends(findings: seq<RawFinding>)
    ensures DistinctKeys(Normalised(findings))
    ensures forall i, j :: 0 <= i < j < |Normalised(findings)| ==>
              TextLess(Normalised(findings)[i].key, Normalised(findings)[j].key)
  {
    SortedAscends(KeysMet(findings));
    var fs := Normalised(findings);
    forall i, j | 0 <= i < j < |fs| ensures TextLess(fs[i].key, fs[j].key) && fs[i].key != fs[j].key {
      NormalisedAt(findings, i);
      NormalisedAt(findings, j);
      TextLessIsTotal(fs[i].key, fs[j].key);
    }
  }

  /** It holds exactly the strongest finding of every key that is mentioned. */
  lemma NormalisedIsExact(findings: seq<RawFinding>, f: Finding)
    ensures f in Normalised(findings) <==> f.key in Grouped(findings) && f == Grouped(findings)[f.key]
    ensures f in Normalised(findings) ==> Strongest(findings, f.key, f)
  {
    var keys, fs := SortKeys(KeysMet(findings)), Normalised(findings);
    if f in fs {
      var i :| 0 <= i < |fs| && fs[i] == f;
      NormalisedAt(findings, i);
      AbnormalEvidenceWins(findings, f.key);
    }
    if f.key in Grouped(findings) && f == Grouped(findings)[f.key] {
      assert f.key in keys;
      var i :| 0 <= i < |keys| && keys[i] == f.key;
      NormalisedAt(findings, i);
    }
  }

  lemma GroupOneMore(findings: seq<RawFinding>, i: nat, parsed: Option<Finding>)
    requires i < |findings| && parsed == FindingDict(findings[i])
    ensures KeysMet(findings[..i + 1]) ==
            if parsed.None? || parsed.value.key in KeysMet(findings[..i]) then KeysMet(findings[..i])
            else KeysMet(findings[..i]) + [parsed.value.key]
    ensures var before := Grouped(findings[..i]);
            Grouped(findings[..i + 1]) ==
            if parsed.Some? && (parsed.value.key !in before || Displaces(parsed.value, before[parsed.value.key]))
            then before[parsed.value.key := parsed.value] else before
  {
    assert findings[..i + 1][..i] == findings[..i];
  }

  method GroupFindings(findings: seq<RawFinding>) returns (keys: seq<string>, grouped: map<string, Finding>)
    ensures keys == KeysMet(findings) && grouped == Grouped(findings)
  {
    keys, grouped := [], map[];
    for i := 0 to |findings|
      invariant grouped == Grouped(findings[..i]) && keys == KeysMet(findings[..i])
    {
      var parsed := FindingDict(findings[i]);
      GroupOneMore(findings, i, parsed);
      if parsed.Some? {
        var f := parsed.value;
        if f.key !in grouped {
          keys := keys + [f.key];
          grouped := grouped[f.key := f];
        } else if Displaces(f, grouped[f.key]) {
          grouped := grouped[f.key := f];
        }
      }
    }
    assert findings[..|findings|] == findings;
  }

  method NormalisedFindings(findings: seq<RawFinding>) returns (fs: seq<Finding>)
    ensures fs == Normalised(findings)
  {
    var keys, grouped := GroupFindings(findings);
    keys := SortKeys(keys);
    assert forall i :: 0 <= i < |keys| ==> keys[i] in keys;
    fs := seq(|keys|, i requires 0 <= i < |keys| => grouped[keys[i]]);
  }

  // ---------------------------------------------------------------------------------------
  // The state of one key
  // ---------------------------------------------------------------------------------------

  type Scope = nat
  type Key = (Scope, string)
  type States = map<Key, AlertState>

  datatype AlertState = AlertState(
    abnormal: bool, lastSeen: Option<int>, lastAbnormal: Option<int>, lastNormal: Option<int>,
    snapshot: Option<Finding>)

  const FRESH_STATE := AlertState(false, None, None, None, None)

  /** What processing one finding records for its key. */
  datatype Effect = Ignored | RecordedAbnormal | RecordedNormal | Recovered

  predicate Stale(state: Option<AlertState>, at: int) {
    state.Some? && state.value.lastSeen.Some? && at <= state.value.lastSeen.value
  }

  function EffectOf(state: Option<AlertState>, f: Finding, at: int): Effect {
    if f.state.Unknown? || Stale(state, at) then Ignored
    else if f.state.Abnormal? then RecordedAbnormal
    else if state.Some? && state.value.abnormal then Recovered
    else RecordedNormal
  }

  function Observe(state: Option<AlertState>, f: Finding, at: int): (state': Option<AlertState>) {
    if EffectOf(state, f, at).Ignored? then state
    else
      var s := if state.Some? then state.value else FRESH_STATE;
      var seen := s.(lastSeen := Some(at), snapshot := Some(f));
      if f.state.Abnormal? then Some(seen.(abnormal := true, lastAbnormal := Some(at)))
      else Some(seen.(abnormal := false, lastNormal := Some(at)))
  }

  function Lookup(states: States, key: Key): Option<AlertState> {
    if key in states then Some(states[key]) else None
  }

  // ---------------------------------------------------------------------------------------
  // One result
  // ---------------------------------------------------------------------------------------

  datatype EventType = AbnormalEvent | RecoveryEvent

  /** A station-local event; `keys` names the states it is attached to. */
  datatype AlertEvent = AlertEvent(findings: seq<Finding>, keys: set<Key>, at: int)

  datatype Alerts = Alerts(states: States, events: map<(nat, EventType), AlertEvent>)

  /** The states after one finding. */
  ghost function ApplyOne(states: States, scope: Scope, f: Finding, at: int): (states': States) {
    match Observe(Lookup(states, (scope, f.key)), f, at)
    case None => states
    case Some(s) => states[(scope, f.key) := s]
  }

  /** The states after a result's findings, one key after the other. */
  ghost function Applied(states: States, scope: Scope, fs: seq<Finding>, at: int): (states': States) {
    if fs == [] then states
    else ApplyOne(Applied(states, scope, fs[..|fs| - 1], at), scope, fs[|fs| - 1], at)
  }

  /** The findings whose processing had the given effect. */
  ghost function WithEffect(states: States, scope: Scope, fs: seq<Finding>, at: int, effect: Effect)
    : (picked: seq<Finding>)
  {
    if fs == [] then []
    else
      var last := |fs| - 1;
      WithEffect(states, scope, fs[..last], at, effect)
      + if EffectOf(Lookup(Applied(states, scope, fs[..last], at), (scope, fs[last].key)), fs[last], at) == effect
        then [fs[last]] else []
  }

  ghost function KeysOf(scope: Scope, fs: seq<Finding>): (keys: set<Key>) {
    set i | 0 <= i < |fs| :: (scope, fs[i].key)
  }

  /** `get_or_create` on (target, event type): an existing event is left as it is. */
  ghost function Recorded(events: map<(nat, EventType), AlertEvent>, target: nat, kind: EventType,
                          scope: Scope, fs: seq<Finding>, at: int): (events': map<(nat, EventType), AlertEvent>) {
    if fs == [] || (target, kind) in events then events
    else events[(target, kind) := AlertEvent(fs, KeysOf(scope, fs), at)]
  }

  ghost function Processed(a: Alerts, target: nat, scope: Scope, fs: seq<Finding>, at: int): (a': Alerts) {
    Alerts(
      Applied(a.states, scope, fs, at),
      Recorded(
        Recorded(a.events, target, AbnormalEvent, scope, WithEffect(a.states, scope, fs, at, RecordedAbnormal), at),
        target, RecoveryEvent, scope, WithEffect(a.states, scope, fs, at, Recovered), at))
  }

  /** What has been written when the transaction breaks off: some of the states, and then the events. */
  ghost function PartlyProcessed(a: Alerts, target: nat, scope: Scope, fs: seq<Finding>, at: int, writes: nat)
    : (a': Alerts)
  {
    var states := Applied(a.states, scope, if writes < |fs| then fs[..writes] else fs, at);
    if writes <= |fs| then Alerts(states, a.events)
    else
      Alerts(states, Recorded(a.events, target, AbnormalEvent, scope,
                              WithEffect(a.states, scope, fs, at, RecordedAbnormal), at))
  }

  class AlertStore {
    var states: States
    var events: map<(nat, EventType), AlertEvent>

    ghost function Contents(): Alerts
      reads this
    {
      Alerts(states, events)
    }

    method RecordEvent(target: nat, kind: EventType, scope: Scope, fs: seq<Finding>, at: int)
      modifies this`events
      ensures events == Recorded(old(events), target, kind, scope, fs, at)
    {
      if fs == [] || (target, kind) in events {
        return;
      }
      var keys: set<Key> := {};
      for i := 0 to |fs|
        invariant keys == KeysOf(scope, fs[..i])
      {
        keys := keys + {(scope, fs[i].key)};
        assert KeysOf(scope, fs[..i + 1]) == KeysOf(scope, fs[..i]) + {(scope, fs[i].key)};
      }
      assert fs[..|fs|] == fs;
      events := events[(target, kind) := AlertEvent(fs, keys, at)];
    }

    /** One round of the loop: unknown and stale observations are skipped, others move the key's state. */
    method ObserveFinding(scope: Scope, f: Finding, at: int) returns (effect: Effect)
      modifies this`states
      ensures states == ApplyOne(old(states), scope, f, at)
      ensures effect == EffectOf(Lookup(old(states), (scope, f.key)), f, at)
    {
      var state := Lookup(states, (scope, f.key));
      if f.state.Unknown? {
        return Ignored;
      }
      var created := state.None?;
      var s := if created then FRESH_STATE else state.value;
      if !created && s.lastSeen.Some? && at <= s.lastSeen.value {
        return Ignored;
      }
      var wasAbnormal := s.abnormal;
      s := s.(lastSeen := Some(at), snapshot := Some(f));
      if f.state.Abnormal? {
        s := s.(abnormal := true, lastAbnormal := Some(at));
        effect := RecordedAbnormal;
      } else {
        s := s.(abnormal := false, lastNormal := Some(at));
        effect := if wasAbnormal then Recovered else RecordedNormal;
      }
      states := states[(scope, f.key) := s];
    }

    /**
     The writes of one transaction: states first, then at most one event of each type. An exception
     may strike after any number of them (`failure`), and leaves what was written so far.
     */
    method ProcessTargetFindings(target: nat, scope: Scope, fs: seq<Finding>, at: int, failure: Option<nat>)
      returns (done: bool)
      modifies this
      ensures done <==> failure.None? || failure.value > |fs| + 1
      ensures done ==> Contents() == Processed(old(Contents()), target, scope, fs, at)
      ensures !done ==> Contents() == PartlyProcessed(old(Contents()), target, scope, fs, at, failure.value)
    {
      var abnormal, recovered := [], [];
      for i := 0 to |fs|
        invariant events == old(events) && (failure.Some? ==> i <= failure.value)
        invariant states == Applied(old(states), scope, fs[..i], at)
        invariant abnormal == WithEffect(old(states), scope, fs[..i], at, RecordedAbnormal)
        invariant recovered == WithEffect(old(states), scope, fs[..i], at, Recovered)
      {
        if failure == Some(i) {
          return false;
        }
        var f := fs[i];
        assert fs[..i + 1][..i] == fs[..i];
        var effect := ObserveFinding(scope, f, at);
        if effect.RecordedAbnormal? {
          abnormal := abnormal + [f];
        } else if effect.Recovered? {
          recovered := recovered + [f];
        }
      }
      assert fs[..|fs|] == fs;
      if failure == Some(|fs|) {
        return false;
      }
      RecordEvent(target, AbnormalEvent, scope, abnormal, at);
      if failure == Some(|fs| + 1) {
        return false;
      }
      RecordEvent(target, RecoveryEvent, scope, recovered, at);
      return true;
    }
  }

  /** With one finding per key, a result moves every key on its own, and leaves all other keys alone. */
  lemma {:induction false} ResultActsPerKey(states: States, scope: Scope, fs: seq<Finding>, at: int, key: Key)
    requires DistinctKeys(fs)
    ensures (forall i :: 0 <= i < |fs| ==> (scope, fs[i].key) != key)
            ==> Lookup(Applied(states, scope, fs, at), key) == Lookup(states, key)
    ensures forall i :: 0 <= i < |fs| && (scope, fs[i].key) == key ==>
              Lookup(Applied(states, scope, fs, at), key) == Observe(Lookup(states, key), fs[i], at)
  {
    if fs != [] {
      var last := |fs| - 1;
      ResultActsPerKey(states, scope, fs[..last], at, key);
      assert forall i :: 0 <= i < last ==> fs[..last][i] == fs[i];
    }
  }

  // ---------------------------------------------------------------------------------------
  // Whole histories
  // ---------------------------------------------------------------------------------------

  /** One processed result: its target run and scope, its normalised findings, and when it finished. */
  datatype Result = Result(target: nat, scope: Scope, fs: seq<Finding>, at: int)

  /** One known observation of a key. */
  datatype Sighting = Sighting(f: Finding, at: int)

  ghost predicate IsHistory(history: seq<Result>) {
    forall i :: 0 <= i < |history| ==> DistinctKeys(history[i].fs)
  }

  ghost function StatesAfter(states: States, history: seq<Result>): (states': States) {
    if history == [] then states
    else
      var r := history[|history| - 1];
      Applied(StatesAfter(states, history[..|history| - 1]), r.scope, r.fs, r.at)
  }

  /** The known observations of `key` in one result: none or one. */
  ghost function SightingsIn(r: Result, key: Key): (sightings: seq<Sighting>) {
    if exists i :: 0 <= i < |r.fs| && (r.scope, r.fs[i].key) == key && !r.fs[i].state.Unknown? then
      var i :| 0 <= i < |r.fs| && (r.scope, r.fs[i].key) == key && !r.fs[i].state.Unknown?;
      [Sighting(r.fs[i], r.at)]
    else []
  }

  ghost function Sightings(history: seq<Result>, key: Key): (sightings: seq<Sighting>) {
    if history == [] then []
    else Sightings(history[..|history| - 1], key) + SightingsIn(history[|history| - 1], key)
  }

  ghost function Replay(state: Option<AlertState>, sightings: seq<Sighting>): (state': Option<AlertState>) {
    if sightings == [] then state
    else
      var s := sightings[|sightings| - 1];
      Observe(Replay(state, sightings[..|sightings| - 1]), s.f, s.at)
  }

  lemma ReplayMore(state: Option<AlertState>, sightings: seq<Sighting>, own: seq<Sighting>)
    requires |own| <= 1
    ensures Replay(state, sightings + own) == Replay(Replay(state, sightings), own)
  {
    if own == [] {
      assert sightings + own == sightings;
    } else {
      assert (sightings + own)[..|sightings|] == sightings && own[..0] == [];
    }
  }

  lemma ResultIsReplayed(states: States, r: Result, key: Key)
    requires DistinctKeys(r.fs)
    ensures |SightingsIn(r, key)| <= 1
    ensures Lookup(Applied(states, r.scope, r.fs, r.at), key) == Replay(Lookup(states, key), SightingsIn(r, key))
  {
    ResultActsPerKey(states, r.scope, r.fs, r.at, key);
    var own := SightingsIn(r, key);
    assert own != [] ==> own[..0] == [];
  }

  /** A key's state depends only on its own known observations; unknown ones change nothing. */
  lemma {:induction false} HistoryIsPerKey(states: States, history: seq<Result>, key: Key)
    requires IsHistory(history)
    ensures Lookup(StatesAfter(states, history), key) == Replay(Lookup(states, key), Sightings(history, key))
  {
    if history != [] {
      var last := |history| - 1;
      HistoryIsPerKey(states, history[..last], key);
      ResultIsReplayed(StatesAfter(states, history[..last]), history[last], key);
      ReplayMore(Lookup(states, key), Sightings(history[..last], key), SightingsIn(history[last], key));
    }
  }

  /** The index of the newest observation; among equals, the one processed first. */
  ghost function Newest(sightings: seq<Sighting>): (i: nat)
    requires sightings != []
    ensures i < |sightings|
    ensures forall k :: 0 <= k < |sightings| ==> sightings[k].at <= sightings[i].at
    ensures forall k :: 0 <= k < i ==> sightings[k].at < sightings[i].at
  {
    if |sightings| == 1 then 0
    else
      var last := |sightings| - 1;
      var i := Newest(sightings[..last]);
      assert forall k :: 0 <= k < last ==> sightings[..last][k] == sightings[k];
      if sightings[i].at < sightings[last].at then last else i
  }

  ghost predicate AllKnown(sightings: seq<Sighting>) {
    forall i :: 0 <= i < |sightings| ==> !sightings[i].f.state.Unknown?
  }

  /** Whatever the order of arrival, the newest known observation decides the status of the key. */
  lemma {:induction false} NewestObservationDecides(sightings: seq<Sighting>)
    requires sightings != [] && AllKnown(sightings)
    ensures var newest := sightings[Newest(sightings)];
            var s := Replay(None, sightings);
            && s.Some? && s.value.lastSeen == Some(newest.at) && s.value.snapshot == Some(newest.f)
            && (s.value.abnormal <==> newest.f.state.Abnormal?)
            && (if newest.f.state.Abnormal? then s.value.lastAbnormal else s.value.lastNormal) == Some(newest.at)
  {
    var last := |sightings| - 1;
    if last > 0 {
      NewestObservationDecides(sightings[..last]);
    }
  }

  lemma {:induction false} SightingsAreKnown(history: seq<Result>, key: Key)
    ensures AllKnown(Sightings(history, key))
  {
    if history != [] {
      SightingsAreKnown(history[..|history| - 1], key);
    }
  }

  ghost predicate DistinctTimes(sightings: seq<Sighting>) {
    forall i, j :: 0 <= i < j < |sightings| ==> sightings[i].at != sightings[j].at
  }

  /** Two orders of processing the same observations of a key end in the same status, time and snapshot. */
  lemma ProcessingOrderIsIrrelevant(history: seq<Result>, reordered: seq<Result>, key: Key)
    requires IsHistory(history) && IsHistory(reordered)
    requires multiset(Sightings(history, key)) == multiset(Sightings(reordered, key))
    requires DistinctTimes(Sightings(history, key))
    ensures var s, t := Lookup(StatesAfter(map[], history), key), Lookup(StatesAfter(map[], reordered), key);
            && (s.Some? <==> t.Some?)
            && (s.Some? ==> s.value.abnormal == t.value.abnormal && s.value.lastSeen == t.value.lastSeen
                            && s.value.snapshot == t.value.snapshot)
  {
    HistoryIsPerKey(map[], history, key);
    HistoryIsPerKey(map[], reordered, key);
    var a, b := Sightings(history, key), Sightings(reordered, key);
    SightingsAreKnown(history, key);
    SightingsAreKnown(reordered, key);
    assert |multiset(a)| == |a| && |multiset(b)| == |b|;
    if a != [] {
      SameNewest(a, b);
      NewestObservationDecides(a);
      NewestObservationDecides(b);
    }
  }

  lemma SameNewest(a: seq<Sighting>, b: seq<Sighting>)
    requires a != [] && multiset(a) == multiset(b) && DistinctTimes(a)
    ensures b != [] && a[Newest(a)] == b[Newest(b)]
  {
    assert a[0] in multiset(b);
    var i, j := Newest(a), Newest(b);
    assert a[i] in multiset(b) && b[j] in multiset(a);
    var i' :| 0 <= i' < |b| && b[i'] == a[i];
    var j' :| 0 <= j' < |a| && a[j'] == b[j];
    assert a[j'].at <= a[i].at && b[i'].at <= b[j].at;
  }

  /** `last_seen_at` only ever moves forward. */
  lemma {:induction false} LastSeenOnlyIncreases(state: Option<AlertState>, sightings: seq<Sighting>)
    requires state.Some? && state.value.lastSeen.Some?
    ensures var s := Replay(state, sightings);
            s.Some? && s.value.lastSeen.Some? && state.value.lastSeen.value <= s.value.lastSeen.value
  {
    if sightings != [] {
      LastSeenOnlyIncreases(state, sightings[..|sightings| - 1]);
    }
  }

  ghost function EffectAt(state: Option<AlertState>, sightings: seq<Sighting>, i: nat): (effect: Effect)
    requires i < |sightings|
  {
    EffectOf(Replay(state, sightings[..i]), sightings[i].f, sightings[i].at)
  }

  /** A key recovers at most once per abnormal spell. */
  lemma {:induction false} AbnormalBetweenRecoveries(
      state: Option<AlertState>, sightings: seq<Sighting>, i: nat, j: nat)
    requires i < j < |sightings|
    requires EffectAt(state, sightings, i).Recovered? && EffectAt(state, sightings, j).Recovered?
    ensures exists k :: i < k < j && EffectAt(state, sightings, k).RecordedAbnormal?
  {
    if forall k :: i < k < j ==> !EffectAt(state, sightings, k).RecordedAbnormal? {
      StaysNormal(state, sightings, i, j);
    }
  }

  lemma {:induction false} StaysNormal(state: Option<AlertState>, sightings: seq<Sighting>, i: nat, j: nat)
    requires i < j < |sightings| && EffectAt(state, sightings, i).Recovered?
    requires forall k :: i < k < j ==> !EffectAt(state, sightings, k).RecordedAbnormal?
    ensures var s := Replay(state, sightings[..j]); s.Some? && !s.value.abnormal
    decreases j
  {
    assert sightings[..j][..j - 1] == sightings[..j - 1];
    if i + 1 < j {
      StaysNormal(state, sightings, i, j - 1);
      assert !EffectAt(state, sightings, j - 1).RecordedAbnormal?;
    } else {
      assert EffectAt(state, sightings, i).Recovered?;
    }
  }

  // ---------------------------------------------------------------------------------------
  // Which observations recover
  // ---------------------------------------------------------------------------------------

  /** A normal observation, newer than everything processed before it, of which the newest was abnormal. */
  ghost predicate RecoversAfter(before: seq<Sighting>, s: Sighting) {
    && s.f.state.Normal? && before != []
    && (forall k :: 0 <= k < |before| ==> before[k].at < s.at)
    && before[Newest(before)].f.state.Abnormal?
  }

  /** Exactly such observations record a recovery. */
  lemma RecoveryIsExact(sightings: seq<Sighting>, i: nat)
    requires AllKnown(sightings) && i < |sightings|
    ensures EffectAt(None, sightings, i).Recovered? <==> RecoversAfter(sightings[..i], sightings[i])
  {
    if i > 0 {
      var before := sightings[..i];
      NewestObservationDecides(before);
      assert before[Newest(before)].at < sightings[i].at ==> forall k :: 0 <= k < i ==> before[k].at < sightings[i].at;
    }
  }

  /** And an abnormal record is left exactly by an abnormal observation that is newer than all before it. */
  lemma AbnormalIsExact(sightings: seq<Sighting>, i: nat)
    requires AllKnown(sightings) && i < |sightings|
    ensures EffectAt(None, sightings, i).RecordedAbnormal? <==>
            sightings[i].f.state.Abnormal? && forall k :: 0 <= k < i ==> sightings[k].at < sightings[i].at
  {
    if i > 0 {
      var before := sightings[..i];
      NewestObservationDecides(before);
      assert before[Newest(before)].at < sightings[i].at ==> forall k :: 0 <= k < i ==> before[k].at < sightings[i].at;
      assert before[Newest(before)] == sightings[Newest(before)];
    }
  }

  /** Processed in the order of their times, the recoveries are the normal observations that follow an abnormal one. */
  lemma ChronologicalRecoveries(sightings: seq<Sighting>, i: nat)
    requires AllKnown(sightings) && i < |sightings|
    requires forall j, k :: 0 <= j < k < |sightings| ==> sightings[j].at < sightings[k].at
    ensures EffectAt(None, sightings, i).Recovered? <==>
            sightings[i].f.state.Normal? && i > 0 && sightings[i - 1].f.state.Abnormal?
  {
    RecoveryIsExact(sightings, i);
    if i > 0 {
      var before := sightings[..i];
      assert before[i - 1] == sightings[i - 1];
      assert Newest(before) == i - 1;
    }
  }

  ghost function Recoveries(sightings: seq<Sighting>): (recovered: set<Sighting>) {
    set i | 0 <= i < |sightings| && EffectAt(None, sightings, i).Recovered? :: sightings[i]
  }

  lemma RecoveredAt(sightings: seq<Sighting>, i: nat)
    requires AllKnown(sightings) && DistinctTimes(sightings) && i < |sightings|
    ensures sightings[i] in Recoveries(sightings) <==> RecoversAfter(sightings[..i], sightings[i])
  {
    RecoveryIsExact(sightings, i);
    if sightings[i] in Recoveries(sightings) {
      var k :| 0 <= k < |sightings| && EffectAt(None, sightings, k).Recovered? && sightings[k] == sightings[i];
      assert k == i;
    }
  }

  /** No observation is treated differently by what had been processed before it in the two orders. */
  ghost predicate SameVerdicts(a: seq<Sighting>, b: seq<Sighting>) {
    forall i, j :: 0 <= i < |a| && 0 <= j < |b| && a[i] == b[j] ==>
      (RecoversAfter(a[..i], a[i]) <==> RecoversAfter(b[..j], b[j]))
  }

  /** Two orders of the same observations record the same recoveries if and only if that is so. */
  lemma SameRecoveriesExactly(a: seq<Sighting>, b: seq<Sighting>)
    requires AllKnown(a) && AllKnown(b) && DistinctTimes(a) && DistinctTimes(b) && multiset(a) == multiset(b)
    ensures Recoveries(a) == Recoveries(b) <==> SameVerdicts(a, b)
  {
    forall i | 0 <= i < |a| ensures a[i] in Recoveries(a) <==> RecoversAfter(a[..i], a[i]) {
      RecoveredAt(a, i);
    }
    forall j | 0 <= j < |b| ensures b[j] in Recoveries(b) <==> RecoversAfter(b[..j], b[j]) {
      RecoveredAt(b, j);
    }
    if SameVerdicts(a, b) {
      forall s ensures s in Recoveries(a) <==> s in Recoveries(b) {
        assert s in a <==> s in multiset(a);
        assert s in b <==> s in multiset(b);
        if s in a {
          var i :| 0 <= i < |a| && a[i] == s;
          var j :| 0 <= j < |b| && b[j] == s;
          assert RecoversAfter(a[..i], a[i]) <==> RecoversAfter(b[..j], b[j]);
        }
      }
    }
  }

  /** Only the final status is order-independent: which recoveries were recorded on the way is not. */
  lemma RecoveriesDependOnOrder()
    ensures var bad := Sighting(Finding("k", "critical", "t", "", Abnormal), 1);
            var good := Sighting(Finding("k", "info", "t", "", Normal), 2);
            && EffectAt(None, [bad, good], 1).Recovered?
            && EffectAt(None, [good, bad], 0).RecordedNormal? && EffectAt(None, [good, bad], 1).Ignored?
  {
    var bad := Sighting(Finding("k", "critical", "t", "", Abnormal), 1);
    var good := Sighting(Finding("k", "info", "t", "", Normal), 2);
    assert [bad, good][..1] == [bad] && [good, bad][..1] == [good] && [bad, good][..0] == [];
    assert [bad][..0] == [] && [good][..0] == [] && [good, bad][..0] == [];
    NewestObservationDecides([bad]);
    NewestObservationDecides([good]);
  }

  // ---------------------------------------------------------------------------------------
  // The stored events
  // ---------------------------------------------------------------------------------------

  ghost function AlertsOver(a: Alerts, history: seq<Result>): (a': Alerts)
    ensures a'.states == StatesAfter(a.states, history)
  {
    if history == [] then a
    else
      var r := history[|history| - 1];
      Processed(AlertsOver(a, history[..|history| - 1]), r.target, r.scope, r.fs, r.at)
  }

  const NO_ALERTS := Alerts(map[], map[])

  /** An event that has been stored is never replaced, whatever results are processed later. */
  lemma {:induction false} EventsAreFinal(a: Alerts, history: seq<Result>, k: nat, event: (nat, EventType))
    requires k <= |history| && event in AlertsOver(a, history[..k]).events
    ensures event in AlertsOver(a, history).events
    ensures AlertsOver(a, history).events[event] == AlertsOver(a, history[..k]).events[event]
  {
    if k < |history| {
      assert history[..|history| - 1][..k] == history[..k];
      EventsAreFinal(a, history[..|history| - 1], k, event);
    } else {
      assert history[..k] == history;
    }
  }

  /** Every target run is processed once. */
  ghost predicate DistinctTargets(history: seq<Result>) {
    forall i, j :: 0 <= i < j < |history| ==> history[i].target != history[j].target
  }

  lemma {:induction false} NoEventYet(history: seq<Result>, target: nat, kind: EventType)
    requires forall k :: 0 <= k < |history| ==> history[k].target != target
    ensures (target, kind) !in AlertsOver(NO_ALERTS, history).events
  {
    if history != [] {
      NoEventYet(history[..|history| - 1], target, kind);
    }
  }

  lemma {:induction false} NoEventLater(history: seq<Result>, i: nat, kind: EventType)
    requires DistinctTargets(history) && i < |history|
    requires (history[i].target, kind) !in AlertsOver(NO_ALERTS, history[..i + 1]).events
    ensures (history[i].target, kind) !in AlertsOver(NO_ALERTS, history).events
  {
    if i + 1 < |history| {
      assert history[..|history| - 1][..i + 1] == history[..i + 1];
      NoEventLater(history[..|history| - 1], i, kind);
    } else {
      assert history[..i + 1] == history;
    }
  }

  function EffectOfKind(kind: EventType): Effect {
    if kind.AbnormalEvent? then RecordedAbnormal else Recovered
  }

  /** The findings of result `i` that its event of this kind is about. */
  ghost function Picked(history: seq<Result>, i: nat, kind: EventType): (fs: seq<Finding>)
    requires i < |history|
  {
    var r := history[i];
    WithEffect(StatesAfter(map[], history[..i]), r.scope, r.fs, r.at, EffectOfKind(kind))
  }

  /** A result leaves an event of a kind exactly if some finding had that effect, and the event holds just those. */
  lemma EventIsExact(history: seq<Result>, i: nat, kind: EventType)
    requires DistinctTargets(history) && i < |history|
    ensures var events, r := AlertsOver(NO_ALERTS, history).events, history[i];
            && ((r.target, kind) in events <==> Picked(history, i, kind) != [])
            && ((r.target, kind) in events ==>
                  events[(r.target, kind)]
                  == AlertEvent(Picked(history, i, kind), KeysOf(r.scope, Picked(history, i, kind)), r.at))
  {
    var event := (history[i].target, kind);
    EventRightAfter(history, i, kind);
    if event in AlertsOver(NO_ALERTS, history[..i + 1]).events {
      EventsAreFinal(NO_ALERTS, history, i + 1, event);
    } else {
      NoEventLater(history, i, kind);
    }
  }

  lemma EventRightAfter(history: seq<Result>, i: nat, kind: EventType)
    requires DistinctTargets(history) && i < |history|
    ensures var events, r := AlertsOver(NO_ALERTS, history[..i + 1]).events, history[i];
            && ((r.target, kind) in events <==> Picked(history, i, kind) != [])
            && ((r.target, kind) in events ==>
                  events[(r.target, kind)]
                  == AlertEvent(Picked(history, i, kind), KeysOf(r.scope, Picked(history, i, kind)), r.at))
  {
    NoEventYet(history[..i], history[i].target, AbnormalEvent);
    NoEventYet(history[..i], history[i].target, RecoveryEvent);
    assert history[..i + 1][..i] == history[..i];
  }

  /** Result `r`, processed in `states`, has this effect on `key`. */
  ghost predicate Does(states: States, r: Result, key: Key, effect: Effect) {
    exists i ::
      0 <= i < |r.fs| && (r.scope, r.fs[i].key) == key && EffectOf(Lookup(states, key), r.fs[i], r.at) == effect
  }

  lemma {:induction false} PickedKeys(states: States, scope: Scope, fs: seq<Finding>, at: int, effect: Effect, key: Key)
    requires DistinctKeys(fs)
    ensures key in KeysOf(scope, WithEffect(states, scope, fs, at, effect)) <==>
            exists i :: 0 <= i < |fs| && (scope, fs[i].key) == key && EffectOf(Lookup(states, key), fs[i], at) == effect
  {
    if fs != [] {
      var last := |fs| - 1;
      var front := fs[..last];
      PickedKeys(states, scope, front, at, effect, key);
      ResultActsPerKey(states, scope, front, at, (scope, fs[last].key));
      var picked, added := WithEffect(states, scope, front, at, effect), WithEffect(states, scope, fs, at, effect);
      if added != picked {
        assert added == picked + [fs[last]];
        KeysOfMore(scope, picked, fs[last]);
      }
      assert forall i :: 0 <= i < last ==> front[i] == fs[i];
    }
  }

  lemma KeysOfMore(scope: Scope, fs: seq<Finding>, f: Finding)
    ensures KeysOf(scope, fs + [f]) == KeysOf(scope, fs) + {(scope, f.key)}
  {
    var more := fs + [f];
    assert more[|fs|] == f && forall i :: 0 <= i < |fs| ==> more[i] == fs[i];
  }

  /** What one result does to the state of a key. */
  lemma ResultMovesKey(states: States, r: Result, key: Key)
    requires DistinctKeys(r.fs)
    ensures var s, s' := Lookup(states, key), Lookup(Applied(states, r.scope, r.fs, r.at), key);
            && (s.Some? && s.value.lastSeen.Some? ==>
                  s'.Some? && s'.value.lastSeen.Some? && s.value.lastSeen.value <= s'.value.lastSeen.value)
            && (Does(states, r, key, Recovered) ==>
                  && s.Some? && s.value.abnormal && s'.Some? && !s'.value.abnormal && s'.value.lastSeen == Some(r.at)
                  && (s.value.lastSeen.Some? ==> s.value.lastSeen.value < r.at))
            && (Does(states, r, key, RecordedAbnormal) ==>
                  && s'.Some? && s'.value.lastSeen == Some(r.at)
                  && (s.Some? && s.value.lastSeen.Some? ==> s.value.lastSeen.value < r.at))
            && (!Does(states, r, key, RecordedAbnormal) && s'.Some? && s'.value.abnormal ==>
                s.Some? && s.value.abnormal)
  {
    ResultActsPerKey(states, r.scope, r.fs, r.at, key);
  }

  ghost function StateAt(history: seq<Result>, k: nat, key: Key): (state: Option<AlertState>)
    requires k <= |history|
  {
    Lookup(StatesAfter(map[], history[..k]), key)
  }

  ghost predicate DoesAt(history: seq<Result>, k: nat, key: Key, effect: Effect)
    requires k < |history|
  {
    Does(StatesAfter(map[], history[..k]), history[k], key, effect)
  }

  ghost predicate IsAbnormalAt(history: seq<Result>, k: nat, key: Key)
    requires k <= |history|
  {
    StateAt(history, k, key).Some? && StateAt(history, k, key).value.abnormal
  }

  /** The key has been seen, at this time or later. */
  ghost predicate SeenBy(history: seq<Result>, k: nat, key: Key, at: int)
    requires k <= |history|
  {
    var s := StateAt(history, k, key);
    s.Some? && s.value.lastSeen.Some? && at <= s.value.lastSeen.value
  }

  lemma MoveAt(history: seq<Result>, k: nat, key: Key, at: int)
    requires IsHistory(history) && k < |history|
    ensures SeenBy(history, k, key, at) ==> SeenBy(history, k + 1, key, at)
    ensures DoesAt(history, k, key, Recovered) ==>
              && IsAbnormalAt(history, k, key) && !IsAbnormalAt(history, k + 1, key)
              && SeenBy(history, k + 1, key, history[k].at) && (SeenBy(history, k, key, at) ==> at < history[k].at)
    ensures DoesAt(history, k, key, RecordedAbnormal) ==>
              SeenBy(history, k + 1, key, history[k].at) && (SeenBy(history, k, key, at) ==> at < history[k].at)
    ensures !DoesAt(history, k, key, RecordedAbnormal) && IsAbnormalAt(history, k + 1, key) ==>
              IsAbnormalAt(history, k, key)
  {
    assert history[..k + 1][..k] == history[..k];
    ResultMovesKey(StatesAfter(map[], history[..k]), history[k], key);
  }

  /** Once seen, a key stays seen, and never at an earlier time. */
  lemma {:induction false} SeenSince(history: seq<Result>, i: nat, k: nat, key: Key, at: int)
    requires IsHistory(history) && i <= k <= |history| && SeenBy(history, i, key, at)
    ensures SeenBy(history, k, key, at)
  {
    if i < k {
      SeenSince(history, i, k - 1, key, at);
      MoveAt(history, k - 1, key, at);
    }
  }

  /** A key that turns abnormal does so by an abnormal result. */
  lemma {:induction false} TurnsAbnormal(history: seq<Result>, i: nat, j: nat, key: Key) returns (k: nat)
    requires IsHistory(history) && i <= j <= |history| && !IsAbnormalAt(history, i, key)
             && IsAbnormalAt(history, j, key)
    ensures i <= k < j && DoesAt(history, k, key, RecordedAbnormal)
  {
    MoveAt(history, j - 1, key, 0);
    if DoesAt(history, j - 1, key, RecordedAbnormal) {
      k := j - 1;
    } else {
      k := TurnsAbnormal(history, i, j - 1, key);
    }
  }

  lemma AbnormalResultBetween(history: seq<Result>, i: nat, j: nat, key: Key) returns (k: nat)
    requires IsHistory(history) && i < j < |history|
    requires DoesAt(history, i, key, Recovered) && DoesAt(history, j, key, Recovered)
    ensures i < k < j && DoesAt(history, k, key, RecordedAbnormal)
    ensures history[i].at < history[k].at < history[j].at
  {
    MoveAt(history, i, key, 0);
    MoveAt(history, j, key, 0);
    k := TurnsAbnormal(history, i + 1, j, key);
    SeenSince(history, i + 1, k, key, history[i].at);
    MoveAt(history, k, key, history[i].at);
    SeenSince(history, k + 1, j, key, history[k].at);
    MoveAt(history, j, key, history[k].at);
  }

  /** An event of this kind that names the key is stored for result `i`. */
  ghost predicate StoredFor(history: seq<Result>, i: nat, kind: EventType, key: Key)
    requires i < |history|
  {
    var events := AlertsOver(NO_ALERTS, history).events;
    (history[i].target, kind) in events && key in events[(history[i].target, kind)].keys
  }

  lemma StoredExactly(history: seq<Result>, i: nat, kind: EventType, key: Key)
    requires IsHistory(history) && DistinctTargets(history) && i < |history|
    ensures StoredFor(history, i, kind, key) <==> DoesAt(history, i, key, EffectOfKind(kind))
  {
    var r := history[i];
    EventIsExact(history, i, kind);
    PickedKeys(StatesAfter(map[], history[..i]), r.scope, r.fs, r.at, EffectOfKind(kind), key);
    assert Picked(history, i, kind) == [] ==> KeysOf(r.scope, Picked(history, i, kind)) == {};
  }

  /**
   Between two stored recovery events of a key there is a stored abnormal event of that key, in the
   order of processing and in the order of their times alike.
   */
  lemma AbnormalEventBetweenRecoveries(history: seq<Result>, i: nat, j: nat, key: Key)
    requires IsHistory(history) && DistinctTargets(history) && i < j < |history|
    requires StoredFor(history, i, RecoveryEvent, key) && StoredFor(history, j, RecoveryEvent, key)
    ensures exists k :: i < k < j && StoredFor(history, k, AbnormalEvent, key)
                        && history[i].at < history[k].at < history[j].at
  {
    StoredExactly(history, i, RecoveryEvent, key);
    StoredExactly(history, j, RecoveryEvent, key);
    var k := AbnormalResultBetween(history, i, j, key);
    StoredExactly(history, k, AbnormalEvent, key);
  }
}
