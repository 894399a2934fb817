/**
 From collected device evidence to alert findings: which selected items are flagged, which are
 reported normal, and which findings a persisted run yields
 (net/inspections/device_issues.py, net/alerts/service.py:276-331).
 */
module DeviceEvidence {
  import opened Outcomes
  import opened AlertStates

  // ---------------------------------------------------------------------------------------
  // Evidence
  // ---------------------------------------------------------------------------------------

  /** JSON evidence. A scalar carries its text and the finite number the text reads as, if any. */
  datatype Json =
    | JNull
    | JBool(value: bool)
    | JNumber(text: string, number: Option<real>)
    | JString(text: string, reading: Option<real>)
    | JList(items: seq<Json>)
    | JObject(fields: map<string, Json>)

  /** `str(value)`; containers never equal any of the words looked for. */
  function Text(value: Json): string {
    match value
    case JNull => "None"
    case JBool(b) => if b then "True" else "False"
    case JNumber(text, _) => text
    case JString(text, _) => text
    case JList(_) => "[]"
    case JObject(_) => "{}"
  }

  function Truthy(value: Json): bool {
    match value
    case JNull => false
    case JBool(b) => b
    case JNumber(_, number) => number != Some(0.0)
    case JString(text, _) => text != ""
    case JList(items) => items != []
    case JObject(fields) => fields != map[]
  }

  function Get(value: Json, key: string, missing: Json): Json {
    if value.JObject? && key in value.fields then value.fields[key] else missing
  }

  predicate IsText(value: Json, text: string) {
    value.JString? && value.text == text
  }

  const NO_TEXT := JString("", None)

  function MetricValue(value: Json): (reading: Option<real>) {
    match value
    case JNumber(_, number) => number
    case JString(_, reading) => reading
    case _ => None
  }

  function Readings(values: seq<Json>, low: real, high: real): (readings: seq<real>)
    ensures forall r :: r in readings ==> low <= r <= high
  {
    if values == [] then []
    else
      var r := MetricValue(values[0]);
      (if r.Some? && low <= r.value <= high then [r.value] else []) + Readings(values[1..], low, high)
  }

  /** The usable numbers in the evidence of a metric item, however deeply the rows are nested. */
  function MetricValues(item: string, evidence: Json): (values: seq<real>)
    ensures forall v :: v in values ==> if item == "temperature" then -273.15 <= v <= 1000.0 else 0.0 <= v <= 100.0
    decreases evidence, 1
  {
    match evidence
    case JList(items) => MetricValuesOf(item, items)
    case JObject(_) =>
      if item == "temperature" then
        var raw := Get(evidence, "values_celsius", JList([]));
        if raw.JList? then Readings(raw.items, -273.15, 1000.0) else []
      else
        var direct := MetricValue(Get(evidence, "usage_percent",
                                      Get(evidence, "used_percent", Get(evidence, "usage", JNull))));
        var total := MetricValue(Get(evidence, "total_bytes", JNull));
        var used := MetricValue(Get(evidence, "used_bytes", JNull));
        var value :=
          if direct.None? && item == "memory" && total.Some? && total.value > 0.0 && used.Some?
          then Some(used.value * 100.0 / total.value) else direct;
        if value.Some? && 0.0 <= value.value <= 100.0 then [value.value] else []
    case _ => []
  }

  function MetricValuesOf(item: string, rows: seq<Json>): (values: seq<real>)
    ensures forall v :: v in values ==> if item == "temperature" then -273.15 <= v <= 1000.0 else 0.0 <= v <= 100.0
    decreases rows, 0
  {
    if rows == [] then [] else MetricValues(item, rows[0]) + MetricValuesOf(item, rows[1..])
  }

  // ---------------------------------------------------------------------------------------
  // What a reading is, by paths into the evidence
  // ---------------------------------------------------------------------------------------

  /** A scalar that reads as the number `v`: a number, or a text that is one. */
  ghost predicate ReadsAs(json: Json, v: real) {
    (json.JNumber? && json.number == Some(v)) || (json.JString? && json.reading == Some(v))
  }

  /** The first of the three names under which a usage is reported. */
  ghost predicate IsUsage(fields: map<string, Json>, usage: Json) {
    || ("usage_percent" in fields && usage == fields["usage_percent"])
    || ("usage_percent" !in fields && "used_percent" in fields && usage == fields["used_percent"])
    || ("usage_percent" !in fields && "used_percent" !in fields && "usage" in fields && usage == fields["usage"])
  }

  ghost predicate HasUsage(fields: map<string, Json>) {
    exists usage, v: real :: IsUsage(fields, usage) && ReadsAs(usage, v)
  }

  ghost predicate IsShare(fields: map<string, Json>, used: real, total: real) {
    && "used_bytes" in fields && "total_bytes" in fields
    && ReadsAs(fields["used_bytes"], used) && ReadsAs(fields["total_bytes"], total) && total > 0.0
  }

  /**
   `v` stands in the evidence of a metric item: in some row, however deeply nested, as a temperature, as
   a usage in percent, or, for memory without a readable usage, as the used share of all bytes.
   */
  ghost predicate IsReading(item: string, evidence: Json, v: real)
    decreases evidence
  {
    match evidence
    case JList(items) => exists i :: 0 <= i < |items| && IsReading(item, items[i], v)
    case JObject(fields) =>
      if item == "temperature" then
        && "values_celsius" in fields && fields["values_celsius"].JList?
        && exists i :: 0 <= i < |fields["values_celsius"].items| && ReadsAs(fields["values_celsius"].items[i], v)
      else
        || (exists usage :: IsUsage(fields, usage) && ReadsAs(usage, v))
        || (item == "memory" && !HasUsage(fields)
            && exists used, total :: IsShare(fields, used, total) && v == used * 100.0 / total)
    case _ => false
  }

  /** What a sensor can report at all: degrees between -273.15 and 1000, or a percentage. */
  predicate Plausible(item: string, v: real) {
    if item == "temperature" then -273.15 <= v <= 1000.0 else 0.0 <= v <= 100.0
  }

  lemma ScalarsAreRead(json: Json, v: real)
    ensures MetricValue(json) == Some(v) <==> ReadsAs(json, v)
  {
  }

  lemma {:induction false} ReadingsAreExact(values: seq<Json>, low: real, high: real, v: real)
    ensures v in Readings(values, low, high) <==>
            low <= v <= high && exists i :: 0 <= i < |values| && ReadsAs(values[i], v)
  {
    if values != [] {
      ReadingsAreExact(values[1..], low, high, v);
      if i :| 0 <= i < |values| && ReadsAs(values[i], v) {
        if i > 0 { assert ReadsAs(values[1..][i - 1], v); }
      }
      if i :| 0 <= i < |values[1..]| && ReadsAs(values[1..][i], v) {
        assert ReadsAs(values[i + 1], v);
      }
      if ReadsAs(values[0], v) {
        ScalarsAreRead(values[0], v);
      }
    }
  }

  /** The usage an object gives: what is named first, or the share of bytes for memory. */
  lemma UsageIsExact(item: string, fields: map<string, Json>, v: real)
    requires item != "temperature"
    ensures v in MetricValues(item, JObject(fields)) <==> IsReading(item, JObject(fields), v) && Plausible(item, v)
  {
    var e := JObject(fields);
    var named := Get(e, "usage_percent", Get(e, "used_percent", Get(e, "usage", JNull)));
    assert forall usage :: IsUsage(fields, usage) ==> usage == named;
    assert forall w: real :: ReadsAs(named, w) ==> IsUsage(fields, named);
    if MetricValue(named).None? {
      assert !HasUsage(fields);
      ShareIsExact(fields, v);
    } else {
      assert ReadsAs(named, MetricValue(named).value);
      assert HasUsage(fields);
    }
  }

  lemma ShareIsExact(fields: map<string, Json>, v: real)
    ensures var e := JObject(fields);
            var total, used := MetricValue(Get(e, "total_bytes", JNull)), MetricValue(Get(e, "used_bytes", JNull));
            (total.Some? && total.value > 0.0 && used.Some? && v == used.value * 100.0 / total.value)
            <==> exists used, total :: IsShare(fields, used, total) && v == used * 100.0 / total
  {
    var e := JObject(fields);
    var total, used := MetricValue(Get(e, "total_bytes", JNull)), MetricValue(Get(e, "used_bytes", JNull));
    if total.Some? && total.value > 0.0 && used.Some? {
      assert IsShare(fields, used.value, total.value);
    }
  }

  /** The values used for a verdict are exactly the plausible readings that stand in the evidence. */
  lemma {:induction false} MetricValuesAreReadings(item: string, evidence: Json, v: real)
    ensures v in MetricValues(item, evidence) <==> IsReading(item, evidence, v) && Plausible(item, v)
    decreases evidence, 1
  {
    match evidence
    case JList(items) =>
      RowsAreReadings(item, items, v);
    case JObject(fields) =>
      if item == "temperature" {
        if "values_celsius" in fields && fields["values_celsius"].JList? {
          ReadingsAreExact(fields["values_celsius"].items, -273.15, 1000.0, v);
        }
      } else {
        UsageIsExact(item, fields, v);
      }
    case _ =>
  }

  lemma {:induction false} RowsAreReadings(item: string, rows: seq<Json>, v: real)
    ensures v in MetricValuesOf(item, rows) <==>
            Plausible(item, v) && exists i :: 0 <= i < |rows| && IsReading(item, rows[i], v)
    decreases rows, 0
  {
    if rows != [] {
      MetricValuesAreReadings(item, rows[0], v);
      RowsAreReadings(item, rows[1..], v);
      if i :| 0 <= i < |rows| && IsReading(item, rows[i], v) {
        if i > 0 { assert IsReading(item, rows[1..][i - 1], v); }
      }
      if i :| 0 <= i < |rows[1..]| && IsReading(item, rows[1..][i], v) {
        assert IsReading(item, rows[i + 1], v);
      }
    }
  }

  const FAILURE_WORDS := {"failed", "error", "fault", "offline", "critical", "stopped"}

  predicate ExplicitFailure(value: Json) {
    match value
    case JList(items) => exists i :: 0 <= i < |items| && ExplicitFailure(items[i])
    case JObject(fields) =>
      || Get(value, "online", JNull) == JBool(false)
      || Lower(Text(Get(value, "status", NO_TEXT))) in FAILURE_WORDS
      || Lower(Text(Get(value, "state", NO_TEXT))) in FAILURE_WORDS
      || Lower(Text(Get(value, "health", NO_TEXT))) in FAILURE_WORDS
    case _ => false
  }

  /** An object shows a failure by being offline, or by one of six words under status, state or health. */
  lemma FailureReads(fields: map<string, Json>)
    ensures ExplicitFailure(JObject(fields)) <==>
            || ("online" in fields && fields["online"] == JBool(false))
            || (exists key :: key in {"status", "state", "health"} && key in fields
                              && Lower(Text(fields[key])) in
                                   {"failed", "error", "fault", "offline", "critical", "stopped"})
  {
    assert "" !in FAILURE_WORDS && Lower("") == "";
  }

  /** A list shows a failure if some row of it does, however deeply nested. */
  lemma FailureInRows(items: seq<Json>)
    ensures ExplicitFailure(JList(items)) <==> exists i :: 0 <= i < |items| && ExplicitFailure(items[i])
  {
  }

  predicate AnyAbove(values: seq<real>, limit: real) {
    exists i :: 0 <= i < |values| && values[i] > limit
  }

  // ---------------------------------------------------------------------------------------
  // Rules
  // ---------------------------------------------------------------------------------------

  datatype Project = Networks | Servers | WeakCurrent

  const COLLECTION := "inspection_collection"

  const NETWORK_FUNCTION_ITEMS :=
    {"routing_table", "arp_table", "mac_table", "lldp_neighbors", "wireless_aps", "wireless_clients"}

  function Rules(project: Project): set<string> {
    match project
    case Networks =>
      {"cpu", "memory", "temperature", "disk_usage", "bandwidth_usage", "online_users", "sessions",
       "inside_libraries", "log_statistics", "system_time", "throughput", "traffic", "interface_status",
       "vlan_status", "device_info", "logs", "config_info", COLLECTION} + NETWORK_FUNCTION_ITEMS
    case Servers =>
      {"cpu", "memory", "storage_status", "network_info", "services", "logs", "system_info",
       "computer_name", COLLECTION}
    case WeakCurrent =>
      {"device_info", "status_data", "channel_status", "storage_status", "config_info", COLLECTION}
  }

  function MetricDefaults(project: Project): map<string, real> {
    match project
    case Networks =>
      map["cpu" := 90.0, "memory" := 90.0, "temperature" := 85.0, "traffic" := 90.0,
          "disk_usage" := 90.0, "bandwidth_usage" := 90.0]
    case Servers => map["cpu" := 90.0, "memory" := 90.0, "storage_status" := 90.0]
    case WeakCurrent => map[]
  }

  datatype Severity = Info | Warning | Critical

  /** A graded issue. `missing` is the unknown data state. */
  datatype Issue = Issue(item: string, missing: bool, severity: Severity)

  /** `grade_issue`: an administrator's override for the rule key wins over the built-in level. */
  function Grade(item: string, missing: bool, overrides: map<string, Severity>): Issue {
    var key := if missing then "missing." + item else item;
    var severity :=
      if key in overrides then overrides[key]
      else if missing then Info
      else if item == COLLECTION then Critical
      else Warning;
    Issue(item, missing, severity)
  }

  /** An override for the rule decides; else missing data is info, a failed collection critical, the rest a warning. */
  lemma SeverityReads(item: string, overrides: map<string, Severity>)
    ensures Grade(item, true, overrides).severity ==
            if "missing." + item in overrides then overrides["missing." + item] else Info
    ensures Grade(item, false, overrides).severity ==
            if item in overrides then overrides[item] else if item == "inspection_collection" then Critical else Warning
    ensures forall missing :: Grade(item, missing, overrides).item == item
  {
  }

  /** The limits without thresholds of one's own: 85 degrees, and 90 percent everywhere else. */
  lemma DefaultLimitsRead(project: Project, item: string)
    requires item in MetricDefaults(project)
    ensures MetricDefaults(project)[item] == if item == "temperature" then 85.0 else 90.0
    ensures project != WeakCurrent
  {
  }

  // ---------------------------------------------------------------------------------------
  // Judging one item
  // ---------------------------------------------------------------------------------------

  /** Everything the evaluation is given besides the selected items. */
  datatype Device = Device(project: Project, data: map<string, Json>, limits: map<string, real>, linux: bool)

  /** The issues an item raises (true for missing data), and whether it is appended to the normal items. */
  datatype Verdict = Verdict(issues: seq<bool>, normal: bool)

  function RowsWhere(rows: seq<Json>, wanted: Json -> bool): (picked: seq<Json>)
    ensures |picked| <= |rows|
    ensures picked == [] <==> forall i :: 0 <= i < |rows| ==> !wanted(rows[i])
    ensures |picked| == |rows| <==> forall i :: 0 <= i < |rows| ==> wanted(rows[i])
    ensures |picked| == |rows| ==> picked == rows
  {
    if rows == [] then [] else (if wanted(rows[0]) then [rows[0]] else []) + RowsWhere(rows[1..], wanted)
  }

  function Utilizations(rows: seq<Json>): (values: seq<real>)
    ensures |values| <= |rows|
    ensures |values| == |rows| ==> forall i :: 0 <= i < |rows| ==>
              MetricValue(Get(rows[i], "utilization_percent", JNull)) == Some(values[i])
  {
    if rows == [] then []
    else
      var v := MetricValue(Get(rows[0], "utilization_percent", JNull));
      (if v.Some? then [v.value] else []) + Utilizations(rows[1..])
  }

  predicate KnownInterface(row: Json) {
    row.JObject? && IsText(Get(row, "data_state", JNull), "known")
  }

  function ListIn(evidence: Json, key: string): seq<Json> {
    var rows := Get(evidence, key, JList([]));
    if rows.JList? then rows.items else []
  }

  function JudgeTraffic(evidence: Json, limit: real): (verdict: Verdict) {
    var interfaces := ListIn(evidence, "interfaces");
    var valid := RowsWhere(interfaces, KnownInterface);
    var utilizations := Utilizations(valid);
    var incomplete := interfaces == [] || |valid| != |interfaces| || |utilizations| != |valid|;
    var above := utilizations != [] && AnyAbove(utilizations, limit);
    Verdict((if incomplete then [true] else []) + (if above then [false] else []),
            !above && interfaces != [] && |utilizations| == |interfaces|)
  }

  predicate StoppedAutomatic(row: Json) {
    && row.JObject?
    && Lower(Text(Get(row, "Status", Get(row, "status", NO_TEXT)))) in {"1", "stopped"}
    && Lower(Text(Get(row, "StartType", Get(row, "start_type", NO_TEXT)))) in {"2", "automatic", "auto"}
  }

  const HEALTHY_AP := {"nor", "normal", "run", "r/m", "r/b", "registered", "online", "up", "stdby", "standby"}
  const OFFLINE_AP :=
    {"fault", "idle", "i", "j", "ja", "il", "c", "dc", "quit", "offline", "down", "disconnected", "unregistered"}

  function ApState(row: Json): string { Lower(Text(Get(row, "state", NO_TEXT))) }

  function JudgeFunctionItem(item: string, evidence: Json): (verdict: Verdict) {
    var records := Get(evidence, "records", JNull);
    if !records.JList? || IsText(Get(evidence, "status", JNull), "partial") then
      Verdict([true], false)
    else if item == "wireless_aps" then
      var bad := RowsWhere(records.items, (row: Json) => ApState(row) in OFFLINE_AP);
      var unknown := RowsWhere(records.items, (row: Json) => ApState(row) !in HEALTHY_AP + OFFLINE_AP);
      Verdict((if bad != [] then [false] else []) + (if unknown != [] then [true] else []), bad == [] && unknown == [])
    else Verdict([], true)
  }

  predicate DownInterface(row: Json) {
    && row.JObject?
    && IsText(Get(row, "admin_status", JNull), "up")
    && IsText(Get(row, "oper_status", JNull), "down")
  }

  /** The branches for a metric item, reached once the evidence is present and not an explicit failure. */
  function JudgeMetric(item: string, evidence: Json, limit: real): (verdict: Verdict) {
    var values := MetricValues(item, evidence);
    if values == [] then Verdict([true], false)
    else if AnyAbove(values, limit) then Verdict([false], false)
    else Verdict([], true)
  }

  predicate RestrictedServices(d: Device) {
    var errors := if "collection_errors" in d.data then d.data["collection_errors"] else JObject(map[]);
    errors.JObject? && Truthy(Get(errors, "services", JNull))
  }

  /** One round of the item loop: what is appended to the issues and to the normal items. */
  function Judge(d: Device, item: string): (verdict: Verdict)
    requires item == "traffic" ==> item in d.limits
  {
    var evidence := if item in d.data then d.data[item] else JNull;
    if item == "config_info" && IsText(Get(evidence, "status", JNull), "unsupported") then
      Verdict([false], false)
    else if item == "traffic" then JudgeTraffic(evidence, d.limits[item])
    else if d.project.Servers? && !d.linux && item == "services" && evidence.JList?
            && (RestrictedServices(d) || RowsWhere(evidence.items, StoppedAutomatic) != []) then
      Verdict([true], false)
    else if evidence.JNull? then Verdict([true], false)
    else if ExplicitFailure(evidence) then Verdict([false], false)
    else if d.linux && item in {"services", "logs"} && evidence.JList? then
      if evidence.items != [] then Verdict([false], false) else Verdict([], true)
    else if item in d.limits then JudgeMetric(item, evidence, d.limits[item])
    else if d.project.Networks? && item in NETWORK_FUNCTION_ITEMS then JudgeFunctionItem(item, evidence)
    else if item == "interface_status" && evidence.JObject?
            && RowsWhere(ListIn(evidence, "interfaces"), DownInterface) != [] then
      Verdict([false], false)
    else Verdict([], true)
  }

  /** Data that was not collected is unknown, never a fault and never normal. */
  lemma AbsentEvidenceIsUnknown(d: Device, item: string)
    requires item == "traffic" ==> item in d.limits
    requires item !in d.data
    ensures Judge(d, item) == Verdict([true], false)
  {
  }

  /** A shown failure is a fault, and so is a metric above its limit; a metric without a reading is unknown. */
  lemma FaultsAndGapsRead(d: Device, item: string)
    requires item !in {"traffic", "config_info", "services", "logs"} && item in d.data && !d.data[item].JNull?
    ensures ExplicitFailure(d.data[item]) ==> Judge(d, item) == Verdict([false], false)
    ensures !ExplicitFailure(d.data[item]) && item in d.limits ==>
              && (MetricValues(item, d.data[item]) == [] ==> Judge(d, item) == Verdict([true], false))
              && (AnyAbove(MetricValues(item, d.data[item]), d.limits[item]) ==>
                    Judge(d, item) == Verdict([false], false))
  {
  }

  /** An interface is down if it is switched on and still has no link. */
  lemma DownInterfacesRead(row: Json, admin: string, oper: string)
    requires row == JObject(map["admin_status" := JString(admin, None), "oper_status" := JString(oper, None)])
    ensures DownInterface(row) <==> admin == "up" && oper == "down"
  {
  }

  lemma KnownInterfacesRead(row: Json, state: string)
    requires row == JObject(map["data_state" := JString(state, None)])
    ensures KnownInterface(row) <==> state == "known"
  {
  }

  lemma AccessPointStatesRead()
    ensures "online" in HEALTHY_AP && "run" in HEALTHY_AP && "registered" in HEALTHY_AP && "standby" in HEALTHY_AP
    ensures "offline" in OFFLINE_AP && "fault" in OFFLINE_AP && "down" in OFFLINE_AP && "unregistered" in OFFLINE_AP
  {
  }

  /** A service counts as stopped by its word or number, if it should start by itself. */
  lemma StoppedServicesRead(status: string, start: string)
    ensures var row := JObject(map["Status" := JString(status, None), "StartType" := JString(start, None)]);
            StoppedAutomatic(row) <==>
              (Lower(status) == "stopped" || Lower(status) == "1") && Lower(start) in {"2", "automatic", "auto"}
  {
  }

  /** The services could not all be read if the collection noted an error for them. */
  lemma RestrictionReads(d: Device, errors: map<string, Json>)
    requires "collection_errors" in d.data && d.data["collection_errors"] == JObject(errors)
    ensures "services" !in errors ==> !RestrictedServices(d)
    ensures "services" in errors && errors["services"].JString? ==>
              (RestrictedServices(d) <==> errors["services"].text != "")
  {
  }

  /** Every branch appends an issue or reports the item normal, and never both. */
  lemma VerdictIsExclusive(d: Device, item: string)
    requires item == "traffic" ==> item in d.limits
    ensures Judge(d, item).normal <==> Judge(d, item).issues == []
  {
    if item == "traffic" && !(item == "config_info") {
      var evidence := if item in d.data then d.data[item] else JNull;
      TrafficIsExclusive(evidence, d.limits[item]);
    }
  }

  lemma TrafficIsExclusive(evidence: Json, limit: real)
    ensures JudgeTraffic(evidence, limit).normal <==> JudgeTraffic(evidence, limit).issues == []
  {
    var interfaces := ListIn(evidence, "interfaces");
    var valid := RowsWhere(interfaces, KnownInterface);
    assert |Utilizations(valid)| <= |valid| <= |interfaces|;
  }

  /** A known reading for every interface, and none above the limit. */
  ghost predicate CompleteTraffic(evidence: Json, limit: real) {
    && ListIn(evidence, "interfaces") != []
    && forall i :: 0 <= i < |ListIn(evidence, "interfaces")| ==>
         var row := ListIn(evidence, "interfaces")[i];
         && KnownInterface(row)
         && MetricValue(Get(row, "utilization_percent", JNull)).Some?
         && MetricValue(Get(row, "utilization_percent", JNull)).value <= limit
  }

  /** Interface traffic is normal only on complete evidence. */
  lemma NormalTrafficIsComplete(evidence: Json, limit: real)
    requires JudgeTraffic(evidence, limit).normal
    ensures CompleteTraffic(evidence, limit)
  {
    var interfaces := ListIn(evidence, "interfaces");
    var valid := RowsWhere(interfaces, KnownInterface);
    var utilizations := Utilizations(valid);
    assert |utilizations| <= |valid| <= |interfaces|;
    assert valid == interfaces;
    forall i | 0 <= i < |interfaces|
      ensures KnownInterface(interfaces[i])
      ensures MetricValue(Get(interfaces[i], "utilization_percent", JNull)).Some?
      ensures MetricValue(Get(interfaces[i], "utilization_percent", JNull)).value <= limit
    {
      assert utilizations[i] <= limit;
    }
  }

  /** The empty service or log list of a Linux server is judged before any limit. */
  predicate LinuxList(d: Device, item: string) {
    d.linux && item in {"services", "logs"} && item in d.data && d.data[item].JList?
  }

  /**
   A metric item is normal only on evidence: at least one value, all of them within the limit.
   The exception is exact: a service or log list of a Linux server is judged by being empty,
   even when an administrator has put a threshold on it.
   */
  lemma NormalMetricHasEvidence(d: Device, item: string)
    requires item in d.limits && item != "traffic" && Judge(d, item).normal
    ensures item in d.data && !ExplicitFailure(d.data[item])
    ensures if LinuxList(d, item) then d.data[item].items == []
            else MetricValues(item, d.data[item]) != [] && !AnyAbove(MetricValues(item, d.data[item]), d.limits[item])
  {
  }

  // ---------------------------------------------------------------------------------------
  // The evaluation
  // ---------------------------------------------------------------------------------------

  datatype Evaluation = Evaluation(issues: seq<Issue>, normal: seq<string>)

  function Dedupe(selected: seq<string>, rules: set<string>): (items: seq<string>)
    ensures forall item :: item in items <==> item in selected && item in rules
    ensures forall i, j :: 0 <= i < j < |items| ==> items[i] != items[j]
  {
    if selected == [] then []
    else
      var last := |selected| - 1;
      var front := Dedupe(selected[..last], rules);
      assert selected == selected[..last] + [selected[last]];
      if selected[last] in rules && selected[last] !in front then front + [selected[last]] else front
  }

  function Graded(item: string, marks: seq<bool>, overrides: map<string, Severity>): (issues: seq<Issue>)
    ensures |issues| == |marks| && forall i :: 0 <= i < |marks| ==> issues[i] == Grade(item, marks[i], overrides)
  {
    seq(|marks|, i requires 0 <= i < |marks| => Grade(item, marks[i], overrides))
  }

  ghost function Judged(d: Device, items: seq<string>, overrides: map<string, Severity>): (e: Evaluation)
    requires "traffic" in items ==> "traffic" in d.limits
  {
    if items == [] then Evaluation([], [COLLECTION])
    else
      var last := |items| - 1;
      var before := Judged(d, items[..last], overrides);
      var verdict := Judge(d, items[last]);
      Evaluation(before.issues + Graded(items[last], verdict.issues, overrides),
                 before.normal + if verdict.normal then [items[last]] else [])
  }

  predicate IsLinux(project: Project, data: map<string, Json>, serverType: string) {
    project.Servers? &&
    (Lower(serverType) == "linux" ||
     ("system_info" in data && data["system_info"].JObject? &&
      var uname := Lower(Text(Get(data["system_info"], "uname", NO_TEXT)));
      |uname| >= 6 && uname[..6] == "linux "))
  }

  /** A server is taken for Linux by its recorded type, or by what its kernel calls itself. */
  lemma LinuxReads(project: Project, data: map<string, Json>, serverType: string)
    ensures IsLinux(project, data, serverType) ==> project == Servers
    ensures project == Servers && Lower(serverType) == "linux" ==> IsLinux(project, data, serverType)
    ensures IsLinux(project, data, serverType) && Lower(serverType) != "linux" ==>
              && "system_info" in data && data["system_info"].JObject? && "uname" in data["system_info"].fields
              && "linux " <= Lower(Text(data["system_info"].fields["uname"]))
  {
    assert Lower("") == "";
  }

  /** A selection without repetitions and unknown names is judged as it stands, in its order. */
  lemma {:induction false} SelectionIsKept(selected: seq<string>, rules: set<string>)
    requires forall i :: 0 <= i < |selected| ==> selected[i] in rules
    requires forall i, j :: 0 <= i < j < |selected| ==> selected[i] != selected[j]
    ensures Dedupe(selected, rules) == selected
  {
    if selected != [] {
      var last := |selected| - 1;
      SelectionIsKept(selected[..last], rules);
      assert selected == selected[..last] + [selected[last]];
      assert selected[last] !in selected[..last];
    }
  }

  /** One collection and how it is to be judged; `success` is the status of the run. */
  datatype Run = Run(
    project: Project, selected: seq<string>, data: map<string, Json>, reachable: bool, success: bool,
    overrides: map<string, Severity>, thresholds: map<string, real>, serverType: string)

  function DeviceOf(r: Run): (d: Device)
    ensures r.project.Networks? ==> "traffic" in d.limits
  {
    Device(r.project, r.data, MetricDefaults(r.project) + r.thresholds, IsLinux(r.project, r.data, r.serverType))
  }

  function ItemsOf(r: Run): (items: seq<string>)
    ensures forall item :: item in items <==> item in r.selected && item in Rules(r.project)
    ensures "traffic" in items ==> "traffic" in DeviceOf(r).limits
  {
    Dedupe(r.selected, Rules(r.project))
  }

  ghost function Evaluated(r: Run): (e: Evaluation) {
    if !r.reachable then Evaluation([Grade(COLLECTION, false, r.overrides)], [])
    else
      var e := Judged(DeviceOf(r), ItemsOf(r), r.overrides);
      CollectionComesFirst(DeviceOf(r), ItemsOf(r), r.overrides);
      if !r.success && e.issues == [] then Evaluation([Grade(COLLECTION, false, r.overrides)], e.normal[1..]) else e
  }

  method JudgeItems(d: Device, items: seq<string>, overrides: map<string, Severity>)
    returns (issues: seq<Issue>, normal: seq<string>)
    requires "traffic" in items ==> "traffic" in d.limits
    ensures Evaluation(issues, normal) == Judged(d, items, overrides)
  {
    issues, normal := [], [COLLECTION];
    for i := 0 to |items|
      invariant Evaluation(issues, normal) == Judged(d, items[..i], overrides)
    {
      assert items[..i + 1][..i] == items[..i];
      var verdict := Judge(d, items[i]);
      issues := issues + Graded(items[i], verdict.issues, overrides);
      if verdict.normal {
        normal := normal + [items[i]];
      }
    }
    assert items[..|items|] == items;
  }

  method EvaluateDeviceIssues(r: Run) returns (issues: seq<Issue>, normal: seq<string>)
    ensures Evaluation(issues, normal) == Evaluated(r)
  {
    if !r.reachable {
      return [Grade(COLLECTION, false, r.overrides)], [];
    }
    var items := ItemsOf(r);
    var d := DeviceOf(r);
    issues, normal := JudgeItems(d, items, r.overrides);
    if !r.success && issues == [] {
      CollectionComesFirst(d, items, r.overrides);
      normal := normal[1..];
      issues := issues + [Grade(COLLECTION, false, r.overrides)];
    }
  }

  lemma {:induction false} CollectionComesFirst(d: Device, items: seq<string>, overrides: map<string, Severity>)
    requires "traffic" in items ==> "traffic" in d.limits
    ensures Judged(d, items, overrides).normal != [] && Judged(d, items, overrides).normal[0] == COLLECTION
  {
    if items != [] {
      CollectionComesFirst(d, items[..|items| - 1], overrides);
    }
  }

  ghost predicate HasIssue(issues: seq<Issue>, item: string) {
    exists i :: 0 <= i < |issues| && issues[i].item == item
  }

  lemma {:induction false} JudgedMembers(d: Device, items: seq<string>, overrides: map<string, Severity>, item: string)
    requires "traffic" in items ==> "traffic" in d.limits
    ensures HasIssue(Judged(d, items, overrides).issues, item) <==> item in items && Judge(d, item).issues != []
    ensures item in Judged(d, items, overrides).normal <==>
              item == COLLECTION || (item in items && Judge(d, item).normal)
  {
    if items != [] {
      var last := |items| - 1;
      var front := items[..last];
      JudgedMembers(d, front, overrides, item);
      assert items == front + [items[last]];
      var before, after := Judged(d, front, overrides), Judged(d, items, overrides);
      var added := Graded(items[last], Judge(d, items[last]).issues, overrides);
      assert HasIssue(after.issues, item) <==> HasIssue(before.issues, item) || HasIssue(added, item) by {
        HasIssueConcat(before.issues, added, item);
      }
      assert HasIssue(added, item) <==> item == items[last] && added != [] by {
        if added != [] { assert added[0].item == items[last]; }
      }
    }
  }

  lemma HasIssueConcat(a: seq<Issue>, b: seq<Issue>, item: string)
    ensures HasIssue(a + b, item) <==> HasIssue(a, item) || HasIssue(b, item)
  {
    if HasIssue(a, item) {
      var i :| 0 <= i < |a| && a[i].item == item;
      assert (a + b)[i].item == item;
    }
    if HasIssue(b, item) {
      var i :| 0 <= i < |b| && b[i].item == item;
      assert (a + b)[|a| + i].item == item;
    }
  }

  /** Giving up on the collection changes no verdict: it happens only when there is no issue at all. */
  lemma CollectionFailureIsApart(e: Evaluation, overrides: map<string, Severity>, item: string)
    requires e.issues == [] && e.normal != [] && e.normal[0] == COLLECTION && item != COLLECTION
    ensures !HasIssue([Grade(COLLECTION, false, overrides)], item)
    ensures item in e.normal[1..] <==> item in e.normal
  {
    assert e.normal == [e.normal[0]] + e.normal[1..];
  }

  /** A threshold of one's own replaces the limit of an item; without one the default stands. */
  lemma LimitsRead(r: Run, item: string)
    ensures item in r.thresholds ==> item in DeviceOf(r).limits && DeviceOf(r).limits[item] == r.thresholds[item]
    ensures item !in r.thresholds ==>
              (item in DeviceOf(r).limits <==> item in MetricDefaults(r.project))
              && (item in DeviceOf(r).limits ==> DeviceOf(r).limits[item] == MetricDefaults(r.project)[item])
  {
  }

  lemma GradedMembers(item: string, marks: seq<bool>, overrides: map<string, Severity>, issue: Issue)
    ensures issue in Graded(item, marks, overrides) <==>
              exists mark :: mark in marks && issue == Grade(item, mark, overrides)
  {
    var graded := Graded(item, marks, overrides);
    if issue in graded {
      var i :| 0 <= i < |graded| && graded[i] == issue;
      assert marks[i] in marks;
    }
    if mark :| mark in marks && issue == Grade(item, mark, overrides) {
      var i :| 0 <= i < |marks| && marks[i] == mark;
      assert graded[i] == issue;
    }
  }

  /** The issues of an item are its graded marks. */
  lemma {:induction false} JudgedIssues(d: Device, items: seq<string>, overrides: map<string, Severity>, issue: Issue)
    requires "traffic" in items ==> "traffic" in d.limits
    ensures issue in Judged(d, items, overrides).issues <==>
              && issue.item in items
              && exists mark :: mark in Judge(d, issue.item).issues && issue == Grade(issue.item, mark, overrides)
  {
    if items != [] {
      var last := |items| - 1;
      JudgedIssues(d, items[..last], overrides, issue);
      assert items == items[..last] + [items[last]];
      GradedMembers(items[last], Judge(d, items[last]).issues, overrides, issue);
    }
  }

  /**
   What is said of the collection itself: an unreachable device fails it and nothing else is judged; a run
   that was not a success is flagged somewhere, if nowhere else then there; and a success is normal.
   */
  lemma CollectionReads(r: Run)
    ensures !r.reachable ==> Evaluated(r) == Evaluation([Grade(COLLECTION, false, r.overrides)], [])
    ensures r.reachable && !r.success ==> Evaluated(r).issues != []
    ensures r.reachable && !r.success && COLLECTION !in r.selected ==>
              (HasIssue(Evaluated(r).issues, COLLECTION) <==>
                 forall item :: item in ItemsOf(r) ==> Judge(DeviceOf(r), item).issues == [])
    ensures r.reachable && r.success ==> COLLECTION in Evaluated(r).normal
    ensures r.reachable && r.success && COLLECTION !in r.selected ==> !HasIssue(Evaluated(r).issues, COLLECTION)
  {
    if r.reachable {
      var d, items := DeviceOf(r), ItemsOf(r);
      var e := Judged(d, items, r.overrides);
      CollectionComesFirst(d, items, r.overrides);
      JudgedMembers(d, items, r.overrides, COLLECTION);
      NoIssueAtAll(d, items, r.overrides);
      assert [Grade(COLLECTION, false, r.overrides)][0].item == COLLECTION;
    }
  }

  lemma NoIssueAtAll(d: Device, items: seq<string>, overrides: map<string, Severity>)
    requires "traffic" in items ==> "traffic" in d.limits
    ensures Judged(d, items, overrides).issues == [] <==> forall item :: item in items ==> Judge(d, item).issues == []
  {
    var issues := Judged(d, items, overrides).issues;
    forall item ensures HasIssue(issues, item) <==> item in items && Judge(d, item).issues != [] {
      JudgedMembers(d, items, overrides, item);
    }
    if issues != [] {
      assert HasIssue(issues, issues[0].item);
    }
  }

  /** Every selected item of a reachable device is flagged or reported normal, and never both. */
  lemma EachSelectedItemLandsOnce(r: Run, item: string)
    requires r.reachable && item in r.selected && item in Rules(r.project) && item != COLLECTION
    ensures HasIssue(Evaluated(r).issues, item) <==> item !in Evaluated(r).normal
  {
    var d, items := DeviceOf(r), ItemsOf(r);
    var e := Judged(d, items, r.overrides);
    JudgedMembers(d, items, r.overrides, item);
    VerdictIsExclusive(d, item);
    CollectionComesFirst(d, items, r.overrides);
    if !r.success && e.issues == [] {
      CollectionFailureIsApart(e, r.overrides, item);
    }
  }

  /** Why the collection item must not be selectable: without evidence it lands in both lists. */
  lemma SelectedCollectionLandsTwice(r: Run)
    requires r.reachable && COLLECTION in r.selected && COLLECTION !in r.data
    ensures HasIssue(Evaluated(r).issues, COLLECTION) && COLLECTION in Evaluated(r).normal
  {
    CollectionIsMissing(DeviceOf(r));
    assert COLLECTION in Rules(r.project);
    JudgedMembers(DeviceOf(r), ItemsOf(r), r.overrides, COLLECTION);
  }

  lemma CollectionIsMissing(d: Device)
    requires COLLECTION !in d.data
    ensures Judge(d, COLLECTION) == Verdict([true], false)
  {
    assert COLLECTION[0] == 'i';
  }

  // ---------------------------------------------------------------------------------------
  // Findings of a persisted run
  // ---------------------------------------------------------------------------------------

  datatype Status = Success | PartialRun | FailedRun | Cancelled

  /** What the target's persisted snapshot holds: itemised, older without normal items, or no result at all. */
  datatype Snapshot =
    | Itemised(issues: seq<Issue>, normal: seq<string>, status: Status)
    | Legacy(issues: seq<Issue>, status: Status)
    | NoResult(status: Status)

  function SeverityText(severity: Severity): string {
    match severity case Info => "info" case Warning => "warning" case Critical => "critical"
  }

  function ItemKey(item: string): string {
    if item == COLLECTION then "inspection.collection" else "inspection." + item
  }

  function IssueFinding(key: string, issue: Issue): RawFinding {
    RawFinding(key, SeverityText(issue.severity), issue.item, "",
               if issue.severity.Info? then "unknown" else "abnormal")
  }

  function NormalFinding(key: string, item: string): RawFinding {
    RawFinding(key, "info", item, "", "normal")
  }

  function CollectionFailure(): RawFinding {
    RawFinding("inspection.collection", "critical", "Infrastructure collection", "", "abnormal")
  }

  /** The first issue of the highest rank. */
  function Worst(issues: seq<Issue>): (issue: Issue)
    requires issues != []
    ensures issue in issues
    ensures forall i :: 0 <= i < |issues| ==>
              SeverityRank(SeverityText(issues[i].severity)) <= SeverityRank(SeverityText(issue.severity))
  {
    if |issues| == 1 then issues[0]
    else
      var rest := Worst(issues[1..]);
      if SeverityRank(SeverityText(rest.severity)) > SeverityRank(SeverityText(issues[0].severity))
      then rest else issues[0]
  }

  function FailedItems(issues: seq<Issue>): (items: set<string>)
    ensures forall item :: item in items <==> HasIssue(issues, item)
  {
    set i | 0 <= i < |issues| :: issues[i].item
  }

  ghost function IssueFindings(issues: seq<Issue>): (findings: seq<RawFinding>) {
    seq(|issues|, i requires 0 <= i < |issues| => IssueFinding(ItemKey(issues[i].item), issues[i]))
  }

  ghost function NormalFindings(normal: seq<string>, failed: set<string>): (findings: seq<RawFinding>) {
    if normal == [] then []
    else
      var item := normal[|normal| - 1];
      NormalFindings(normal[..|normal| - 1], failed)
      + if item in failed then [] else [NormalFinding(ItemKey(item), item)]
  }

  /** A run that did not succeed reports the collection itself, unless an issue already does. */
  predicate CollectionFailed(issues: seq<Issue>, status: Status) {
    !status.Success? && COLLECTION !in FailedItems(issues)
  }

  ghost function Findings(s: Snapshot): (findings: seq<RawFinding>) {
    match s
    case Itemised(issues, normal, status) =>
      if CollectionFailed(issues, status) then
        IssueFindings(issues) + [CollectionFailure()] + NormalFindings(normal, FailedItems(issues) + {COLLECTION})
      else IssueFindings(issues) + NormalFindings(normal, FailedItems(issues))
    case Legacy(issues, status) =>
      if issues != [] then [IssueFinding("inspection.collection", Worst(issues))]
      else if status.Success? then [NormalFinding("inspection.collection", "Infrastructure collection")]
      else [CollectionFailure()]
    case NoResult(status) =>
      if status.FailedRun? || status.PartialRun?
      then [RawFinding("execution.failure", "critical", "Target execution failed", "", "abnormal")] else []
  }

  /** An older result without issues speaks for the collection as a whole. */
  lemma OlderResultRead(status: Status)
    ensures Findings(Legacy([], status)) ==
            [RawFinding("inspection.collection", if status.Success? then "info" else "critical",
                        "Infrastructure collection", "", if status.Success? then "normal" else "abnormal")]
  {
  }

  /** With issues it is the collection's finding of the worst of them. */
  lemma OlderIssuesRead(issues: seq<Issue>, status: Status) returns (issue: Issue)
    requires issues != []
    ensures issue in issues && Findings(Legacy(issues, status)) == [IssueFinding("inspection.collection", issue)]
    ensures forall other :: other in issues && other.severity.Critical? ==> issue.severity.Critical?
    ensures forall other :: other in issues && other.severity.Warning? ==> !issue.severity.Info?
  {
    issue := Worst(issues);
  }

  /** Without a result a failed or partial target speaks for its execution. */
  lemma NoResultRead(status: Status)
    ensures Findings(NoResult(status)) ==
            if status == FailedRun || status == PartialRun
            then [RawFinding("execution.failure", "critical", "Target execution failed", "", "abnormal")] else []
  {
  }

  lemma MoreFailedItems(issues: seq<Issue>, i: nat)
    requires i < |issues|
    ensures FailedItems(issues[..i + 1]) == FailedItems(issues[..i]) + {issues[i].item}
  {
    assert forall k :: 0 <= k < i ==> issues[..i + 1][k] == issues[..i][k];
    assert issues[..i + 1][i] == issues[i];
  }

  lemma OneMoreFinding(issues: seq<Issue>, i: nat)
    requires i < |issues|
    ensures IssueFindings(issues[..i + 1]) ==
            IssueFindings(issues[..i]) + [IssueFinding(ItemKey(issues[i].item), issues[i])]
  {
  }

  method CollectIssues(issues: seq<Issue>) returns (findings: seq<RawFinding>, failedItems: set<string>)
    ensures findings == IssueFindings(issues) && failedItems == FailedItems(issues)
  {
    findings, failedItems := [], {};
    for i := 0 to |issues|
      invariant findings == IssueFindings(issues[..i]) && failedItems == FailedItems(issues[..i])
    {
      MoreFailedItems(issues, i);
      OneMoreFinding(issues, i);
      failedItems := failedItems + {issues[i].item};
      findings := findings + [IssueFinding(ItemKey(issues[i].item), issues[i])];
    }
    assert issues[..|issues|] == issues;
  }

  method CollectNormal(normal: seq<string>, failedItems: set<string>) returns (findings: seq<RawFinding>)
    ensures findings == NormalFindings(normal, failedItems)
  {
    findings := [];
    for i := 0 to |normal|
      invariant findings == NormalFindings(normal[..i], failedItems)
    {
      assert normal[..i + 1][..i] == normal[..i];
      if normal[i] !in failedItems {
        findings := findings + [NormalFinding(ItemKey(normal[i]), normal[i])];
      }
    }
    assert normal[..|normal|] == normal;
  }

  method ItemisedFindings(issues: seq<Issue>, normal: seq<string>, status: Status) returns (findings: seq<RawFinding>)
    ensures findings == Findings(Itemised(issues, normal, status))
  {
    var failedItems;
    findings, failedItems := CollectIssues(issues);
    if !status.Success? && COLLECTION !in failedItems {
      failedItems := failedItems + {COLLECTION};
      findings := findings + [CollectionFailure()];
    }
    var clean := CollectNormal(normal, failedItems);
    findings := findings + clean;
  }

  method FindingsForTarget(s: Snapshot) returns (findings: seq<RawFinding>)
    ensures findings == Findings(s)
  {
    match s
    case Itemised(issues, normal, status) =>
      findings := ItemisedFindings(issues, normal, status);
    case Legacy(issues, status) =>
      if issues != [] {
        findings := [IssueFinding("inspection.collection", Worst(issues))];
      } else if status.Success? {
        findings := [NormalFinding("inspection.collection", "Infrastructure collection")];
      } else {
        findings := [CollectionFailure()];
      }
    case NoResult(status) =>
      findings := [];
      if status.FailedRun? || status.PartialRun? {
        findings := [RawFinding("execution.failure", "critical", "Target execution failed", "", "abnormal")];
      }
  }

  // ---------------------------------------------------------------------------------------
  // No recovery without evidence
  // ---------------------------------------------------------------------------------------

  lemma {:induction false} NormalFindingsAreClean(normal: seq<string>, failed: set<string>, f: RawFinding)
    requires f in NormalFindings(normal, failed)
    ensures exists item :: item in normal && item !in failed && f == NormalFinding(ItemKey(item), item)
  {
    var last := normal[|normal| - 1];
    if f in NormalFindings(normal[..|normal| - 1], failed) {
      NormalFindingsAreClean(normal[..|normal| - 1], failed, f);
      var item :| item in normal[..|normal| - 1] && item !in failed && f == NormalFinding(ItemKey(item), item);
      assert item in normal;
    } else {
      assert last in normal && last !in failed && f == NormalFinding(ItemKey(last), last);
    }
  }

  /** The text after "inspection." tells items apart, so a key names one item. */
  lemma ItemKeysAreInjective(a: string, b: string)
    requires a != "collection" && b != "collection" && ItemKey(a) == ItemKey(b)
    ensures a == b
  {
    var prefix := "inspection.";
    assert (prefix + a)[|prefix|..] == a && (prefix + b)[|prefix|..] == b;
    assert (prefix + "collection")[|prefix|..] == "collection";
  }

  /** The item lists a snapshot may hold: rule names, none of which is the bare word "collection". */
  ghost predicate RuleItems(issues: seq<Issue>, normal: seq<string>) {
    && (forall i :: 0 <= i < |issues| ==> issues[i].item != "collection")
    && (forall i :: 0 <= i < |normal| ==> normal[i] != "collection")
  }

  ghost predicate SaysNormal(f: RawFinding) {
    f.RawFinding? && ParseState(f.state) == Some(Normal)
  }

  lemma OthersAreNotNormal(issues: seq<Issue>, f: RawFinding)
    requires f in IssueFindings(issues) || f == CollectionFailure()
    ensures !SaysNormal(f)
  {
    PlainStates();
    if f in IssueFindings(issues) {
      var i :| 0 <= i < |issues| && f == IssueFinding(ItemKey(issues[i].item), issues[i]);
    }
  }

  /** The finding stands for an item that was reported normal and has no issue. */
  ghost predicate NamesCleanItem(issues: seq<Issue>, normal: seq<string>, status: Status, f: RawFinding, item: string) {
    && item in normal && !HasIssue(issues, item) && f.RawFinding? && f.key == ItemKey(item)
    && (item == COLLECTION ==> status.Success?)
  }

  /** The items whose normal report is dropped. */
  function Dropped(issues: seq<Issue>, status: Status): (items: set<string>)
    ensures forall item :: HasIssue(issues, item) ==> item in items
    ensures COLLECTION !in items ==> status.Success?
  {
    FailedItems(issues) + if CollectionFailed(issues, status) then {COLLECTION} else {}
  }

  lemma ItemisedParts(issues: seq<Issue>, normal: seq<string>, status: Status, f: RawFinding)
    requires f in Findings(Itemised(issues, normal, status))
    ensures || f in IssueFindings(issues) || f == CollectionFailure()
            || f in NormalFindings(normal, Dropped(issues, status))
  {
    if CollectionFailed(issues, status) {
      assert Dropped(issues, status) == FailedItems(issues) + {COLLECTION};
    } else {
      assert Dropped(issues, status) == FailedItems(issues);
    }
  }

  lemma ItemisedNormalIsClean(issues: seq<Issue>, normal: seq<string>, status: Status, f: RawFinding)
    requires f in Findings(Itemised(issues, normal, status)) && SaysNormal(f)
    ensures exists item :: NamesCleanItem(issues, normal, status, f, item)
  {
    ItemisedParts(issues, normal, status, f);
    if f in IssueFindings(issues) || f == CollectionFailure() {
      OthersAreNotNormal(issues, f);
    }
    NormalFindingsAreClean(normal, Dropped(issues, status), f);
    var item :| item in normal && item !in Dropped(issues, status) && f == NormalFinding(ItemKey(item), item);
    assert NamesCleanItem(issues, normal, status, f, item);
  }

  /**
   A normal finding of an inspection run names an item that was reported normal and has no issue,
   and the collection itself is reported normal only by a successful run.
   */
  lemma NormalFindingNeedsACleanItem(s: Snapshot, f: RawFinding)
    requires f in Findings(s) && SaysNormal(f)
    ensures s.Itemised? ==> exists item :: NamesCleanItem(s.issues, s.normal, s.status, f, item)
    ensures s.Legacy? ==> f.key == "inspection.collection" && s.issues == [] && s.status.Success?
    ensures !s.NoResult?
  {
    if s.Itemised? {
      ItemisedNormalIsClean(s.issues, s.normal, s.status, f);
    } else {
      PlainStates();
    }
  }

  /** A run that did not succeed never yields a normal collection finding, whatever its snapshot says. */
  lemma FailedRunNeverClearsCollection(s: Snapshot, f: RawFinding)
    requires f in Findings(s) && f.RawFinding? && !s.status.Success?
    requires s.Itemised? ==> RuleItems(s.issues, s.normal)
    requires f.key == "inspection.collection"
    ensures !SaysNormal(f)
  {
    if SaysNormal(f) {
      NormalFindingNeedsACleanItem(s, f);
      if s.Itemised? {
        var item :| NamesCleanItem(s.issues, s.normal, s.status, f, item);
        ItemKeysAreInjective(item, COLLECTION);
      }
    }
  }

  lemma FindingsComeFromRaw(raws: seq<RawFinding>, key: string)
    requires key in Grouped(raws) && Grouped(raws)[key].state.Normal?
    ensures exists f :: f in raws && SaysNormal(f) && Cut(Strip(f.key), 191) == key
  {
    AbnormalEvidenceWins(raws, key);
    var g := Grouped(raws)[key];
    var i :| 0 <= i < |raws| && FindingDict(raws[i]) == Some(g);
    assert raws[i] in raws;
  }

  /** Item names as the rules have them: no surrounding blanks, and short enough to be kept whole. */
  ghost predicate PlainItem(item: string) {
    item != "" && !IsSpace(item[|item| - 1]) && |item| <= 180
  }

  lemma PlainKeysAreKept(item: string)
    requires PlainItem(item)
    ensures Cut(Strip(ItemKey(item)), 191) == ItemKey(item)
  {
    var key := ItemKey(item);
    assert |key| <= 191 && key[0] == 'i' && key[|key| - 1] == (if item == COLLECTION then 'n' else item[|item| - 1]);
  }

  /** What was reported normal by an evaluation was judged clean on a reachable device. */
  lemma NormalItemsAreJudgedClean(r: Run, item: string)
    requires item != COLLECTION && item in Evaluated(r).normal
    ensures r.reachable && item in Rules(r.project) && IsClean(DeviceOf(r), item)
  {
    var d, items := DeviceOf(r), ItemsOf(r);
    CollectionComesFirst(d, items, r.overrides);
    assert item in Judged(d, items, r.overrides).normal;
    JudgedMembers(d, items, r.overrides, item);
    VerdictIsExclusive(d, item);
  }

  ghost predicate IsClean(d: Device, item: string) {
    (item == "traffic" ==> item in d.limits) && Judge(d, item) == Verdict([], true)
  }

  /** At least one plausible reading, and none of them above the limit. */
  ghost predicate MetricInOrder(item: string, evidence: Json, limit: real) {
    && (exists v: real :: IsReading(item, evidence, v) && Plausible(item, v))
    && (forall v: real :: IsReading(item, evidence, v) && Plausible(item, v) ==> v <= limit)
  }

  lemma MetricInOrderExactly(item: string, evidence: Json, limit: real)
    ensures MetricInOrder(item, evidence, limit) <==>
            MetricValues(item, evidence) != [] && !AnyAbove(MetricValues(item, evidence), limit)
  {
    var values := MetricValues(item, evidence);
    forall v: real ensures v in values <==> IsReading(item, evidence, v) && Plausible(item, v) {
      MetricValuesAreReadings(item, evidence, v);
    }
    if values != [] {
      assert values[0] in values;
    }
    if AnyAbove(values, limit) {
      var i :| 0 <= i < |values| && values[i] > limit;
      assert values[i] in values;
    }
    if v: real :| v in values && v > limit {
      var i :| 0 <= i < |values| && values[i] == v;
    }
  }

  /** Complete records, and no access point among them whose state is not a healthy one. */
  ghost predicate RecordsInOrder(item: string, evidence: Json) {
    && evidence.JObject? && "records" in evidence.fields && evidence.fields["records"].JList?
    && !("status" in evidence.fields && IsText(evidence.fields["status"], "partial"))
    && (item == "wireless_aps" ==>
          forall i :: 0 <= i < |evidence.fields["records"].items| ==>
            ApState(evidence.fields["records"].items[i]) in HEALTHY_AP)
  }

  lemma StatesAreApart(state: string)
    ensures !(state in HEALTHY_AP && state in OFFLINE_AP)
  {
  }

  lemma AccessPointsInOrder(rows: seq<Json>)
    ensures (forall i :: 0 <= i < |rows| ==> ApState(rows[i]) in HEALTHY_AP) <==>
            && RowsWhere(rows, (row: Json) => ApState(row) in OFFLINE_AP) == []
            && RowsWhere(rows, (row: Json) => ApState(row) !in HEALTHY_AP + OFFLINE_AP) == []
  {
    forall i | 0 <= i < |rows|
      ensures ApState(rows[i]) in HEALTHY_AP <==>
              ApState(rows[i]) !in OFFLINE_AP && ApState(rows[i]) in HEALTHY_AP + OFFLINE_AP
    {
      StatesAreApart(ApState(rows[i]));
    }
  }

  lemma RecordsInOrderExactly(item: string, evidence: Json)
    ensures RecordsInOrder(item, evidence) <==> JudgeFunctionItem(item, evidence).normal
  {
    var records := Get(evidence, "records", JNull);
    if records.JList? {
      AccessPointsInOrder(records.items);
    }
  }

  /** The services of a Windows server: all could be read, and none that should run is stopped. */
  ghost predicate ServicesInOrder(d: Device, rows: seq<Json>) {
    !RestrictedServices(d) && forall i :: 0 <= i < |rows| ==> !StoppedAutomatic(rows[i])
  }

  /** What has to be in the collected data for an item to be in order, condition by condition. */
  ghost predicate HasEvidence(d: Device, item: string) {
    && item in d.data && !d.data[item].JNull?
    && (item == "config_info" ==> !IsText(Get(d.data[item], "status", JNull), "unsupported"))
    && if item == "traffic" then item in d.limits && CompleteTraffic(d.data[item], d.limits[item])
       else
         && !ExplicitFailure(d.data[item])
         && (d.project.Servers? && !d.linux && item == "services" && d.data[item].JList? ==>
               ServicesInOrder(d, d.data[item].items))
         && if LinuxList(d, item) then d.data[item].items == []
            else if item in d.limits then MetricInOrder(item, d.data[item], d.limits[item])
            else if d.project.Networks? && item in NETWORK_FUNCTION_ITEMS then RecordsInOrder(item, d.data[item])
            else item == "interface_status" && d.data[item].JObject? ==>
                   forall i :: 0 <= i < |ListIn(d.data[item], "interfaces")| ==>
                     !DownInterface(ListIn(d.data[item], "interfaces")[i])
  }

  lemma CompleteTrafficExactly(evidence: Json, limit: real)
    ensures CompleteTraffic(evidence, limit) <==> JudgeTraffic(evidence, limit).normal
  {
    if JudgeTraffic(evidence, limit).normal {
      NormalTrafficIsComplete(evidence, limit);
    }
    if CompleteTraffic(evidence, limit) {
      var rows := ListIn(evidence, "interfaces");
      assert RowsWhere(rows, KnownInterface) == rows;
      AllUtilizations(rows);
    }
  }

  lemma {:induction false} AllUtilizations(rows: seq<Json>)
    requires forall i :: 0 <= i < |rows| ==> MetricValue(Get(rows[i], "utilization_percent", JNull)).Some?
    ensures |Utilizations(rows)| == |rows|
  {
    if rows != [] {
      AllUtilizations(rows[1..]);
    }
  }

  /** The branches of the item loop amount to exactly those conditions: an item is clean if and only if they hold. */
  lemma CleanExactly(d: Device, item: string)
    requires item == "traffic" ==> item in d.limits
    ensures IsClean(d, item) <==> HasEvidence(d, item)
  {
    VerdictIsExclusive(d, item);
    if item in d.data {
      RecordsInOrderExactly(item, d.data[item]);
      if item in d.limits {
        MetricInOrderExactly(item, d.data[item], d.limits[item]);
        CompleteTrafficExactly(d.data[item], d.limits[item]);
      }
    }
  }

  // ---------------------------------------------------------------------------------------
  // The items an administrator has enabled for alerts (net/inspections/executor.py:357-360)
  // ---------------------------------------------------------------------------------------

  function EnabledIssues(issues: seq<Issue>, enabled: set<string>): (kept: seq<Issue>)
    ensures forall issue :: issue in kept <==> issue in issues && issue.item in enabled
  {
    if issues == [] then []
    else (if issues[0].item in enabled then [issues[0]] else []) + EnabledIssues(issues[1..], enabled)
  }

  function EnabledItems(items: seq<string>, enabled: set<string>): (kept: seq<string>)
    ensures forall item :: item in kept <==> item in items && item in enabled
  {
    if items == [] then []
    else (if items[0] in enabled then [items[0]] else []) + EnabledItems(items[1..], enabled)
  }

  /** What is persisted of an evaluation, and its findings: without a list every item is enabled. */
  function Persisted(e: Evaluation, enabled: Option<set<string>>, status: Status): (s: Snapshot) {
    match enabled
    case None => Itemised(e.issues, e.normal, status)
    case Some(items) => Itemised(EnabledIssues(e.issues, items), EnabledItems(e.normal, items), status)
  }

  // ---------------------------------------------------------------------------------------
  // End to end
  // ---------------------------------------------------------------------------------------

  /** A key that comes out of the grouping as normal stands for an item that was reported normal. */
  lemma NormalKeyNamesANormalItem(s: Snapshot, item: string)
    requires s.Itemised? && PlainItem(item) && item != "collection"
    requires forall i :: 0 <= i < |s.normal| ==> PlainItem(s.normal[i]) && s.normal[i] != "collection"
    requires ItemKey(item) in Grouped(Findings(s)) && Grouped(Findings(s))[ItemKey(item)].state.Normal?
    ensures item in s.normal
  {
    FindingsComeFromRaw(Findings(s), ItemKey(item));
    var f :| f in Findings(s) && SaysNormal(f) && Cut(Strip(f.key), 191) == ItemKey(item);
    NormalFindingNeedsACleanItem(s, f);
    var clean :| NamesCleanItem(s.issues, s.normal, s.status, f, clean);
    PlainKeysAreKept(clean);
    ItemKeysAreInjective(clean, item);
  }

  /** The normal items of a persisted evaluation are rule names. */
  lemma PersistedItemsArePlain(r: Run, enabled: Option<set<string>>, status: Status)
    ensures var s := Persisted(Evaluated(r), enabled, status);
            forall i :: 0 <= i < |s.normal| ==> PlainItem(s.normal[i]) && s.normal[i] != "collection"
  {
    var s := Persisted(Evaluated(r), enabled, status);
    forall i | 0 <= i < |s.normal| ensures PlainItem(s.normal[i]) && s.normal[i] != "collection" {
      assert s.normal[i] in Evaluated(r).normal by {
        assert s.normal[i] in s.normal;
      }
      if s.normal[i] != COLLECTION {
        NormalItemsAreJudgedClean(r, s.normal[i]);
      }
      RulesArePlain(r.project, s.normal[i]);
    }
  }

  /**
   Evaluate a device, persist the result, derive its findings and group them. If the key of an item
   comes out normal, then the device was reachable and that item was judged clean, on evidence: a
   metric item had values and none above its limit.
   */
  lemma NoRecoveryWithoutEvidence(r: Run, enabled: Option<set<string>>, status: Status, item: string)
    requires r.success == status.Success? && item in Rules(r.project) && item != COLLECTION
    requires var raws := Findings(Persisted(Evaluated(r), enabled, status));
             ItemKey(item) in Grouped(raws) && Grouped(raws)[ItemKey(item)].state.Normal?
    ensures r.reachable && IsClean(DeviceOf(r), item) && HasEvidence(DeviceOf(r), item)
    ensures enabled.Some? ==> item in enabled.value
  {
    PersistedItemsArePlain(r, enabled, status);
    RulesArePlain(r.project, item);
    NormalKeyNamesANormalItem(Persisted(Evaluated(r), enabled, status), item);
    NormalItemsAreJudgedClean(r, item);
    CleanExactly(DeviceOf(r), item);
  }

  lemma {:induction false} PickedHaveEffect(states: States, scope: Scope, fs: seq<Finding>, at: int,
                                            effect: Effect, f: Finding)
    requires f in WithEffect(states, scope, fs, at, effect)
    ensures f in fs && exists s :: EffectOf(s, f, at) == effect
  {
    var last := |fs| - 1;
    if f in WithEffect(states, scope, fs[..last], at, effect) {
      PickedHaveEffect(states, scope, fs[..last], at, effect, f);
    } else {
      assert f == fs[last];
    }
  }

  /**
   End to end: whatever the alert tables hold, an item of an inspection recovers only if the device was
   reachable, the item enabled for alerts, and its evidence clean.
   */
  lemma RecoveriesHaveEvidence(r: Run, enabled: Option<set<string>>, status: Status, item: string,
                               states: States, scope: Scope, at: int, f: Finding)
    requires r.success == status.Success? && item in Rules(r.project) && item != COLLECTION
    requires var fs := Normalised(Findings(Persisted(Evaluated(r), enabled, status)));
             f in WithEffect(states, scope, fs, at, Recovered) && f.key == ItemKey(item)
    ensures r.reachable && HasEvidence(DeviceOf(r), item)
    ensures enabled.Some? ==> item in enabled.value
  {
    var raws := Findings(Persisted(Evaluated(r), enabled, status));
    PickedHaveEffect(states, scope, Normalised(raws), at, Recovered, f);
    NormalisedIsExact(raws, f);
    NoRecoveryWithoutEvidence(r, enabled, status, item);
  }

  /** An item of the rules, selected and enabled for alerts. */
  ghost predicate Watched(r: Run, enabled: Option<set<string>>, item: string) {
    && r.reachable && item in r.selected && item in Rules(r.project) && item != COLLECTION
    && (enabled.Some? ==> item in enabled.value)
  }

  /** The finding that an issue of a plain item leaves: abnormal, or unknown if it is only info. */
  lemma IssueFindingReads(issue: Issue)
    requires PlainItem(issue.item)
    ensures var f := FindingDict(IssueFinding(ItemKey(issue.item), issue));
            && f.Some? && f.value.key == ItemKey(issue.item) && f.value.severity == SeverityText(issue.severity)
            && f.value.state == if issue.severity.Info? then Unknown else Abnormal
  {
    PlainStates();
    PlainKeysAreKept(issue.item);
    PlainKeyIsNotBlank(issue.item);
    SeveritiesArePlain(issue.severity);
    PlainTitle(issue.item);
  }

  lemma NormalFindingReads(item: string)
    requires PlainItem(item)
    ensures var f := FindingDict(NormalFinding(ItemKey(item), item));
            f.Some? && f.value.key == ItemKey(item) && f.value.state == Normal
  {
    PlainStates();
    PlainKeysAreKept(item);
    PlainKeyIsNotBlank(item);
    SeveritiesArePlain(Info);
    PlainTitle(item);
  }

  lemma SeveritiesArePlain(severity: Severity)
    ensures Strip(SeverityText(severity)) == SeverityText(severity)
    ensures Cut(SeverityText(severity), 16) == SeverityText(severity)
  {
  }

  lemma PlainTitle(item: string)
    requires PlainItem(item)
    ensures Strip(item) != ""
    decreases |item|
  {
    if IsSpace(item[0]) {
      assert item[1..] != "" && item[1..][|item| - 2] == item[|item| - 1];
      PlainTitle(item[1..]);
    }
  }

  lemma PlainKeyIsNotBlank(item: string)
    requires PlainItem(item)
    ensures Strip(ItemKey(item)) == ItemKey(item) && ItemKey(item) != ""
  {
    var key := ItemKey(item);
    assert key[0] == 'i' && key[|key| - 1] == (if item == COLLECTION then 'n' else item[|item| - 1]);
  }

  /** Issues of rule items only. */
  lemma PersistedIssues(r: Run, enabled: Option<set<string>>, status: Status, issue: Issue)
    requires r.reachable && issue.item != COLLECTION
    ensures issue in Persisted(Evaluated(r), enabled, status).issues <==>
            && issue.item in ItemsOf(r) && (enabled.Some? ==> issue.item in enabled.value)
            && exists mark ::
                 mark in Judge(DeviceOf(r), issue.item).issues && issue == Grade(issue.item, mark, r.overrides)
  {
    JudgedIssues(DeviceOf(r), ItemsOf(r), r.overrides, issue);
    CollectionComesFirst(DeviceOf(r), ItemsOf(r), r.overrides);
  }

  /** An issue above info makes its key abnormal. */
  lemma IssueComesOutAbnormal(s: Snapshot, issue: Issue)
    requires s.Itemised? && issue in s.issues && PlainItem(issue.item) && !issue.severity.Info?
    ensures ItemKey(issue.item) in Grouped(Findings(s)) && Grouped(Findings(s))[ItemKey(issue.item)].state.Abnormal?
  {
    var raws, key := Findings(s), ItemKey(issue.item);
    IssueFindingReads(issue);
    var i :| 0 <= i < |s.issues| && s.issues[i] == issue;
    assert IssueFindings(s.issues)[i] == raws[i];
    assert Mentions(raws, key, FindingDict(raws[i]).value);
    AbnormalEvidenceWins(raws, key);
  }

  /** A watched item with an issue above info alerts: its key comes out abnormal. */
  lemma FlaggedItemsAlert(r: Run, enabled: Option<set<string>>, status: Status, item: string, mark: bool)
    requires r.success == status.Success? && Watched(r, enabled, item)
    requires mark in Judge(DeviceOf(r), item).issues && !Grade(item, mark, r.overrides).severity.Info?
    ensures var raws := Findings(Persisted(Evaluated(r), enabled, status));
            ItemKey(item) in Grouped(raws) && Grouped(raws)[ItemKey(item)].state.Abnormal?
  {
    var issue := Grade(item, mark, r.overrides);
    PersistedIssues(r, enabled, status, issue);
    RulesArePlain(r.project, item);
    IssueComesOutAbnormal(Persisted(Evaluated(r), enabled, status), issue);
  }

  lemma CleanItemsAreEvaluatedNormal(r: Run, item: string)
    requires Watched(r, None, item) && HasEvidence(DeviceOf(r), item)
    ensures item in Evaluated(r).normal && !HasIssue(Evaluated(r).issues, item)
  {
    var d, items := DeviceOf(r), ItemsOf(r);
    CleanExactly(d, item);
    assert Judge(d, item).normal;
    JudgedMembers(d, items, r.overrides, item);
    CollectionComesFirst(d, items, r.overrides);
    var e := Judged(d, items, r.overrides);
    if !r.success && e.issues == [] {
      CollectionFailureIsApart(e, r.overrides, item);
    }
  }

  lemma FilterKeepsIssuesApart(issues: seq<Issue>, enabled: set<string>, item: string)
    requires !HasIssue(issues, item)
    ensures !HasIssue(EnabledIssues(issues, enabled), item)
  {
    var kept := EnabledIssues(issues, enabled);
    forall i | 0 <= i < |kept| ensures kept[i].item != item {
      assert kept[i] in kept;
    }
  }

  lemma CleanItemsAreNormal(r: Run, enabled: Option<set<string>>, status: Status, item: string)
    requires Watched(r, enabled, item) && HasEvidence(DeviceOf(r), item)
    ensures var s := Persisted(Evaluated(r), enabled, status); item in s.normal && !HasIssue(s.issues, item)
  {
    CleanItemsAreEvaluatedNormal(r, item);
    if enabled.Some? {
      FilterKeepsIssuesApart(Evaluated(r).issues, enabled.value, item);
    }
  }

  lemma {:induction false} NormalFindingIsListed(normal: seq<string>, failed: set<string>, item: string)
    requires item in normal && item !in failed
    ensures NormalFinding(ItemKey(item), item) in NormalFindings(normal, failed)
  {
    var last := |normal| - 1;
    if normal[last] != item {
      assert item in normal[..last];
      NormalFindingIsListed(normal[..last], failed, item);
    }
  }

  lemma NormalFindingStands(s: Snapshot, item: string)
    requires s.Itemised? && item in s.normal && !HasIssue(s.issues, item) && item != COLLECTION
    ensures NormalFinding(ItemKey(item), item) in Findings(s)
  {
    NormalFindingIsListed(s.normal, Dropped(s.issues, s.status), item);
    if CollectionFailed(s.issues, s.status) {
      assert Dropped(s.issues, s.status) == FailedItems(s.issues) + {COLLECTION};
    } else {
      assert Dropped(s.issues, s.status) == FailedItems(s.issues);
    }
  }

  lemma CollectionFailureReads()
    ensures FindingDict(CollectionFailure()).Some? ==> FindingDict(CollectionFailure()).value.key == ItemKey(COLLECTION)
  {
    PlainKeysAreKept(COLLECTION);
  }

  lemma PersistedIssueItems(r: Run, enabled: Option<set<string>>, status: Status, issue: Issue)
    requires r.reachable && issue in Persisted(Evaluated(r), enabled, status).issues
    ensures PlainItem(issue.item) && issue.item != "collection"
  {
    if issue.item != COLLECTION {
      PersistedIssues(r, enabled, status, issue);
      RulesArePlain(r.project, issue.item);
    }
  }

  /** The items of a snapshot are rule names. */
  ghost predicate PlainIssues(issues: seq<Issue>) {
    forall i :: 0 <= i < |issues| ==> PlainItem(issues[i].item) && issues[i].item != "collection"
  }

  lemma OtherIssuesMissTheKey(issues: seq<Issue>, item: string, raw: RawFinding)
    requires PlainIssues(issues) && item != "collection" && !HasIssue(issues, item)
    requires raw in IssueFindings(issues) && FindingDict(raw).Some?
    ensures FindingDict(raw).value.key != ItemKey(item)
  {
    var i :| 0 <= i < |issues| && raw == IssueFinding(ItemKey(issues[i].item), issues[i]);
    IssueFindingReads(issues[i]);
    if ItemKey(issues[i].item) == ItemKey(item) {
      ItemKeysAreInjective(issues[i].item, item);
    }
  }

  /** Every finding for the key of an item without an issue is a normal one. */
  lemma OnlyNormalMentions(s: Snapshot, item: string, raw: RawFinding)
    requires s.Itemised? && PlainIssues(s.issues) && item !in {"collection", COLLECTION} && !HasIssue(s.issues, item)
    requires raw in Findings(s) && FindingDict(raw).Some? && FindingDict(raw).value.key == ItemKey(item)
    ensures FindingDict(raw).value.state.Normal?
  {
    ItemisedParts(s.issues, s.normal, s.status, raw);
    if raw in IssueFindings(s.issues) {
      OtherIssuesMissTheKey(s.issues, item, raw);
    } else if raw == CollectionFailure() {
      CollectionFailureReads();
      ItemKeysAreInjective(COLLECTION, item);
    } else {
      NormalFindingsAreClean(s.normal, Dropped(s.issues, s.status), raw);
      PlainStates();
    }
  }

  lemma NormalItemComesOutNormal(s: Snapshot, item: string)
    requires s.Itemised? && PlainIssues(s.issues) && PlainItem(item) && item !in {"collection", COLLECTION}
    requires item in s.normal && !HasIssue(s.issues, item)
    ensures ItemKey(item) in Grouped(Findings(s)) && Grouped(Findings(s))[ItemKey(item)].state.Normal?
  {
    var raws, key := Findings(s), ItemKey(item);
    NormalFindingStands(s, item);
    NormalFindingReads(item);
    var i :| 0 <= i < |raws| && raws[i] == NormalFinding(key, item);
    assert Mentions(raws, key, FindingDict(raws[i]).value);
    AbnormalEvidenceWins(raws, key);
    var g := Grouped(raws)[key];
    var j :| 0 <= j < |raws| && FindingDict(raws[j]) == Some(g) && g.key == key;
    assert raws[j] in raws;
    OnlyNormalMentions(s, item, raws[j]);
  }

  /** A watched item whose evidence is in order comes out normal. */
  lemma CleanItemsComeOutNormal(r: Run, enabled: Option<set<string>>, status: Status, item: string)
    requires r.success == status.Success? && Watched(r, enabled, item) && HasEvidence(DeviceOf(r), item)
    ensures var raws := Findings(Persisted(Evaluated(r), enabled, status));
            ItemKey(item) in Grouped(raws) && Grouped(raws)[ItemKey(item)].state.Normal?
  {
    var s := Persisted(Evaluated(r), enabled, status);
    CleanItemsAreNormal(r, enabled, status, item);
    RulesArePlain(r.project, item);
    forall i | 0 <= i < |s.issues| ensures PlainItem(s.issues[i].item) && s.issues[i].item != "collection" {
      PersistedIssueItems(r, enabled, status, s.issues[i]);
    }
    NormalItemComesOutNormal(s, item);
  }

  /**
   The whole way, both directions: after a run on a reachable device, the key of a watched item comes out
   normal if and only if the evidence collected for the item is in order.
   */
  lemma NormalKeyExactly(r: Run, enabled: Option<set<string>>, status: Status, item: string)
    requires r.success == status.Success? && Watched(r, enabled, item)
    ensures var raws := Findings(Persisted(Evaluated(r), enabled, status));
            (ItemKey(item) in Grouped(raws) && Grouped(raws)[ItemKey(item)].state.Normal?)
            <==> HasEvidence(DeviceOf(r), item)
  {
    var raws := Findings(Persisted(Evaluated(r), enabled, status));
    if HasEvidence(DeviceOf(r), item) {
      CleanItemsComeOutNormal(r, enabled, status, item);
    }
    if ItemKey(item) in Grouped(raws) && Grouped(raws)[ItemKey(item)].state.Normal? {
      NoRecoveryWithoutEvidence(r, enabled, status, item);
    }
  }

  lemma RulesArePlain(project: Project, item: string)
    requires item in Rules(project)
    ensures PlainItem(item) && item != "collection"
  {
    match project
    case Networks => NetworkRulesArePlain(item);
    case Servers =>
    case WeakCurrent =>
  }

  lemma NetworkRulesArePlain(item: string)
    requires item in Rules(Networks)
    ensures PlainItem(item) && item != "collection"
  {
    if item in NETWORK_FUNCTION_ITEMS {
    }
  }
}
