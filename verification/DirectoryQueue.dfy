/**
 Queueing directory work: operations and synchronisations exclude each other, active operations
 never share a target or a directory name, and each name is fenced by one scope key
 (net/domain/tasks.py:90-145, 183-324, net/domain/sync_tasks.py:12-38).

 Both kinds of enqueue lock the single configuration row first, so each is one atomic step.
 */
module DirectoryQueue {
  import opened Outcomes

  datatype Attribute = Attribute(name: string, value: string)

  /** A parsed, case-folded distinguished name: its RDNs, each a sorted list of attributes. */
  type Dn = seq<seq<Attribute>>

  // ---------------------------------------------------------------------------------------
  // Scope keys
  // ---------------------------------------------------------------------------------------

  /** Hashing and serialisation, as far as the keys depend on them. */
  datatype Digest = Digest(hash: string -> string, json: Dn -> string) {

    /** Hashing is injective and prints hexadecimal; a serialised name is a JSON array and stands for one name. */
    ghost predicate Sound() {
      && (forall a, b :: hash(a) == hash(b) ==> a == b)
      && (forall a :: hash(a) != "" && hash(a)[0] != '[' && ':' !in hash(a))
      && (forall d, e :: json(d) == json(e) ==> d == e)
      && (forall d :: json(d) != "" && json(d)[0] == '[')
    }

    function Base(dn: Dn): string { hash(json(dn)) }

    function Key(dn: Dn, ordinal: nat): (key: string) {
      if ordinal == 0 then Base(dn) else hash(Base(dn) + ":" + Decimal(ordinal))
    }
  }

  function Decimal(n: nat): (digits: string)
    ensures digits != "" && forall i :: 0 <= i < |digits| ==> '0' <= digits[i] <= '9'
  {
    var digit := ('0' as int + n % 10) as char;
    if n < 10 then [digit] else Decimal(n / 10) + [digit]
  }

  lemma {:induction false} DecimalIsInjective(m: nat, n: nat)
    requires Decimal(m) == Decimal(n)
    ensures m == n
  {
    var a, b := Decimal(m), Decimal(n);
    assert a[|a| - 1] == ('0' as int + m % 10) as char && b[|b| - 1] == ('0' as int + n % 10) as char;
    assert m % 10 == n % 10;
    if m >= 10 && n >= 10 {
      assert a[..|a| - 1] == Decimal(m / 10) && b[..|b| - 1] == Decimal(n / 10);
      DecimalIsInjective(m / 10, n / 10);
    }
  }

  lemma ColonSplits(a: string, b: string, x: string, y: string)
    requires a + ":" + x == b + ":" + y && ':' !in a && ':' !in b
    ensures a == b && x == y
  {
    var left, right := a + ":" + x, b + ":" + y;
    assert left[|a|] == ':' && right[|b|] == ':';
    assert forall k :: 0 <= k < |a| ==> left[k] == a[k] && a[k] != ':';
    assert forall k :: 0 <= k < |b| ==> right[k] == b[k] && b[k] != ':';
    assert |a| == |b|;
    assert left[..|a|] == a && right[..|b|] == b;
    assert left[|a| + 1..] == x && right[|b| + 1..] == y;
  }

  /** A scope key stands for one name and one ordinal: base keys, sibling keys and names never collide. */
  lemma KeyIsInjective(d: Digest, dn1: Dn, ordinal1: nat, dn2: Dn, ordinal2: nat)
    requires d.Sound() && d.Key(dn1, ordinal1) == d.Key(dn2, ordinal2)
    ensures dn1 == dn2 && ordinal1 == ordinal2
  {
    assert (d.Base(dn1) + ":" + Decimal(ordinal1))[0] == d.Base(dn1)[0] != '[';
    assert (d.Base(dn2) + ":" + Decimal(ordinal2))[0] == d.Base(dn2)[0] != '[';
    if ordinal1 > 0 && ordinal2 > 0 {
      ColonSplits(d.Base(dn1), d.Base(dn2), Decimal(ordinal1), Decimal(ordinal2));
      DecimalIsInjective(ordinal1, ordinal2);
    }
  }

  /** How many earlier targets of the task have the same base key. */
  function Ordinal(d: Digest, dns: seq<Dn>, i: nat): (ordinal: nat)
    requires i < |dns|
  {
    CountKey(d, dns[..i], d.Base(dns[i]))
  }

  function CountKey(d: Digest, dns: seq<Dn>, base: string): (count: nat) {
    if dns == [] then 0
    else CountKey(d, dns[..|dns| - 1], base) + if d.Base(dns[|dns| - 1]) == base then 1 else 0
  }

  function ScopeKey(d: Digest, dns: seq<Dn>, i: nat): string
    requires i < |dns|
  {
    d.Key(dns[i], Ordinal(d, dns, i))
  }

  method ExecutionScopeKeys(d: Digest, dns: seq<Dn>) returns (keys: seq<string>)
    ensures |keys| == |dns| && forall i :: 0 <= i < |dns| ==> keys[i] == ScopeKey(d, dns, i)
  {
    var seen: map<string, nat> := map[];
    keys := [];
    for i := 0 to |dns|
      invariant |keys| == i && forall k :: 0 <= k < i ==> keys[k] == ScopeKey(d, dns, k)
      invariant forall base :: CountKey(d, dns[..i], base) == if base in seen then seen[base] else 0
    {
      var base := d.Base(dns[i]);
      var ordinal := if base in seen then seen[base] else 0;
      seen := seen[base := ordinal + 1];
      assert dns[..i + 1][..i] == dns[..i];
      if ordinal > 0 {
        base := d.hash(base + ":" + Decimal(ordinal));
      }
      keys := keys + [base];
    }
  }

  lemma {:induction false} CountKeyGrows(d: Digest, dns: seq<Dn>, i: nat, j: nat, base: string)
    requires i <= j <= |dns|
    ensures CountKey(d, dns[..i], base) <= CountKey(d, dns[..j], base)
    ensures (exists k :: i <= k < j && d.Base(dns[k]) == base) ==>
              CountKey(d, dns[..i], base) < CountKey(d, dns[..j], base)
  {
    if i < j {
      assert dns[..j][..j - 1] == dns[..j - 1];
      CountKeyGrows(d, dns, i, j - 1, base);
    }
  }

  /** The keys of one task are pairwise distinct. */
  lemma ScopeKeysAreDistinct(d: Digest, dns: seq<Dn>, i: nat, j: nat)
    requires d.Sound() && i < j < |dns|
    ensures ScopeKey(d, dns, i) != ScopeKey(d, dns, j)
  {
    if ScopeKey(d, dns, i) == ScopeKey(d, dns, j) {
      KeyIsInjective(d, dns[i], Ordinal(d, dns, i), dns[j], Ordinal(d, dns, j));
      CountKeyGrows(d, dns, i, j, d.Base(dns[i]));
    }
  }

  /** The first target of a name, and no other target of the task, holds the name's base key. */
  lemma FirstTargetHoldsTheBaseKey(d: Digest, dns: seq<Dn>, i: nat)
    requires d.Sound() && i < |dns|
    ensures ScopeKey(d, dns, i) == d.Base(dns[i]) <==> dns[i] !in dns[..i]
  {
    if dns[i] in dns[..i] {
      var k :| 0 <= k < |dns[..i]| && dns[..i][k] == dns[i];
      CountKeyGrows(d, dns, 0, i, d.Base(dns[i]));
      assert dns[..0] == [];
      if ScopeKey(d, dns, i) == d.Base(dns[i]) {
        KeyIsInjective(d, dns[i], Ordinal(d, dns, i), dns[i], 0);
      }
    } else {
      NoEarlierKey(d, dns[..i], dns[i]);
    }
  }

  lemma {:induction false} NoEarlierKey(d: Digest, dns: seq<Dn>, dn: Dn)
    requires d.Sound() && dn !in dns
    ensures CountKey(d, dns, d.Base(dn)) == 0
  {
    if dns != [] {
      NoEarlierKey(d, dns[..|dns| - 1], dn);
      assert dns[|dns| - 1] in dns;
    }
  }

  // ---------------------------------------------------------------------------------------
  // The task table
  // ---------------------------------------------------------------------------------------

  datatype ObjectType = Account | Computer

  /** Stored rows have random ids; a user that does not exist yet has an id derived from its name. */
  datatype ObjectId = Stored(id: string) | Derived(dn: Dn)

  datatype Target = Target(kind: ObjectType, id: ObjectId, dn: Dn, key: string)

  datatype TaskKind = Operation(targets: seq<Target>) | Synchronisation

  datatype Task = Task(kind: TaskKind, active: bool)

  datatype Row = Row(id: ObjectId, dn: Dn)

  datatype Request = OnRows(kind: ObjectType, rows: seq<Row>) | CreateUser(dn: Dn)

  datatype Refusal = SyncIsActive | TargetIsBusy | NameIsBusy | OperationIsActive | SyncAlreadyActive

  predicate ActiveSync(tasks: seq<Task>) {
    exists i :: 0 <= i < |tasks| && tasks[i].active && tasks[i].kind.Synchronisation?
  }

  predicate ActiveOperation(tasks: seq<Task>) {
    exists i :: 0 <= i < |tasks| && tasks[i].active && tasks[i].kind.Operation?
  }

  /** The targets of all active operations, in table order. */
  function ActiveTargets(tasks: seq<Task>): (targets: seq<Target>) {
    if tasks == [] then []
    else
      var last := tasks[|tasks| - 1];
      ActiveTargets(tasks[..|tasks| - 1]) + if last.active && last.kind.Operation? then last.kind.targets else []
  }

  function RequestedRows(r: Request): seq<Row> {
    match r case OnRows(_, rows) => rows case CreateUser(dn) => [Row(Derived(dn), dn)]
  }

  function RequestedKind(r: Request): ObjectType {
    match r case OnRows(kind, _) => kind case CreateUser(_) => Account
  }

  /** A request to create a user compares names only. */
  function RequestedIds(r: Request): set<ObjectId> {
    match r case OnRows(_, rows) => (set i | 0 <= i < |rows| :: rows[i].id) case CreateUser(_) => {}
  }

  function RequestedDns(r: Request): set<Dn> {
    set i | 0 <= i < |RequestedRows(r)| :: RequestedRows(r)[i].dn
  }

  function DnsOf(rows: seq<Row>): (dns: seq<Dn>)
    ensures |dns| == |rows| && forall i :: 0 <= i < |rows| ==> dns[i] == rows[i].dn
  {
    seq(|rows|, i requires 0 <= i < |rows| => rows[i].dn)
  }

  function NewTargets(d: Digest, r: Request): (targets: seq<Target>)
    ensures |targets| == |RequestedRows(r)|
  {
    var rows := RequestedRows(r);
    seq(|rows|, i requires 0 <= i < |rows| =>
      Target(RequestedKind(r), rows[i].id, rows[i].dn, ScopeKey(d, DnsOf(rows), i)))
  }

  /** The first active target that clashes decides the refusal. */
  ghost function Overlap(targets: seq<Target>, r: Request): (refusal: Option<Refusal>) {
    if targets == [] then None
    else if targets[0].kind == RequestedKind(r) && targets[0].id in RequestedIds(r) then Some(TargetIsBusy)
    else if targets[0].dn in RequestedDns(r) then Some(NameIsBusy)
    else Overlap(targets[1..], r)
  }

  ghost function OperationRefusal(tasks: seq<Task>, r: Request): Option<Refusal> {
    if ActiveSync(tasks) then Some(SyncIsActive) else Overlap(ActiveTargets(tasks), r)
  }

  ghost function SyncRefusal(tasks: seq<Task>): Option<Refusal> {
    if ActiveOperation(tasks) then Some(OperationIsActive)
    else if ActiveSync(tasks) then Some(SyncAlreadyActive) else None
  }

  class TaskTable {
    var tasks: seq<Task>

    constructor ()
      ensures tasks == []
    {
      tasks := [];
    }

    method RejectOverlap(r: Request) returns (refusal: Option<Refusal>)
      ensures refusal == Overlap(ActiveTargets(tasks), r)
    {
      var targets := ActiveTargets(tasks);
      for i := 0 to |targets|
        invariant Overlap(targets, r) == Overlap(targets[i..], r)
      {
        var active := targets[i];
        if active.kind == RequestedKind(r) && active.id in RequestedIds(r) {
          return Some(TargetIsBusy);
        }
        if active.dn in RequestedDns(r) {
          return Some(NameIsBusy);
        }
      }
      return None;
    }

    method EnqueueOperation(d: Digest, r: Request) returns (refusal: Option<Refusal>)
      modifies this
      ensures refusal == OperationRefusal(old(tasks), r)
      ensures tasks == if refusal.None? then old(tasks) + [Task(Operation(NewTargets(d, r)), true)] else old(tasks)
    {
      if ActiveSync(tasks) {
        return Some(SyncIsActive);
      }
      refusal := RejectOverlap(r);
      if refusal.Some? {
        return;
      }
      var rows := RequestedRows(r);
      var keys := ExecutionScopeKeys(d, DnsOf(rows));
      var targets := [];
      for i := 0 to |rows|
        invariant targets == NewTargets(d, r)[..i]
      {
        targets := targets + [Target(RequestedKind(r), rows[i].id, rows[i].dn, keys[i])];
      }
      assert targets == NewTargets(d, r);
      tasks := tasks + [Task(Operation(targets), true)];
    }

    method EnqueueSync() returns (refusal: Option<Refusal>)
      modifies this
      ensures refusal == SyncRefusal(old(tasks))
      ensures tasks == if refusal.None? then old(tasks) + [Task(Synchronisation, true)] else old(tasks)
    {
      if ActiveOperation(tasks) {
        return Some(OperationIsActive);
      }
      if ActiveSync(tasks) {
        return Some(SyncAlreadyActive);
      }
      tasks := tasks + [Task(Synchronisation, true)];
      return None;
    }

    /** Finishing, cancelling and exhausted leases all end a task for good; lease recovery keeps it active. */
    method Close(i: nat)
      requires i < |tasks|
      modifies this
      ensures tasks == old(tasks)[i := old(tasks)[i].(active := false)]
    {
      tasks := tasks[i := tasks[i].(active := false)];
    }
  }

  // ---------------------------------------------------------------------------------------
  // Reachable tables
  // ---------------------------------------------------------------------------------------

  datatype Step = RequestOperation(request: Request) | RequestSync | CloseTask(index: nat)

  /** What the callers guarantee: stored rows carry stored ids, each requested once. */
  ghost predicate WellFormed(r: Request) {
    r.OnRows? ==>
      && (forall i :: 0 <= i < |r.rows| ==> r.rows[i].id.Stored?)
      && (forall i, j :: 0 <= i < j < |r.rows| ==> r.rows[i].id != r.rows[j].id)
  }

  ghost function Next(d: Digest, tasks: seq<Task>, step: Step): (tasks': seq<Task>) {
    match step
    case RequestOperation(r) =>
      if OperationRefusal(tasks, r).None? then tasks + [Task(Operation(NewTargets(d, r)), true)] else tasks
    case RequestSync => if SyncRefusal(tasks).None? then tasks + [Task(Synchronisation, true)] else tasks
    case CloseTask(i) => if i < |tasks| then tasks[i := tasks[i].(active := false)] else tasks
  }

  ghost function Reach(d: Digest, steps: seq<Step>): (tasks: seq<Task>) {
    if steps == [] then [] else Next(d, Reach(d, steps[..|steps| - 1]), steps[|steps| - 1])
  }

  ghost predicate Disjoint(a: seq<Target>, b: seq<Target>) {
    forall x, y :: x in a && y in b ==> x.dn != y.dn && !(x.kind == y.kind && x.id == y.id)
  }

  ghost predicate KeysAssigned(d: Digest, targets: seq<Target>) {
    exists r: Request :: targets == NewTargets(d, r)
  }

  /** An account that is being created is known by its name alone. */
  ghost predicate DerivedIdsAreNames(targets: seq<Target>) {
    forall t :: t in targets && t.id.Derived? ==> t.id.dn == t.dn
  }

  ghost predicate Exclusive(d: Digest, tasks: seq<Task>) {
    && (forall i, j :: 0 <= i < j < |tasks| && tasks[i].active && tasks[j].active ==>
          && tasks[i].kind.Operation? && tasks[j].kind.Operation?
          && Disjoint(tasks[i].kind.targets, tasks[j].kind.targets))
    && (forall i :: 0 <= i < |tasks| && tasks[i].kind.Operation? ==>
          KeysAssigned(d, tasks[i].kind.targets) && DerivedIdsAreNames(tasks[i].kind.targets))
  }

  lemma {:induction false} ActiveTargetsContain(tasks: seq<Task>, i: nat, t: Target)
    requires i < |tasks| && tasks[i].active && tasks[i].kind.Operation? && t in tasks[i].kind.targets
    ensures t in ActiveTargets(tasks)
  {
    if i < |tasks| - 1 {
      ActiveTargetsContain(tasks[..|tasks| - 1], i, t);
    }
  }

  lemma {:induction false} NoOverlapMeansDisjoint(targets: seq<Target>, r: Request, t: Target)
    requires Overlap(targets, r).None? && t in targets
    ensures t.dn !in RequestedDns(r) && !(t.kind == RequestedKind(r) && t.id in RequestedIds(r))
  {
    if t != targets[0] {
      assert t in targets[1..];
      NoOverlapMeansDisjoint(targets[1..], r, t);
    }
  }

  lemma {:induction false} ActiveTargetsAreActive(tasks: seq<Task>, t: Target)
    requires t in ActiveTargets(tasks)
    ensures exists i :: IsActiveTarget(tasks, i, t)
  {
    var last := |tasks| - 1;
    if t in ActiveTargets(tasks[..last]) {
      ActiveTargetsAreActive(tasks[..last], t);
      var i :| IsActiveTarget(tasks[..last], i, t);
      assert IsActiveTarget(tasks, i, t);
    } else {
      assert IsActiveTarget(tasks, last, t);
    }
  }

  ghost predicate IsActiveTarget(tasks: seq<Task>, i: int, t: Target) {
    0 <= i < |tasks| && tasks[i].active && tasks[i].kind.Operation? && t in tasks[i].kind.targets
  }

  /** The request names the object, or the directory name, of the target. */
  ghost predicate SameObject(r: Request, t: Target) {
    r.OnRows? && t.kind == r.kind && exists k :: 0 <= k < |r.rows| && r.rows[k].id == t.id
  }

  ghost predicate SameName(r: Request, t: Target) {
    match r
    case OnRows(_, rows) => exists k :: 0 <= k < |rows| && rows[k].dn == t.dn
    case CreateUser(dn) => t.dn == dn
  }

  lemma {:induction false} OverlapIsAClash(targets: seq<Target>, r: Request)
    ensures Overlap(targets, r) != Some(SyncIsActive)
    ensures Overlap(targets, r).Some? <==> exists t :: t in targets && (SameObject(r, t) || SameName(r, t))
    ensures Overlap(targets, r) == Some(TargetIsBusy) ==> exists t :: t in targets && SameObject(r, t)
    ensures Overlap(targets, r) == Some(NameIsBusy) ==> exists t :: t in targets && SameName(r, t)
  {
    if targets != [] {
      OverlapIsAClash(targets[1..], r);
      var t := targets[0];
      assert t.kind == RequestedKind(r) && t.id in RequestedIds(r) <==> SameObject(r, t);
      NamesRead(r, t);
      assert forall u :: u in targets <==> u == t || u in targets[1..];
    }
  }

  lemma NamesRead(r: Request, t: Target)
    ensures t.dn in RequestedDns(r) <==> SameName(r, t)
  {
    var rows := RequestedRows(r);
    if t.dn in RequestedDns(r) {
      var k :| 0 <= k < |rows| && rows[k].dn == t.dn;
    }
    if SameName(r, t) {
      var k :| 0 <= k < |rows| && rows[k].dn == t.dn;
      assert rows[k].dn in RequestedDns(r);
    }
  }

  /**
   An operation is refused exactly for a reason: a synchronisation is active, or a target of an active
   operation is the same object or has the same name.
   */
  lemma OperationIsRefusedExactly(tasks: seq<Task>, r: Request)
    ensures OperationRefusal(tasks, r).Some? <==>
            || (exists i :: 0 <= i < |tasks| && tasks[i].active && tasks[i].kind.Synchronisation?)
            || (exists i, t :: IsActiveTarget(tasks, i, t) && (SameObject(r, t) || SameName(r, t)))
    ensures OperationRefusal(tasks, r) == Some(SyncIsActive) <==>
            exists i :: 0 <= i < |tasks| && tasks[i].active && tasks[i].kind.Synchronisation?
  {
    OverlapIsAClash(ActiveTargets(tasks), r);
    if t :| t in ActiveTargets(tasks) && (SameObject(r, t) || SameName(r, t)) {
      ActiveTargetsAreActive(tasks, t);
    }
    if i, t :| IsActiveTarget(tasks, i, t) && (SameObject(r, t) || SameName(r, t)) {
      ActiveTargetsContain(tasks, i, t);
    }
  }

  /** A synchronisation is refused exactly while any task is active. */
  lemma SyncIsRefusedExactly(tasks: seq<Task>)
    ensures SyncRefusal(tasks).Some? <==> exists i :: 0 <= i < |tasks| && tasks[i].active
  {
    if i :| 0 <= i < |tasks| && tasks[i].active {
      assert tasks[i].kind.Operation? || tasks[i].kind.Synchronisation?;
    }
  }

  /** The targets of an accepted request are its rows, in order; a new user is an account known by its name. */
  lemma NewTargetsRead(d: Digest, r: Request)
    ensures r.OnRows? ==>
              && |NewTargets(d, r)| == |r.rows|
              && forall i :: 0 <= i < |r.rows| ==>
                   && NewTargets(d, r)[i].kind == r.kind && NewTargets(d, r)[i].id == r.rows[i].id
                   && NewTargets(d, r)[i].dn == r.rows[i].dn
    ensures r.CreateUser? ==>
              NewTargets(d, r) == [Target(Account, Derived(r.dn), r.dn, d.hash(d.json(r.dn)))]
  {
    if r.CreateUser? {
      assert DnsOf(RequestedRows(r)) == [r.dn] && [r.dn][..0] == [];
    }
  }

  lemma AcceptedRequestIsDisjoint(d: Digest, tasks: seq<Task>, r: Request, i: nat)
    requires Exclusive(d, tasks) && WellFormed(r) && Overlap(ActiveTargets(tasks), r).None?
    requires i < |tasks| && tasks[i].active && tasks[i].kind.Operation?
    ensures Disjoint(tasks[i].kind.targets, NewTargets(d, r))
  {
    forall x, y | x in tasks[i].kind.targets && y in NewTargets(d, r)
      ensures x.dn != y.dn && !(x.kind == y.kind && x.id == y.id)
    {
      ActiveTargetsContain(tasks, i, x);
      NoOverlapMeansDisjoint(ActiveTargets(tasks), r, x);
      var k :| 0 <= k < |NewTargets(d, r)| && NewTargets(d, r)[k] == y;
      assert y.dn == RequestedRows(r)[k].dn && y.id == RequestedRows(r)[k].id;
      assert DerivedIdsAreNames(tasks[i].kind.targets);
    }
  }

  lemma StepKeepsExclusive(d: Digest, tasks: seq<Task>, step: Step)
    requires Exclusive(d, tasks) && (step.RequestOperation? ==> WellFormed(step.request))
    ensures Exclusive(d, Next(d, tasks, step))
  {
    match step
    case RequestOperation(r) =>
      if OperationRefusal(tasks, r).None? {
        forall i | 0 <= i < |tasks| && tasks[i].active
          ensures tasks[i].kind.Operation? && Disjoint(tasks[i].kind.targets, NewTargets(d, r))
        {
          assert tasks[i].kind.Operation?;
          AcceptedRequestIsDisjoint(d, tasks, r, i);
        }
        assert KeysAssigned(d, NewTargets(d, r));
        assert DerivedIdsAreNames(NewTargets(d, r));
      }
    case RequestSync =>
      if SyncRefusal(tasks).None? {
        forall i | 0 <= i < |tasks| ensures !tasks[i].active {
          assert tasks[i].kind.Operation? || tasks[i].kind.Synchronisation?;
        }
      }
    case CloseTask(i) =>
  }

  /**
   In every reachable table at most one synchronisation is active, never together with an operation,
   and distinct active operations share no name and no object.
   */
  lemma {:induction false} ReachableTablesAreExclusive(d: Digest, steps: seq<Step>)
    requires forall s :: s in steps && s.RequestOperation? ==> WellFormed(s.request)
    ensures Exclusive(d, Reach(d, steps))
    ensures ActiveSync(Reach(d, steps)) ==> !ActiveOperation(Reach(d, steps))
    ensures forall i, j :: 0 <= i < j < |Reach(d, steps)| ==>
              !(Reach(d, steps)[i].active && Reach(d, steps)[i].kind.Synchronisation?
                && Reach(d, steps)[j].active && Reach(d, steps)[j].kind.Synchronisation?)
  {
    if steps != [] {
      ReachableTablesAreExclusive(d, steps[..|steps| - 1]);
      assert steps[|steps| - 1] in steps;
      StepKeepsExclusive(d, Reach(d, steps[..|steps| - 1]), steps[|steps| - 1]);
    }
  }

  /** Within one task, and between tasks that share no name, keys tell targets apart. */
  lemma KeysTellTargetsApart(d: Digest, r: Request, a: nat, q: Request, b: nat)
    requires d.Sound() && a < |NewTargets(d, r)| && b < |NewTargets(d, q)|
    requires NewTargets(d, r)[a].key == NewTargets(d, q)[b].key
    ensures NewTargets(d, r)[a].dn == NewTargets(d, q)[b].dn
    ensures NewTargets(d, r) == NewTargets(d, q) ==> a == b
  {
    var dns, dns' := DnsOf(RequestedRows(r)), DnsOf(RequestedRows(q));
    KeyIsInjective(d, dns[a], Ordinal(d, dns, a), dns'[b], Ordinal(d, dns', b));
    if NewTargets(d, r) == NewTargets(d, q) {
      SameDns(d, r, q);
      if a < b {
        ScopeKeysAreDistinct(d, dns, a, b);
      } else if b < a {
        ScopeKeysAreDistinct(d, dns, b, a);
      }
    }
  }

  /** So the unique constraint on active scope keys never fires: no two active targets share a key. */
  lemma ActiveKeysAreUnique(d: Digest, steps: seq<Step>, i: nat, a: nat, j: nat, b: nat)
    requires d.Sound() && forall s :: s in steps && s.RequestOperation? ==> WellFormed(s.request)
    requires var tasks := Reach(d, steps);
             && i < |tasks| && tasks[i].active && tasks[i].kind.Operation? && a < |tasks[i].kind.targets|
             && j < |tasks| && tasks[j].active && tasks[j].kind.Operation? && b < |tasks[j].kind.targets|
             && (i, a) != (j, b)
    ensures Reach(d, steps)[i].kind.targets[a].key != Reach(d, steps)[j].kind.targets[b].key
  {
    ReachableTablesAreExclusive(d, steps);
    var x, y := Reach(d, steps)[i].kind.targets, Reach(d, steps)[j].kind.targets;
    assert KeysAssigned(d, x) && KeysAssigned(d, y);
    var r: Request :| x == NewTargets(d, r);
    var q: Request :| y == NewTargets(d, q);
    assert x[a] in x && y[b] in y;
    assert (i < j ==> Disjoint(x, y)) && (j < i ==> Disjoint(y, x));
    if x[a].key == y[b].key {
      KeysTellTargetsApart(d, r, a, q, b);
    }
  }

  lemma SameDns(d: Digest, r: Request, q: Request)
    requires NewTargets(d, r) == NewTargets(d, q)
    ensures DnsOf(RequestedRows(r)) == DnsOf(RequestedRows(q))
  {
    forall i | 0 <= i < |RequestedRows(r)| ensures RequestedRows(r)[i].dn == RequestedRows(q)[i].dn {
      assert NewTargets(d, r)[i].dn == NewTargets(d, q)[i].dn;
    }
  }
}
