/**
 Creating a directory user in stages (net/domain/client.py:110-198, 289-304, 447-479), and what a
 retry does with the reported stage (net/domain/tasks.py:344-394).

 The connection is adversarial: it may fail before or after the server applied a request. Only
 definite answers are trusted: a true answer was applied, a definite refusal code was not.
 */
module CreateUser {
  import opened Outcomes

  datatype Stage = NoStage | PasswordPending | ManualIntervention | Completed

  datatype ActionResult = ActionResult(success: bool, stage: Stage)

  /** The object at the target name: who created it, whether its names match, and who set its password last. */
  datatype Entry = Entry(present: bool, creator: Option<nat>, matches: bool, password: Option<nat>)

  datatype AddReply = AddRaises(applied: bool) | AddDone | AddRefused(code: Option<int>, applied: bool)

  datatype ModifyReply = ModifyRaises(applied: bool) | ModifyDone | ModifyRefused(applied: bool)

  /** Everything the environment decides about one attempt. */
  datatype Script = Script(connects: bool, searchFails: bool, add: AddReply, password: ModifyReply)

  /** Codes after which nobody knows whether the add was applied: busy, unavailable, lost connections. */
  const UNCERTAIN_CODES: set<int> := {51, 52, 81, 82, 85, 91}

  predicate Definite(code: Option<int>) {
    code.Some? && code.value != 0 && code.value !in UNCERTAIN_CODES
  }

  predicate AddApplied(reply: AddReply) {
    match reply case AddRaises(applied) => applied case AddDone => true case AddRefused(_, applied) => applied
  }

  predicate ModifyApplied(reply: ModifyReply) {
    match reply case ModifyRaises(applied) => applied case ModifyDone => true case ModifyRefused(applied) => applied
  }

  /** A server never adds an object that exists, and a definite refusal is the truth. */
  predicate HonestAdd(e: Entry, reply: AddReply) {
    && (AddApplied(reply) ==> !e.present)
    && (reply.AddRefused? && Definite(reply.code) ==> !reply.applied)
  }

  predicate HonestModify(e: Entry, reply: ModifyReply) {
    ModifyApplied(reply) ==> e.present
  }

  // ---------------------------------------------------------------------------------------
  // One attempt
  // ---------------------------------------------------------------------------------------

  function Added(e: Entry, attempt: nat, reply: AddReply): Entry {
    if AddApplied(reply) then Entry(true, Some(attempt), true, None) else e
  }

  function PasswordSet(e: Entry, attempt: nat, reply: ModifyReply): Entry {
    if ModifyApplied(reply) then e.(password := Some(attempt)) else e
  }

  class Connection {
    var entry: Entry
    var adds: nat

    constructor (entry: Entry)
      ensures this.entry == entry && adds == 0
    {
      this.entry, adds := entry, 0;
    }

    method Add(attempt: nat, reply: AddReply)
      modifies this
      ensures entry == Added(old(entry), attempt, reply) && adds == old(adds) + 1
    {
      adds := adds + 1;
      if AddApplied(reply) {
        entry := Entry(true, Some(attempt), true, None);
      }
    }

    method SetPassword(attempt: nat, reply: ModifyReply)
      modifies this`entry
      ensures entry == PasswordSet(old(entry), attempt, reply)
    {
      if ModifyApplied(reply) {
        entry := entry.(password := Some(attempt));
      }
    }
  }

  /** The requests this attempt sends are answered truthfully. */
  predicate Honest(e: Entry, attempt: nat, recovering: bool, s: Script) {
    s.connects ==>
      if recovering then !s.searchFails && e.matches ==> HonestModify(e, s.password)
      else HonestAdd(e, s.add) && (s.add.AddDone? ==> HonestModify(Added(e, attempt, s.add), s.password))
  }

  function AfterPassword(s: Script): ActionResult {
    if s.password.ModifyDone? then ActionResult(true, Completed) else ActionResult(false, PasswordPending)
  }

  /** The entry, the number of add requests sent, and the reported result. */
  function Execute(e: Entry, attempt: nat, recovering: bool, s: Script): (after: (Entry, nat, ActionResult)) {
    if !s.connects then (e, 0, ActionResult(false, NoStage))
    else if recovering then
      if s.searchFails || !e.present || !e.matches then (e, 0, ActionResult(false, ManualIntervention))
      else (PasswordSet(e, attempt, s.password), 0, AfterPassword(s))
    else
      var added := Added(e, attempt, s.add);
      match s.add
      case AddRaises(_) => (added, 1, ActionResult(false, ManualIntervention))
      case AddRefused(code, _) => (added, 1,
          ActionResult(false, if Definite(code) then NoStage else ManualIntervention))
      case AddDone => (PasswordSet(added, attempt, s.password), 1, AfterPassword(s))
  }

  /** `DomainClient.execute` for create_user; `c` is the directory behind the connection. */
  method ExecuteCreateUser(c: Connection, attempt: nat, recovering: bool, s: Script) returns (result: ActionResult)
    modifies c
    ensures (c.entry, c.adds - old(c.adds), result) == Execute(old(c.entry), attempt, recovering, s)
  {
    if !s.connects {
      return ActionResult(false, NoStage);
    }
    if recovering {
      if s.searchFails || !c.entry.present || !c.entry.matches {
        return ActionResult(false, ManualIntervention);
      }
    } else {
      c.Add(attempt, s.add);
      match s.add
      case AddRaises(_) =>
        return ActionResult(false, ManualIntervention);
      case AddRefused(code, _) =>
        if code.None? || code.value == 0 || code.value in UNCERTAIN_CODES {
          return ActionResult(false, ManualIntervention);
        }
        return ActionResult(false, NoStage);
      case AddDone =>
    }
    c.SetPassword(attempt, s.password);
    match s.password
    case ModifyDone =>
      return ActionResult(true, Completed);
    case ModifyRaises(_) =>
      return ActionResult(false, PasswordPending);
    case ModifyRefused(_) =>
      return ActionResult(false, PasswordPending);
  }

  /**
   Every reported stage is truthful: success means the object exists with the password of this
   attempt, pending means the object exists, a failure without a stage means this attempt created
   nothing, and everything else asks for manual intervention.
   */
  lemma StagesAreTruthful(e: Entry, attempt: nat, recovering: bool, s: Script)
    requires Honest(e, attempt, recovering, s)
    ensures var (e', _, r) := Execute(e, attempt, recovering, s);
            && (r.success <==> r.stage.Completed?)
            && (r.success ==> e'.present && e'.password == Some(attempt))
            && (r.stage.PasswordPending? ==> e'.present && e'.matches)
            && (r.stage.NoStage? ==> e' == e)
            && (e.present ==> e'.present && e'.creator == e.creator)
            && (!e.present && e'.present ==> e'.creator == Some(attempt) && !r.stage.NoStage?)
  {
  }

  /** The user is there to set a password for: found again and matching, or just added. */
  predicate IsThere(e: Entry, recovering: bool, s: Script) {
    s.connects && if recovering then !s.searchFails && e.present && e.matches else s.add.AddDone?
  }

  /** The add was refused for good: a number other than zero and none of those that leave it open. */
  predicate RefusedForGood(reply: AddReply) {
    reply.AddRefused? && reply.code.Some? && reply.code.value !in {0, 51, 52, 81, 82, 85, 91}
  }

  /** Which stage is reported, from the answers alone: acknowledged requests always end in success. */
  lemma StagesAreExact(e: Entry, attempt: nat, recovering: bool, s: Script)
    ensures var (e', adds, r) := Execute(e, attempt, recovering, s);
            && (r.success <==> IsThere(e, recovering, s) && s.password.ModifyDone?)
            && (r.stage.PasswordPending? <==> IsThere(e, recovering, s) && !s.password.ModifyDone?)
            && (r.stage.NoStage? <==> !s.connects || (!recovering && RefusedForGood(s.add)))
            && (r.stage.ManualIntervention? <==>
                  s.connects && !IsThere(e, recovering, s) && (recovering || !RefusedForGood(s.add)))
            && adds == (if s.connects && !recovering then 1 else 0)
            && (r.success && !recovering ==> e' == Entry(true, Some(attempt), true, Some(attempt)))
            && (r.success && recovering ==> e' == e.(password := Some(attempt)))
  {
  }

  // ---------------------------------------------------------------------------------------
  // Retries
  // ---------------------------------------------------------------------------------------

  /** What `retry_failed_domain_operation` does with a failed outcome: refuse, start over, or recover. */
  datatype Retry = Refuse | StartOver | Recover

  function RetryOf(r: ActionResult): Retry {
    if r.success then Refuse
    else
      match r.stage
      case ManualIntervention => Refuse
      case PasswordPending => Recover
      case NoStage => StartOver
      case Completed => Refuse
  }

  /** A failure starts over only without a stage, recovers only when pending, and is refused otherwise. */
  lemma RetriesRead(e: Entry, attempt: nat, recovering: bool, s: Script)
    ensures var r := Execute(e, attempt, recovering, s).2;
            && (RetryOf(r).StartOver? <==> r.stage.NoStage?)
            && (RetryOf(r).Recover? <==> r.stage.PasswordPending?)
            && (RetryOf(r).Refuse? <==> r.success || r.stage.ManualIntervention?)
  {
  }

  /** A first attempt and its retries, each accepted on the outcome of the one before. */
  datatype Chain = Chain(entry: Entry, adds: nat, result: ActionResult, recovering: bool)

  ghost function First(e: Entry, s: Script): (c: Chain) {
    var (e', adds, r) := Execute(e, 0, false, s);
    Chain(e', adds, r, false)
  }

  ghost function Retried(c: Chain, attempt: nat, s: Script): (c': Chain)
    requires !RetryOf(c.result).Refuse?
  {
    var recovering := RetryOf(c.result).Recover?;
    var (e', adds, r) := Execute(c.entry, attempt, recovering, s);
    Chain(e', adds, r, recovering)
  }

  /** The state after retrying `c` with each script in turn; attempts are numbered from `attempt`. */
  ghost predicate IsChain(c: Chain, attempt: nat, scripts: seq<Script>)
    decreases scripts
  {
    scripts == [] ||
    (!RetryOf(c.result).Refuse?
     && Honest(c.entry, attempt, RetryOf(c.result).Recover?, scripts[0])
     && IsChain(Retried(c, attempt, scripts[0]), attempt + 1, scripts[1..]))
  }

  ghost function AddsSent(c: Chain, attempt: nat, scripts: seq<Script>): (adds: nat)
    requires IsChain(c, attempt, scripts)
    decreases scripts
  {
    if scripts == [] then 0
    else Retried(c, attempt, scripts[0]).adds + AddsSent(Retried(c, attempt, scripts[0]), attempt + 1, scripts[1..])
  }

  ghost function End(c: Chain, attempt: nat, scripts: seq<Script>): (c': Chain)
    requires IsChain(c, attempt, scripts)
    decreases scripts
  {
    if scripts == [] then c else End(Retried(c, attempt, scripts[0]), attempt + 1, scripts[1..])
  }

  /** Right after a pending outcome the retry sends no add, and the manual stage is never retried. */
  lemma PendingIsRecovered(c: Chain, attempt: nat, s: Script)
    ensures c.result.stage.ManualIntervention? ==> RetryOf(c.result).Refuse?
    ensures !c.result.success && c.result.stage.PasswordPending? ==>
              RetryOf(c.result).Recover? && Retried(c, attempt, s).adds == 0
  {
  }

  /** Some attempt connects after an earlier one could not. */
  ghost predicate AnyConnectsAfterAFailure(scripts: seq<Script>) {
    exists i, j :: 0 <= i < j < |scripts| && !scripts[i].connects && scripts[j].connects
  }

  lemma {:induction false} StartedOverSendsAdds(c: Chain, attempt: nat, scripts: seq<Script>)
    requires IsChain(c, attempt, scripts) && RetryOf(c.result).StartOver?
    ensures AddsSent(c, attempt, scripts) > 0 <==> exists j :: 0 <= j < |scripts| && scripts[j].connects
    decreases scripts
  {
    if scripts != [] {
      var c' := Retried(c, attempt, scripts[0]);
      if scripts[0].connects {
        assert c'.adds == 1;
      } else {
        StartedOverSendsAdds(c', attempt + 1, scripts[1..]);
        assert forall j :: 1 <= j < |scripts| ==> scripts[j] == scripts[1..][j - 1];
        if exists j :: 0 <= j < |scripts| && scripts[j].connects {
          var j :| 0 <= j < |scripts| && scripts[j].connects;
          assert scripts[1..][j - 1].connects;
        }
      }
    }
  }

  /**
   Over whole chains of retries the pending stage does not stay with the user: an attempt that
   cannot connect reports no stage at all, and the next retry starts over. After a pending outcome
   an add is sent if and only if some retry connects after an earlier one failed to.
   */
  lemma {:induction false} AddAfterPendingExactly(c: Chain, attempt: nat, scripts: seq<Script>)
    requires IsChain(c, attempt, scripts) && RetryOf(c.result).Recover?
    ensures AddsSent(c, attempt, scripts) > 0 <==> AnyConnectsAfterAFailure(scripts)
    decreases scripts
  {
    if scripts != [] {
      var c' := Retried(c, attempt, scripts[0]);
      var rest := scripts[1..];
      assert forall j :: 1 <= j < |scripts| ==> scripts[j] == rest[j - 1];
      if scripts[0].connects {
        if rest != [] {
          assert RetryOf(c'.result).Recover?;
          AddAfterPendingExactly(c', attempt + 1, rest);
        }
        if AnyConnectsAfterAFailure(scripts) {
          var i, j :| 0 <= i < j < |scripts| && !scripts[i].connects && scripts[j].connects;
          assert !rest[i - 1].connects && rest[j - 1].connects;
        }
        if AnyConnectsAfterAFailure(rest) {
          var i, j :| 0 <= i < j < |rest| && !rest[i].connects && rest[j].connects;
          assert !scripts[i + 1].connects && scripts[j + 1].connects;
        }
      } else {
        StartedOverSendsAdds(c', attempt + 1, rest);
        if exists j :: 0 <= j < |rest| && rest[j].connects {
          var j :| 0 <= j < |rest| && rest[j].connects;
          assert !scripts[0].connects && scripts[j + 1].connects;
        }
        if AnyConnectsAfterAFailure(scripts) {
          var i, j :| 0 <= i < j < |scripts| && !scripts[i].connects && scripts[j].connects;
          assert rest[j - 1].connects;
        }
      }
    }
  }

  /**
   The shortest such chain, with an honest server: pending, one lost connection, then an add for a user that
   exists.
   */
  lemma LostConnectionForgetsThePendingStage() returns (e: Entry, first: Script, scripts: seq<Script>)
    ensures Honest(e, 0, false, first) && First(e, first).result.stage.PasswordPending? && First(e, first).entry.present
    ensures IsChain(First(e, first), 1, scripts) && AddsSent(First(e, first), 1, scripts) == 1
  {
    e := Entry(false, None, false, None);
    first := Script(true, false, AddDone, ModifyRefused(false));
    var lost := Script(false, false, AddDone, ModifyDone);
    var again := Script(true, false, AddRefused(Some(68), false), ModifyRefused(false));
    scripts := [lost, again];
    var c := First(e, first);
    var c1 := Retried(c, 1, lost);
    assert scripts[1..] == [again] && [again][1..] == [];
    assert IsChain(Retried(c1, 2, again), 3, []);
    assert IsChain(c1, 2, [again]);
    assert AddsSent(c1, 2, [again]) == 1;
  }

  /** Whatever the chain of retries, the object is created at most once, and by one of the chain's own attempts. */
  lemma {:induction false} CreatedAtMostOnce(c: Chain, attempt: nat, scripts: seq<Script>)
    requires IsChain(c, attempt, scripts)
    ensures var e' := End(c, attempt, scripts).entry;
            && (c.entry.present ==> e'.present && e'.creator == c.entry.creator)
            && (!c.entry.present && e'.present ==>
                e'.creator.Some? && attempt <= e'.creator.value < attempt + |scripts|)
    decreases scripts
  {
    if scripts != [] {
      StagesAreTruthful(c.entry, attempt, RetryOf(c.result).Recover?, scripts[0]);
      CreatedAtMostOnce(Retried(c, attempt, scripts[0]), attempt + 1, scripts[1..]);
    }
  }
}
