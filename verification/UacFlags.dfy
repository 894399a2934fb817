/**
 Changing one account flag against concurrent writers (net/domain/client.py:362-429).

 The flag lives in the bits of userAccountControl. The normal path asserts the value it read in the
 write itself (section 3 of RFC 4528) and tries up to three times; a server that rejects the control
 is written to without it, and read back.
 */
module UacFlags {
  const MAX_UAC_WRITE_ATTEMPTS := 3

  /** 0x0002 and 0x10000. */
  const ACCOUNTDISABLE: nat := 1
  const DONT_EXPIRE_PASSWORD: nat := 16

  // ---------------------------------------------------------------------------------------
  // Bits
  // ---------------------------------------------------------------------------------------

  predicate Bit(n: nat, j: nat) {
    if j == 0 then n % 2 == 1 else Bit(n / 2, j - 1)
  }

  /** `n | flag` or `n & ~flag`. */
  function SetBit(n: nat, j: nat, on: bool): (m: nat) {
    if j == 0 then n / 2 * 2 + (if on then 1 else 0) else SetBit(n / 2, j - 1, on) * 2 + n % 2
  }

  lemma {:induction false} SetBitIsExact(n: nat, j: nat, on: bool, k: nat)
    ensures Bit(SetBit(n, j, on), k) <==> if k == j then on else Bit(n, k)
  {
    var m := SetBit(n, j, on);
    if j == 0 {
      assert m / 2 == n / 2;
    } else {
      assert m / 2 == SetBit(n / 2, j - 1, on) && m % 2 == n % 2;
      if k > 0 {
        SetBitIsExact(n / 2, j - 1, on, k - 1);
      }
    }
  }

  ghost predicate AgreeExcept(n: nat, m: nat, j: nat) {
    forall k: nat :: k != j ==> (Bit(n, k) <==> Bit(m, k))
  }

  /** Setting one bit the same way makes two values equal if and only if they agree on all the others. */
  lemma SetBitMerges(n: nat, m: nat, j: nat, on: bool)
    ensures SetBit(n, j, on) == SetBit(m, j, on) <==> AgreeExcept(n, m, j)
  {
    var a, b := SetBit(n, j, on), SetBit(m, j, on);
    forall k: nat
      ensures (Bit(a, k) <==> if k == j then on else Bit(n, k)) && (Bit(b, k) <==> if k == j then on else Bit(m, k))
    {
      SetBitIsExact(n, j, on, k);
      SetBitIsExact(m, j, on, k);
    }
    if AgreeExcept(n, m, j) {
      BitsDetermine(a, b);
    } else {
      var k: nat :| k != j && Bit(n, k) != Bit(m, k);
      assert Bit(a, k) != Bit(b, k);
    }
  }

  lemma {:induction false} BitsDetermine(n: nat, m: nat)
    requires forall k: nat :: Bit(n, k) <==> Bit(m, k)
    ensures n == m
    decreases n + m
  {
    if n != 0 || m != 0 {
      assert Bit(n, 0) <==> Bit(m, 0);
      forall k: nat ensures Bit(n / 2, k) <==> Bit(m / 2, k) {
        assert Bit(n, k + 1) <==> Bit(m, k + 1);
      }
      BitsDetermine(n / 2, m / 2);
    }
  }

  ghost function Power(j: nat): (p: nat)
    ensures p >= 1
  {
    if j == 0 then 1 else 2 * Power(j - 1)
  }

  /** Setting a bit adds its power of two if it was missing, and clearing it takes that away again. */
  lemma {:induction false} SetBitIsMask(n: nat, j: nat)
    ensures SetBit(n, j, true) == n + if Bit(n, j) then 0 else Power(j)
    ensures SetBit(n, j, false) == n - if Bit(n, j) then Power(j) else 0
  {
    if j > 0 {
      SetBitIsMask(n / 2, j - 1);
    }
  }

  // ---------------------------------------------------------------------------------------
  // The server and its other writers
  // ---------------------------------------------------------------------------------------

  /** Disable and enable move ACCOUNTDISABLE; password-never-expires moves its own flag. */
  datatype Action = Enable | Disable | PasswordNeverExpires(enabled: bool)

  function Flag(action: Action): nat {
    if action.PasswordNeverExpires? then DONT_EXPIRE_PASSWORD else ACCOUNTDISABLE
  }

  predicate Wanted(action: Action) {
    match action case Enable => false case Disable => true case PasswordNeverExpires(enabled) => enabled
  }

  function UacValue(current: nat, action: Action): (value: nat) {
    SetBit(current, Flag(action), Wanted(action))
  }

  /** What the action is for: an account enabled or disabled (0x0002), or a password that expires or not (0x10000). */
  predicate Achieved(action: Action, value: nat) {
    match action
    case Enable => !Bit(value, 1)
    case Disable => Bit(value, 1)
    case PasswordNeverExpires(enabled) => Bit(value, 16) == enabled
  }

  /** Apart from the action's own flag the two values are the same. */
  ghost predicate RestKept(action: Action, before: nat, after: nat) {
    forall k: nat :: k != (if action.PasswordNeverExpires? then 16 else 1) ==> (Bit(after, k) <==> Bit(before, k))
  }

  /** The computed value achieves what the action is for and leaves every other flag alone. */
  lemma UacValueMeans(current: nat, action: Action)
    ensures Achieved(action, UacValue(current, action)) && RestKept(action, current, UacValue(current, action))
  {
    forall k: nat
      ensures Bit(UacValue(current, action), k) <==> if k == Flag(action) then Wanted(action) else Bit(current, k)
    {
      SetBitIsExact(current, Flag(action), Wanted(action), k);
    }
  }

  lemma MasksRead()
    ensures Power(1) == 2 && Power(16) == 65536
  {
    assert Power(4) == 16 && Power(8) == 256 && Power(12) == 4096;
  }

  /** In numbers: 2 is added to disable and taken away to enable. */
  lemma DisableInNumbers(current: nat)
    ensures UacValue(current, Disable) == current + if Bit(current, 1) then 0 else 2
    ensures UacValue(current, Enable) == current - if Bit(current, 1) then 2 else 0
  {
    SetBitIsMask(current, 1);
    MasksRead();
  }

  /** And 65536 likewise for the password that never expires. */
  lemma PasswordInNumbers(current: nat)
    ensures UacValue(current, PasswordNeverExpires(true)) == current + if Bit(current, 16) then 0 else 65536
    ensures UacValue(current, PasswordNeverExpires(false)) == current - if Bit(current, 16) then 65536 else 0
  {
    SetBitIsMask(current, 16);
    MasksRead();
  }

  /** A normal account is 512, disabled it is 514. */
  lemma NormalAccount(normal: nat, disabled: nat)
    requires normal == 512 && disabled == 514
    ensures UacValue(disabled, Enable) == normal && UacValue(normal, Enable) == normal
    ensures UacValue(normal, Disable) == disabled && UacValue(disabled, Disable) == disabled
  {
    DisableInNumbers(normal);
    DisableInNumbers(disabled);
    assert !Bit(normal / 2, 0) && Bit(disabled / 2, 0);
  }

  /** The server's answer to a write; `applied` is what really happened when the answer does not tell. */
  datatype Reply = Done | AssertionFailed | UnavailableCritical | OtherError(applied: bool)

  /** One read and one write, and the values other writers leave behind just before each. */
  datatype Turn = Turn(atRead: nat, readFails: bool, atWrite: nat, reply: Reply)

  /** The compatible path reads once more at the end. */
  datatype LastTurn = LastTurn(turn: Turn, atCheck: nat, checkFails: bool)

  predicate Applied(reply: Reply) {
    reply.Done? || (reply.OtherError? && reply.applied)
  }

  /** The assertion control is honoured: the write is applied only to the value that was asserted. */
  predicate Honoured(t: Turn) {
    Applied(t.reply) ==> t.atWrite == t.atRead
  }

  class Account {
    var value: nat
    var writes: nat

    constructor (value: nat)
      ensures this.value == value && writes == 0
    {
      this.value, writes := value, 0;
    }

    /** Another administrator writes at any time. */
    method Interfere(value: nat)
      modifies this`value
      ensures this.value == value
    {
      this.value := value;
    }

    method Write(value: nat, reply: Reply)
      modifies this
      ensures writes == old(writes) + 1
      ensures this.value == if Applied(reply) then value else old(this.value)
    {
      writes := writes + 1;
      if Applied(reply) {
        this.value := value;
      }
    }
  }

  // ---------------------------------------------------------------------------------------
  // The two paths
  // ---------------------------------------------------------------------------------------

  /** Only the flag of `action` differs between the two values, and it is as wanted in the second. */
  ghost predicate OnlyFlagChanged(before: nat, after: nat, action: Action) {
    forall k: nat :: Bit(after, k) <==> if k == Flag(action) then Wanted(action) else Bit(before, k)
  }

  lemma UacValueChangesOnlyTheFlag(current: nat, action: Action)
    ensures OnlyFlagChanged(current, UacValue(current, action), action)
  {
    forall k: nat ensures Bit(UacValue(current, action), k)
        <==> if k == Flag(action) then Wanted(action) else Bit(current, k) {
      SetBitIsExact(current, Flag(action), Wanted(action), k);
    }
  }

  /** How the call ended: asserted write, compatible path, or a failure of either. */
  datatype Outcome = Asserted | Unchanged | CheckedBack | Refused

  /** What the compatible path reports. */
  function CompatibleOutcome(action: Action, t: LastTurn): Outcome {
    var value := UacValue(t.turn.atRead, action);
    if t.turn.readFails then Refused
    else if value == t.turn.atRead then Unchanged
    else if t.turn.reply.Done? && !t.checkFails && t.atCheck == value then CheckedBack
    else Refused
  }

  /** What the rounds from `k` on report: a lost assertion is tried again, everything else decides. */
  function RoundsOutcome(action: Action, turns: seq<Turn>, k: nat, last: LastTurn): Outcome
    requires k <= |turns|
    decreases |turns| - k
  {
    if k == |turns| || turns[k].readFails then Refused
    else
      match turns[k].reply
      case Done => Asserted
      case AssertionFailed => RoundsOutcome(action, turns, k + 1, last)
      case UnavailableCritical => CompatibleOutcome(action, last)
      case OtherError(_) => Refused
  }

  /** The write of round `k` was acknowledged, after every earlier one had lost its assertion. */
  ghost predicate AnsweredAt(turns: seq<Turn>, k: int) {
    0 <= k < |turns| && turns[k].reply.Done? && forall h :: 0 <= h < k ==> turns[h].reply.AssertionFailed?
  }

  /** Success comes exactly from a round that is acknowledged after rounds that could be read and just lost. */
  lemma {:induction false} AssertedExactly(action: Action, turns: seq<Turn>, k: nat, last: LastTurn)
    requires k <= |turns| && forall h :: 0 <= h < k ==> !turns[h].readFails && turns[h].reply.AssertionFailed?
    ensures RoundsOutcome(action, turns, k, last).Asserted? <==> exists h :: k <= h && EndsAt(turns, h, Done)
    ensures RoundsOutcome(action, turns, k, last).Unchanged? || RoundsOutcome(action, turns, k, last).CheckedBack? <==>
              !CompatibleOutcome(action, last).Refused? && exists h :: k <= h && EndsAt(turns, h, UnavailableCritical)
    decreases |turns| - k
  {
    if k < |turns| {
      if !turns[k].readFails && turns[k].reply.AssertionFailed? {
        AssertedExactly(action, turns, k + 1, last);
      } else {
        forall h, reply | k <= h && EndsAt(turns, h, reply) ensures h == k {
        }
        if !turns[k].readFails && (turns[k].reply.Done? || turns[k].reply.UnavailableCritical?) {
          assert EndsAt(turns, k, turns[k].reply);
        }
      }
    }
  }

  /** Round `h` is answered like this, after readable rounds that all lost their assertion. */
  ghost predicate EndsAt(turns: seq<Turn>, h: int, reply: Reply) {
    && 0 <= h < |turns| && turns[h].reply == reply && !turns[h].readFails
    && forall g :: 0 <= g < h ==> !turns[g].readFails && turns[g].reply.AssertionFailed?
  }

  /** The compatible path has nothing to do exactly if the value read has already what the action is for. */
  lemma NothingToDoExactly(action: Action, t: LastTurn)
    ensures CompatibleOutcome(action, t).Unchanged? <==> !t.turn.readFails && Achieved(action, t.turn.atRead)
  {
    DisableInNumbers(t.turn.atRead);
    PasswordInNumbers(t.turn.atRead);
  }

  /** The compatible path: success means no change was needed, or the read-back returned the computed value. */
  method ModifyUacCompatible(a: Account, action: Action, t: LastTurn) returns (outcome: Outcome)
    modifies a
    ensures outcome == CompatibleOutcome(action, t)
    ensures outcome.Unchanged? ==>
              a.writes == old(a.writes) && a.value == t.turn.atRead == UacValue(t.turn.atRead, action)
    ensures outcome.CheckedBack? ==> a.writes == old(a.writes) + 1 && t.turn.reply.Done? && !t.checkFails
                                     && a.value == t.atCheck == UacValue(t.turn.atRead, action)
    ensures outcome.Unchanged? || outcome.CheckedBack? ==>
              Achieved(action, a.value) && RestKept(action, t.turn.atRead, a.value)
    ensures a.writes <= old(a.writes) + 1
  {
    UacValueMeans(t.turn.atRead, action);
    a.Interfere(t.turn.atRead);
    if t.turn.readFails {
      return Refused;
    }
    var current := a.value;
    var value := UacValue(current, action);
    if value == current {
      return Unchanged;
    }
    a.Interfere(t.turn.atWrite);
    a.Write(value, t.turn.reply);
    if !t.turn.reply.Done? {
      return Refused;
    }
    a.Interfere(t.atCheck);
    if t.checkFails || a.value != value {
      return Refused;
    }
    return CheckedBack;
  }

  /**
   `turns` is what the server and the other writers do in each round. If the assertion control is
   honoured, an asserted write changed only the intended flag of the value that was present at that
   very moment, and it took at most three write requests.
   */
  method ModifyUac(a: Account, action: Action, turns: seq<Turn>, last: LastTurn)
    returns (outcome: Outcome, ghost written: nat)
    requires |turns| == MAX_UAC_WRITE_ATTEMPTS
    modifies a
    ensures outcome == RoundsOutcome(action, turns, 0, last)
    ensures outcome.Asserted? ==> a.writes <= old(a.writes) + 3
    ensures outcome.Asserted? ==> exists k :: AnsweredAt(turns, k) && written == turns[k].atWrite
                                              && a.value == UacValue(turns[k].atRead, action)
    ensures (forall k :: 0 <= k < |turns| ==> Honoured(turns[k])) && outcome.Asserted? ==>
              OnlyFlagChanged(written, a.value, action) && RestKept(action, written, a.value)
    ensures !outcome.Refused? ==> Achieved(action, a.value)
    ensures outcome.Unchanged? ==> a.value == last.turn.atRead == UacValue(last.turn.atRead, action)
    ensures outcome.CheckedBack? ==> last.turn.reply.Done? && !last.checkFails
                                     && a.value == last.atCheck == UacValue(last.turn.atRead, action)
    ensures outcome.Unchanged? || outcome.CheckedBack? ==>
              exists k :: 0 <= k < |turns| && turns[k].reply.UnavailableCritical?
    ensures a.writes <= old(a.writes) + MAX_UAC_WRITE_ATTEMPTS + 1
    ensures (forall k :: 0 <= k < |turns| ==> !turns[k].reply.UnavailableCritical?) ==>
              a.writes <= old(a.writes) + MAX_UAC_WRITE_ATTEMPTS
  {
    for k := 0 to MAX_UAC_WRITE_ATTEMPTS
      invariant a.writes == old(a.writes) + k
      invariant RoundsOutcome(action, turns, 0, last) == RoundsOutcome(action, turns, k, last)
      invariant forall h :: 0 <= h < k ==> turns[h].reply.AssertionFailed?
    {
      a.Interfere(turns[k].atRead);
      if turns[k].readFails {
        return Refused, 0;
      }
      var current := a.value;
      var value := UacValue(current, action);
      a.Interfere(turns[k].atWrite);
      written := a.value;
      a.Write(value, turns[k].reply);
      match turns[k].reply
      case AssertionFailed =>
      case UnavailableCritical =>
        outcome := ModifyUacCompatible(a, action, last);
        return;
      case Done =>
        UacValueChangesOnlyTheFlag(current, action);
        UacValueMeans(current, action);
        assert AnsweredAt(turns, k);
        return Asserted, written;
      case OtherError(_) =>
        return Refused, written;
    }
    return Refused, 0;
  }

  /**
   The compatible path cannot offer that. What it writes is right for the value present at the write
   exactly when no other flag was changed since the read.
   */
  lemma CompatibleWriteIsRightExactly(t: Turn, action: Action)
    ensures UacValue(t.atRead, action) == UacValue(t.atWrite, action)
            <==> AgreeExcept(t.atRead, t.atWrite, Flag(action))
  {
    SetBitMerges(t.atRead, t.atWrite, Flag(action), Wanted(action));
  }

  /** A server that applies the write although the asserted value is gone would undo the other writer. */
  lemma UnhonouredAssertionLosesAChange(read: nat, other: nat, action: Action, k: nat)
    requires k != Flag(action) && Bit(read, k) != Bit(other, k)
    ensures !OnlyFlagChanged(other, UacValue(read, action), action)
  {
    SetBitIsExact(read, Flag(action), Wanted(action), k);
  }

  lemma {:induction false} NoHighBit(n: nat, j: nat, k: nat)
    requires n < Power(j) && j <= k
    ensures !Bit(n, k)
  {
    if j > 0 {
      NoHighBit(n / 2, j - 1, k - 1);
    } else if k > 0 {
      NoHighBit(0, 0, k - 1);
    }
  }

  /**
   So a success that the compatible path has checked back is right for the value that was present at
   the write exactly when no other flag was changed between the read and the write.
   */
  lemma CheckedBackIsRightExactly(action: Action, t: LastTurn)
    requires CompatibleOutcome(action, t).CheckedBack?
    ensures OnlyFlagChanged(t.turn.atWrite, UacValue(t.turn.atRead, action), action)
            <==> AgreeExcept(t.turn.atRead, t.turn.atWrite, Flag(action))
  {
    if AgreeExcept(t.turn.atRead, t.turn.atWrite, Flag(action)) {
      CompatibleWriteIsRightExactly(t.turn, action);
      UacValueChangesOnlyTheFlag(t.turn.atWrite, action);
    } else {
      var k: nat :| k != Flag(action) && Bit(t.turn.atRead, k) != Bit(t.turn.atWrite, k);
      UnhonouredAssertionLosesAChange(t.turn.atRead, t.turn.atWrite, action, k);
    }
  }

  lemma NeverExpiring(value: nat) returns (other: nat)
    ensures Bit(other, DONT_EXPIRE_PASSWORD)
  {
    other := SetBit(value, DONT_EXPIRE_PASSWORD, true);
    SetBitIsExact(value, DONT_EXPIRE_PASSWORD, true, DONT_EXPIRE_PASSWORD);
  }

  lemma DisabledValue(normal: nat, disabled: nat)
    requires normal == 512 && disabled == 514
    ensures UacValue(normal, Disable) == disabled
    ensures !Bit(normal, DONT_EXPIRE_PASSWORD) && !Bit(disabled, DONT_EXPIRE_PASSWORD)
  {
    NormalAccount(normal, disabled);
    assert Power(5) == 32 && Power(10) == 1024;
    NoHighBit(normal, 10, DONT_EXPIRE_PASSWORD);
    NoHighBit(disabled, 10, DONT_EXPIRE_PASSWORD);
  }

  /**
   And it does go wrong while success is reported: disabling an enabled account (512) that another
   administrator sets to never expire in between ends at 514, without that flag.
   */
  lemma CheckedBackLosesAChange() returns (t: LastTurn)
    ensures CompatibleOutcome(Disable, t).CheckedBack?
    ensures t.turn.atRead == 512 && Bit(t.turn.atWrite, DONT_EXPIRE_PASSWORD)
    ensures t.atCheck == 514 && !Bit(t.atCheck, DONT_EXPIRE_PASSWORD)
    ensures !OnlyFlagChanged(t.turn.atWrite, t.atCheck, Disable)
  {
    var other := NeverExpiring(512);
    t := LastTurn(Turn(512, false, other, Done), 514, false);
    DisabledValue(512, 514);
    UnhonouredAssertionLosesAChange(512, other, Disable, DONT_EXPIRE_PASSWORD);
  }
}
