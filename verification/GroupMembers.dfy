/**
 Reading the members of a large directory group range by range (net/domain/sync.py:163-196).

 The transcript holds the server's answers in the order they are asked for; the first one came with
 the group itself. A server that answers for a fixed list follows section 3.1.1.3.1.3.3 of MS-ADTS.
 */
module GroupMembers {
  import opened Outcomes

  /** The option part of a `member;range=low-high` attribute; `*` is no upper bound. */
  datatype RangeKey = RangeKey(low: nat, high: Option<nat>) | Unreadable

  /** A missing value counts as no values, and a single string as one. */
  datatype Values = Absent | Single(value: string) | Many(values: seq<string>)

  datatype Ranged = Ranged(key: RangeKey, values: Values)

  /** One answer: none, or the ranged member attributes of the one entry found. */
  datatype Answer = Unanswered | Attributes(ranges: seq<Ranged>)

  function ValueList(v: Values): (list: seq<string>) {
    match v
    case Absent => []
    case Single(value) => if value == "" then [] else [value]
    case Many(values) => values
  }

  lemma ValuesRead(value: string, values: seq<string>)
    ensures ValueList(Absent) == [] && ValueList(Single("")) == [] && ValueList(Many(values)) == values
    ensures value != "" ==> ValueList(Single(value)) == [value]
  {
  }

  /** Exactly one readable range, as the loop demands of every answer. */
  predicate IsRound(a: Answer) {
    a.Attributes? && |a.ranges| == 1 && a.ranges[0].key.RangeKey?
  }

  function Low(a: Answer): nat { if IsRound(a) then a.ranges[0].key.low else 0 }

  function High(a: Answer): Option<nat> { if IsRound(a) then a.ranges[0].key.high else None }

  function Members(a: Answer): seq<string> { if IsRound(a) then ValueList(a.ranges[0].values) else [] }

  /** The values of the first `n` answers, one after the other. */
  ghost function Joined(t: seq<Answer>, n: nat): (members: seq<string>)
    requires n <= |t|
  {
    if n == 0 then [] else Joined(t, n - 1) + Members(t[n - 1])
  }

  /** Answer `i` continues the reading: it starts where the answers before it end, and is as long as it says. */
  ghost predicate Continues(t: seq<Answer>, i: nat)
    requires i < |t|
  {
    && IsRound(t[i]) && Low(t[i]) == |Joined(t, i)| && Members(t[i]) != []
    && High(t[i]) == Some(|Joined(t, i)| + |Members(t[i])| - 1)
  }

  ghost predicate Consecutive(t: seq<Answer>, n: nat) {
    n <= |t| && forall i :: 0 <= i < n ==> Continues(t, i)
  }

  /** The answers up to number `n` cover the members from 0 to the open end, without gap or overlap. */
  ghost predicate Complete(t: seq<Answer>, n: nat, members: seq<string>) {
    && n < |t| && Consecutive(t, n) && IsRound(t[n])
    && Low(t[n]) == |Joined(t, n)| && High(t[n]).None?
    && members == Joined(t, n) + Members(t[n])
  }

  /**
   The loop. It returns exactly the concatenation of consecutive ranges from 0 up to an open one, and
   raises on every other transcript: malformed, short, out of order or broken off.
   */
  method CompleteGroupMembers(t: seq<Answer>) returns (result: Result<seq<string>, ()>)
    requires t != []
    ensures result.Ok? ==> exists n: nat :: Complete(t, n, result.value)
    ensures result.Err? ==> forall n: nat, members :: !Complete(t, n, members)
  {
    var members, expected := [], 0;
    var round := 0;
    while round < |t|
      invariant round <= |t| && Consecutive(t, round)
      invariant members == Joined(t, round) && expected == |members|
    {
      var current := t[round];
      if current.Unanswered? || |current.ranges| != 1 {
        NotComplete(t, round);
        return Err(());
      }
      var key := current.ranges[0].key;
      if key.Unreadable? || key.low != expected {
        NotComplete(t, round);
        return Err(());
      }
      var values := ValueList(current.ranges[0].values);
      members := members + values;
      if key.high.None? {
        assert Complete(t, round, members);
        return Ok(members);
      }
      var end := key.high.value;
      if end < expected || |values| != end - expected + 1 {
        NotComplete(t, round);
        return Err(());
      }
      expected := end + 1;
      round := round + 1;
    }
    forall n: nat, all ensures !Complete(t, n, all) {
      assert n < |t| ==> Continues(t, n);
    }
    return Err(());
  }

  /** If answer `k` can neither continue nor end the reading, there is no complete reading. */
  lemma NotComplete(t: seq<Answer>, k: nat)
    requires k < |t| && Consecutive(t, k) && !Continues(t, k)
    requires IsRound(t[k]) && Low(t[k]) == |Joined(t, k)| ==> High(t[k]).Some?
    ensures forall n: nat, members :: !Complete(t, n, members)
  {
    forall n: nat, members ensures !Complete(t, n, members) {
      if n < k {
        assert Continues(t, n);
      }
    }
  }

  /** On every round the index asked for next strictly increases. */
  lemma ExpectedIncreases(t: seq<Answer>, n: nat, i: nat)
    requires Consecutive(t, n) && i < n
    ensures High(t[i]).Some? && Low(t[i]) < High(t[i]).value + 1 == |Joined(t, i + 1)|
    ensures i + 1 < n ==> Low(t[i + 1]) == High(t[i]).value + 1
  {
    assert Continues(t, i);
    assert i + 1 < n ==> Continues(t, i + 1);
  }

  /** The answer of a server to a request from `low` on, for a fixed list of members. */
  ghost predicate Serves(list: seq<string>, low: nat, a: Answer) {
    && IsRound(a) && Low(a) == low <= |list|
    && match High(a)
       case None => Members(a) == list[low..]
       case Some(high) => low <= high < |list| && Members(a) == list[low..high + 1]
  }

  /** What answer `i` was asked for: the group itself starts at 0, later requests right after the range before. */
  function AskedFor(t: seq<Answer>, i: nat): (low: nat)
    requires i < |t|
  {
    if i == 0 || High(t[i - 1]).None? then 0 else High(t[i - 1]).value + 1
  }

  /** Answer `i` is the server's answer to what was asked, and it is open exactly if it is the last one. */
  ghost predicate ServedAt(list: seq<string>, t: seq<Answer>, i: nat)
    requires i < |t|
  {
    Serves(list, AskedFor(t, i), t[i]) && (High(t[i]).None? <==> i == |t| - 1)
  }

  ghost predicate FollowsServer(list: seq<string>, t: seq<Answer>) {
    t != [] && forall i :: 0 <= i < |t| ==> ServedAt(list, t, i)
  }

  lemma {:induction false} ServedPrefix(list: seq<string>, t: seq<Answer>, n: nat)
    requires FollowsServer(list, t) && n < |t|
    ensures Consecutive(t, n) && AskedFor(t, n) == |Joined(t, n)|
    ensures AskedFor(t, n) <= |list| && Joined(t, n) == list[..AskedFor(t, n)]
  {
    assert ServedAt(list, t, n);
    if n > 0 {
      ServedPrefix(list, t, n - 1);
      assert ServedAt(list, t, n - 1);
      ServedStep(list, AskedFor(t, n - 1), t[n - 1], Joined(t, n - 1));
      assert Continues(t, n - 1);
    }
  }

  lemma ServedStep(list: seq<string>, low: nat, a: Answer, joined: seq<string>)
    requires Serves(list, low, a) && High(a).Some? && joined == list[..low]
    ensures Members(a) != [] && High(a).value + 1 == |joined| + |Members(a)| <= |list|
    ensures joined + Members(a) == list[..High(a).value + 1]
  {
    assert list[..High(a).value + 1] == list[..low] + list[low..High(a).value + 1];
  }

  /** Against a server that answers for a fixed list, the reading is complete and is that list. */
  lemma ServerListIsReturned(list: seq<string>, t: seq<Answer>)
    requires FollowsServer(list, t)
    ensures Complete(t, |t| - 1, list)
    ensures forall n: nat, members :: Complete(t, n, members) ==> members == list
  {
    var last := |t| - 1;
    ServedPrefix(list, t, last);
    var low := AskedFor(t, last);
    assert ServedAt(list, t, last);
    assert list == list[..low] + list[low..];
    forall n: nat, members | Complete(t, n, members) ensures members == list {
      assert ServedAt(list, t, n);
    }
  }

  /** The answers of a server that hands out `list` in pieces of the given sizes, the last one open. */
  ghost function Handout(list: seq<string>, low: nat, sizes: seq<nat>): (t: seq<Answer>)
    requires low <= |list| && forall i :: 0 <= i < |sizes| ==> sizes[i] > 0
    decreases sizes
  {
    if sizes == [] || |list| <= low + sizes[0]
    then [Attributes([Ranged(RangeKey(low, None), Many(list[low..]))])]
    else
      var next := low + sizes[0];
      [Attributes([Ranged(RangeKey(low, Some(next - 1)), Many(list[low..next]))])] + Handout(list, next, sizes[1..])
  }

  lemma {:induction false} HandoutFollows(list: seq<string>, low: nat, sizes: seq<nat>, i: nat)
    requires low <= |list| && forall k :: 0 <= k < |sizes| ==> sizes[k] > 0
    requires i < |Handout(list, low, sizes)|
    ensures var t := Handout(list, low, sizes);
            && Serves(list, if i == 0 then low else AskedFor(t, i), t[i]) && (High(t[i]).None? <==> i == |t| - 1)
    decreases sizes
  {
    if sizes != [] && low + sizes[0] < |list| {
      var next := low + sizes[0];
      var t, rest := Handout(list, low, sizes), Handout(list, next, sizes[1..]);
      assert rest != [] && t[1..] == rest;
      if i > 0 {
        HandoutFollows(list, next, sizes[1..], i - 1);
        assert t[i] == rest[i - 1] && (i > 1 ==> t[i - 1] == rest[i - 2]);
      }
    }
  }

  /** Whatever the sizes of the pieces, such a list comes back whole. */
  lemma HandoutIsReturned(list: seq<string>, sizes: seq<nat>)
    requires forall i :: 0 <= i < |sizes| ==> sizes[i] > 0
    ensures var t := Handout(list, 0, sizes); t != [] && Complete(t, |t| - 1, list)
    ensures forall n: nat, members :: Complete(Handout(list, 0, sizes), n, members) ==> members == list
  {
    var t := Handout(list, 0, sizes);
    forall i | 0 <= i < |t| ensures ServedAt(list, t, i) {
      HandoutFollows(list, 0, sizes, i);
    }
    ServerListIsReturned(list, t);
  }
}
